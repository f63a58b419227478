/**
 `das-primitives/src/crypto/mod.rs`: where the chunks of a row lie on the domain of roots of unity.
 */
module Kzg {
  import opened Wrappers
  import opened Algebra
  import opened Polynomials
  import opened Bits
  import opened Dft
  import opened ErasureCoding

  /**
   A KZG instance over scalars F with proofs in P. The functions of the underlying library are
   fields: recovery of coefficients, and the proof that a polynomial takes its values on the coset
   of the given size around a point. `word` is the width of `usize`.
   */
  datatype KZG<!F, !P> = KZG(
    fs: FftSettings<F>,
    word: nat,
    recover: seq<Option<F>> -> Result<seq<F>>,
    proveCoset: (seq<F>, F, nat) -> Result<P>)

  ghost predicate ValidKZG<F(!new), P>(kzg: KZG<F, P>) {
    && ValidSettings(kzg.fs)
    && RecoversCoefficients(kzg.fs, kzg.recover)
    && KeepsLength(kzg.recover)
  }

  ghost predicate KeepsLength<F(!new)>(recover: seq<Option<F>> -> Result<seq<F>>) {
    forall samples :: recover(samples).Ok? ==> |recover(samples).value| == |samples|
  }

  function DomainStride(maxWidth: nat, chunkSize: nat, chunkCount: nat): nat
    requires chunkSize > 0 && chunkCount > 0
  {
    PositiveProduct(chunkSize, chunkCount);
    Divided(maxWidth, 2 * (chunkSize * chunkCount))
  }

  /** `get_kzg_index` */
  function GetKzgIndex<F, P>(kzg: KZG<F, P>, chunkCount: nat, chunkIndex: nat, chunkSize: nat): nat
    requires IsPow2(chunkCount) && Log2(chunkCount) < kzg.word
    requires chunkSize > 0
  {
    var domainStride := DomainStride(kzg.fs.maxWidth, chunkSize, chunkCount);
    var domainPos := ReverseBitsLimited(kzg.word, chunkCount, chunkIndex);
    domainPos * domainStride
  }

  /** `compute_proof_multi` */
  function ComputeProofMulti<F, P>(kzg: KZG<F, P>, poly: seq<F>, chunkIndex: nat, count: nat, chunkSize: nat): Result<P>
    requires IsPow2(count) && Log2(count) < kzg.word
    requires chunkSize > 0
  {
    var pos := GetKzgIndex(kzg, count, chunkIndex, chunkSize);
    kzg.proveCoset(poly, RootAt(kzg.fs, pos), chunkSize)
  }

  /** The index in a row of offset o in chunk i. */
  function Offset(i: nat, size: nat, o: nat): nat {
    Times(i, size) + o
  }

  /** The i-th chunk of a sequence cut into pieces of the given size. */
  function Chunk<T>(s: seq<T>, i: nat, size: nat): (r: seq<T>)
    requires Offset(i, size, size) <= |s|
    ensures |r| == size
    ensures forall o :: 0 <= o < size ==> Offset(i, size, o) < |s| && r[o] == s[Offset(i, size, o)]
  {
    s[Offset(i, size, 0)..Offset(i, size, size)]
  }

  lemma ChunkInRange(i: nat, count: nat, size: nat)
    requires i < count
    ensures Offset(i, size, size) <= Times(count, size)
  {
    TimesMonotone(i, count, size);
  }

  lemma BelowTimes(i: nat, a: nat, t: nat, b: nat)
    requires i < a && t < b
    ensures Offset(i, b, t) < Times(a, b)
  {
    TimesMonotone(i, a, b);
  }

  /** How far apart the roots of order 2^n lie on a domain of size 2^k. */
  function Stride(n: nat, k: nat): nat {
    if n <= k then Pow2(k - n) else 0
  }

  lemma StrideDivides(n: nat, k: nat)
    ensures Divided(Pow2(k), Pow2(n)) == Stride(n, k)
  {
    if n <= k {
      Pow2Div(k, n);
    } else {
      Pow2Monotone(k + 1, n);
    }
  }

  /** `get_kzg_index` in terms of exponents: the reversed chunk index times the stride of the row's domain. */
  lemma KzgIndexExp<F, P>(kzg: KZG<F, P>, k: nat, c: nat, s: nat, i: nat)
    requires kzg.fs.maxWidth == Pow2(k) && c < kzg.word
    ensures IsPow2(Pow2(c)) && Log2(Pow2(c)) == c
    ensures GetKzgIndex(kzg, Pow2(c), i, Pow2(s))
         == BitRev(c + 1, i) * Stride(c + s + 1, k)
  {
    Pow2IsPow2(c);
    ReverseBitsLimitedCorrect(kzg.word, Pow2(c), i);
    Pow2Add(s, c);
    var n := c + s + 1;
    assert 2 * (Pow2(s) * Pow2(c)) == Pow2(n);
    StrideDivides(n, k);
  }

  /** The width of `usize` leaves room for the domain. */
  ghost predicate FitsWord<F, P>(kzg: KZG<F, P>) {
    kzg.fs.maxWidth < Pow2(kzg.word)
  }

  /**
   The point of the domain of a row of 2n scalars whose coset holds the values of chunk i, when the row
   is in bit-reversed order and cut into `chunks` pieces.
   */
  function CosetPoint<F>(fs: FftSettings<F>, n: nat, chunks: nat, i: nat): F
    requires IsPow2(chunks) && n > 0
  {
    Pow(fs.field, Root(fs, 2 * n), BitRev(Log2(chunks), i))
  }

  /** The root at `get_kzg_index` of chunk i is the point of that chunk's coset. */
  lemma IndexOfCoset<F(!new), P>(kzg: KZG<F, P>, n: nat, count: nat, size: nat, i: nat)
    requires ValidSettings(kzg.fs) && IsPow2(count) && Log2(count) < kzg.word && IsPow2(size)
    requires n == count * size && 2 * n <= kzg.fs.maxWidth
    ensures IsPow2(2 * count) && n > 0
    ensures RootAt(kzg.fs, GetKzgIndex(kzg, count, i, size)) == CosetPoint(kzg.fs, n, 2 * count, i)
  {
    var k := Log2(kzg.fs.maxWidth);
    RowBounds(count, size, 0, n, k);
    IndexOfCosetLog(kzg, n, count, size, i, k);
  }

  lemma IndexOfCosetLog<F(!new), P>(kzg: KZG<F, P>, n: nat, count: nat, size: nat, i: nat, k: nat)
    requires IsField(kzg.fs.field) && kzg.fs.maxWidth == Pow2(k)
    requires IsPow2(count) && Log2(count) < kzg.word && IsPow2(size)
    requires n == Pow2(Log2(count) + Log2(size)) && Log2(count) + Log2(size) + 1 <= k
    ensures IsPow2(2 * count) && n > 0
    ensures RootAt(kzg.fs, GetKzgIndex(kzg, count, i, size)) == CosetPoint(kzg.fs, n, 2 * count, i)
  {
    IndexOfCosetLen(kzg, n, count, size, i, k, Log2(count), Log2(size));
  }

  lemma IndexOfCosetLen<F(!new), P>(kzg: KZG<F, P>, n: nat, count: nat, size: nat, i: nat, k: nat, c: nat, s: nat)
    requires IsField(kzg.fs.field) && kzg.fs.maxWidth == Pow2(k)
    requires IsPow2(count) && Log2(count) == c < kzg.word && count == Pow2(c) && size == Pow2(s)
    requires n == Pow2(c + s) && c + s + 1 <= k
    ensures IsPow2(2 * count) && n > 0
    ensures RootAt(kzg.fs, GetKzgIndex(kzg, count, i, size)) == CosetPoint(kzg.fs, n, 2 * count, i)
  {
    LogTwice(count);
    assert 2 * n == Pow2(c + s + 1);
    assert CosetPoint(kzg.fs, n, 2 * count, i) == Pow(kzg.fs.field, Root(kzg.fs, Pow2(c + s + 1)), BitRev(c + 1, i));
    IndexOfCosetExp(kzg, k, c, s, i);
  }

  lemma LogTwice(n: nat)
    requires IsPow2(n)
    ensures IsPow2(2 * n) && Log2(2 * n) == Log2(n) + 1
  {
    assert (2 * n) / 2 == n;
  }

  lemma IndexOfCosetExp<F(!new), P>(kzg: KZG<F, P>, k: nat, c: nat, s: nat, i: nat)
    requires IsField(kzg.fs.field) && kzg.fs.maxWidth == Pow2(k) && c < kzg.word && c + s + 1 <= k
    ensures IsPow2(Pow2(c)) && Log2(Pow2(c)) == c
    ensures RootAt(kzg.fs, GetKzgIndex(kzg, Pow2(c), i, Pow2(s))) ==
            Pow(kzg.fs.field, Root(kzg.fs, Pow2(c + s + 1)), BitRev(c + 1, i))
  {
    KzgIndexExp(kzg, k, c, s, i);
    var q, r := Stride(c + s + 1, k), BitRev(c + 1, i);
    SwapFactors(q, r);
    RootPower(kzg.fs, k, c + s + 1, q, r, GetKzgIndex(kzg, Pow2(c), i, Pow2(s)));
  }

  lemma SwapFactors(a: nat, b: nat)
    ensures a * b == b * a
  {
  }

  /** Entry t of a row is the value at the root whose index is the reversed t times the row's stride. */
  lemma RowEntry<F(!new)>(fs: FftSettings<F>, poly: seq<F>, k: nat, n: nat, t: nat, x: nat)
    requires IsField(fs.field) && fs.maxWidth == Pow2(k)
    requires |poly| == Pow2(n) && n + 1 <= k && t < Pow2(n + 1)
    requires x == Stride(n + 1, k) * BitRev(n + 1, t)
    ensures IsPow2(|poly|) && |ExtendedRow(fs, poly)| == Pow2(n + 1)
    ensures ExtendedRow(fs, poly)[t] == Eval(Scalars(fs.field), poly, RootAt(fs, x))
  {
    Pow2IsPow2(n);
    Pow2IsPow2(n + 1);
    RowAt(fs, poly, Pow2(n + 1), t);
    RootPower(fs, k, n + 1, Stride(n + 1, k), BitRev(n + 1, t), x);
  }

  lemma RootPower<F(!new)>(fs: FftSettings<F>, k: nat, n: nat, q: nat, r: nat, x: nat)
    requires IsField(fs.field) && fs.maxWidth == Pow2(k) && n <= k
    requires q == Stride(n, k) && x == q * r
    ensures Pow(fs.field, Root(fs, Pow2(n)), r) == RootAt(fs, x)
  {
    Pow2Div(k, n);
    PowPow(fs.field, fs.root, q, r);
  }

  lemma RowAt<F>(fs: FftSettings<F>, poly: seq<F>, wide: nat, t: nat)
    requires IsPow2(|poly|) && wide == 2 * |poly| && t < wide
    ensures IsPow2(wide) && BitRev(Log2(wide), t) < wide
    ensures ExtendedRow(fs, poly)[t]
         == Eval(Scalars(fs.field), poly, Pow(fs.field, Root(fs, wide), BitRev(Log2(wide), t)))
  {
    assert wide / 2 == |poly|;
    ValueAt(fs, Scalars(fs.field), poly, wide, BitRev(Log2(wide), t));
  }

  /** The root of entry j of the coset of a chunk. */
  function CosetIndex<F, P>(kzg: KZG<F, P>, chunkCount: nat, chunkIndex: nat, chunkSize: nat, j: nat): nat
    requires IsPow2(chunkCount) && Log2(chunkCount) < kzg.word
    requires chunkSize > 0
  {
    GetKzgIndex(kzg, chunkCount, chunkIndex, chunkSize) + j * Divided(kzg.fs.maxWidth, chunkSize)
  }

  lemma ExponentSum(q: nat, p: nat, r: nat, j: nat)
    ensures q * (j * p + r) == r * q + j * (q * p)
  {
  }

  /** The root of entry j of the coset is the root of the row entry that the reordering puts there. */
  lemma CosetIndexExp<F, P>(kzg: KZG<F, P>, k: nat, c: nat, s: nat, i: nat, j: nat, t: nat)
    requires kzg.fs.maxWidth == Pow2(k) && c < kzg.word && c + s + 1 <= k
    requires i < Pow2(c + 1) && j < Pow2(s)
    requires t == Offset(i, Pow2(s), BitRev(s, j))
    ensures IsPow2(Pow2(c)) && Log2(Pow2(c)) == c && t < Pow2(c + s + 1)
    ensures CosetIndex(kzg, Pow2(c), i, Pow2(s), j) == Stride(c + s + 1, k) * BitRev(c + s + 1, t)
  {
    KzgIndexExp(kzg, k, c, s, i);
    Pow2Div(k, s);
    Pow2Add(k - (c + s + 1), c + 1);
    ExponentSum(Pow2(k - (c + s + 1)), Pow2(c + 1), BitRev(c + 1, i), j);
    ReversedOffset(c, s, i, j, t);
  }

  lemma ReversedOffset(c: nat, s: nat, i: nat, j: nat, t: nat)
    requires i < Pow2(c + 1) && j < Pow2(s)
    requires t == Offset(i, Pow2(s), BitRev(s, j))
    ensures t < Pow2(c + s + 1) && BitRev(c + s + 1, t) == j * Pow2(c + 1) + BitRev(c + 1, i)
  {
    TimesIsProduct(i, Pow2(s));
    BelowProduct(i, Pow2(c + 1), BitRev(s, j), Pow2(s));
    Pow2Add(c + 1, s);
    assert (c + 1) + s == c + s + 1;
    BitRevInvolution(s, j);
    BitRevSplit(c + 1, s, i, BitRev(s, j));
  }

  lemma BelowProduct(i: nat, a: nat, t: nat, b: nat)
    requires i < a && t < b
    ensures i * b + t < a * b
  {
    assert (i + 1) * b <= a * b;
  }

  /**
   Coset layout: value j of chunk i of a row, after the reordering of the chunk in
   `check_proof_multi`, is the value at root `get_kzg_index + j * (max_width / chunk_size)`.
   */
  lemma CosetLayout<F(!new), P>(kzg: KZG<F, P>, poly: seq<F>, count: nat, size: nat, i: nat, j: nat)
    requires ValidSettings(kzg.fs)
    requires IsPow2(count) && IsPow2(size) && Log2(count) < kzg.word
    requires |poly| == count * size && 2 * |poly| <= kzg.fs.maxWidth
    requires i < 2 * count && j < size
    ensures IsPow2(|poly|) && Offset(i, size, size) <= |ExtendedRow(kzg.fs, poly)|
    ensures Reordered(Chunk(ExtendedRow(kzg.fs, poly), i, size))[j]
         == Eval(Scalars(kzg.fs.field), poly, RootAt(kzg.fs, CosetIndex(kzg, count, i, size, j)))
  {
    var k, n := Log2(kzg.fs.maxWidth), Log2(count) + Log2(size);
    var t := Offset(i, size, BitRev(Log2(size), j));
    CosetIndexOf(kzg, count, size, i, j, |poly|, k, n, t);
    RowEntry(kzg.fs, poly, k, n, t, CosetIndex(kzg, count, i, size, j));
  }

  lemma CosetIndexOf<F, P>(kzg: KZG<F, P>, count: nat, size: nat, i: nat, j: nat, len: nat, k: nat, n: nat, t: nat)
    requires IsPow2(count) && IsPow2(size) && Log2(count) < kzg.word
    requires len == count * size && kzg.fs.maxWidth == Pow2(k) && 2 * len <= Pow2(k)
    requires i < 2 * count && j < size
    requires n == Log2(count) + Log2(size) && t == Offset(i, size, BitRev(Log2(size), j))
    ensures len == Pow2(n) && n + 1 <= k && t < Pow2(n + 1) && Offset(i, size, size) <= Pow2(n + 1)
    ensures CosetIndex(kzg, count, i, size, j) == Stride(n + 1, k) * BitRev(n + 1, t)
  {
    RowBounds(count, size, i, len, k);
    CosetIndexLen(kzg, count, size, i, j, k, n, t);
  }

  lemma CosetIndexLen<F, P>(kzg: KZG<F, P>, count: nat, size: nat, i: nat, j: nat, k: nat, n: nat, t: nat)
    requires IsPow2(count) && IsPow2(size) && Log2(count) < kzg.word
    requires kzg.fs.maxWidth == Pow2(k) && n == Log2(count) + Log2(size) && n + 1 <= k
    requires i < 2 * count && j < size && t == Offset(i, size, BitRev(Log2(size), j))
    ensures t < Pow2(n + 1)
    ensures CosetIndex(kzg, count, i, size, j) == Stride(n + 1, k) * BitRev(n + 1, t)
  {
    CosetIndexExp(kzg, k, Log2(count), Log2(size), i, j, t);
  }

  lemma RowBounds(count: nat, size: nat, i: nat, n: nat, k: nat)
    requires IsPow2(count) && IsPow2(size) && n == count * size && 2 * n <= Pow2(k) && i < 2 * count
    ensures IsPow2(n) && Pow2(Log2(count) + Log2(size)) == n && Log2(count) + Log2(size) + 1 <= k
    ensures Offset(i, size, size) <= 2 * n && 4 * n == 2 * Pow2(Log2(count) + Log2(size) + 1)
  {
    Pow2Mul(count, size);
    TimesIsProduct(count, size);
    RowBoundsExp(count, size, i, n, k, Log2(count) + Log2(size));
  }

  lemma RowBoundsExp(count: nat, size: nat, i: nat, n: nat, k: nat, e: nat)
    requires n == Times(count, size) == Pow2(e) && 2 * n <= Pow2(k) && i < 2 * count
    ensures e + 1 <= k && Offset(i, size, size) <= 2 * n && 4 * n == 2 * Pow2(e + 1)
  {
    if k < e + 1 {
      Pow2Monotone(k, e);
    }
    ChunkInRange(i, 2 * count, size);
    TimesTwice(count, size);
  }

  /** So the reordered chunk holds the values on the coset that the proof of the chunk is about. */
  lemma ChunkIsCoset<F(!new), P>(kzg: KZG<F, P>, poly: seq<F>, count: nat, size: nat, i: nat, j: nat)
    requires ValidSettings(kzg.fs)
    requires IsPow2(count) && IsPow2(size) && Log2(count) < kzg.word
    requires |poly| == count * size && 2 * |poly| <= kzg.fs.maxWidth
    requires i < 2 * count && j < size
    ensures IsPow2(|poly|) && Offset(i, size, size) <= |ExtendedRow(kzg.fs, poly)|
    ensures Reordered(Chunk(ExtendedRow(kzg.fs, poly), i, size))[j]
         == Eval(Scalars(kzg.fs.field), poly,
                 kzg.fs.field.mul(RootAt(kzg.fs, GetKzgIndex(kzg, count, i, size)), Pow(kzg.fs.field, Root(kzg.fs, size), j)))
  {
    CosetLayout(kzg, poly, count, size, i, j);
    CosetRoot(kzg, count, size, i, j);
  }

  /**
   What an accepted proof of `check_proof_multi` says about the committed polynomial: the data, after
   the reordering, are its values on the coset of their own number around the root at `get_kzg_index`.
   */
  ghost predicate Opens<F(!new), P>(kzg: KZG<F, P>, poly: seq<F>, count: nat, i: nat, data: seq<F>)
    requires IsPow2(count) && Log2(count) < kzg.word
  {
    && IsPow2(|data|)
    && forall j: nat :: j < |data| ==> Reordered(data)[j] == CosetValue(kzg, poly, count, i, |data|, j)
  }

  function CosetValue<F, P>(kzg: KZG<F, P>, poly: seq<F>, count: nat, i: nat, size: nat, j: nat): F
    requires IsPow2(count) && Log2(count) < kzg.word && size > 0
  {
    Eval(Scalars(kzg.fs.field), poly,
         kzg.fs.field.mul(RootAt(kzg.fs, GetKzgIndex(kzg, count, i, size)), Pow(kzg.fs.field, Root(kzg.fs, size), j)))
  }

  /** The data of an opening of the given size. */
  function Opening<F, P>(kzg: KZG<F, P>, poly: seq<F>, count: nat, i: nat, size: nat): (r: seq<F>)
    requires IsPow2(count) && Log2(count) < kzg.word && IsPow2(size)
    ensures |r| == size
  {
    Reordered(seq(size, (j: nat) => CosetValue(kzg, poly, count, i, size, j)))
  }

  lemma OpeningOpens<F(!new), P>(kzg: KZG<F, P>, poly: seq<F>, count: nat, i: nat, size: nat)
    requires IsPow2(count) && Log2(count) < kzg.word && IsPow2(size)
    ensures Opens(kzg, poly, count, i, Opening(kzg, poly, count, i, size))
  {
    ReorderedTwice(seq(size, (j: nat) => CosetValue(kzg, poly, count, i, size, j)));
  }

  /** Data of the size of the row's chunks open to the polynomial exactly if they are the chunk. */
  lemma OpensIsChunk<F(!new), P>(kzg: KZG<F, P>, poly: seq<F>, count: nat, size: nat, i: nat, data: seq<F>)
    requires ValidSettings(kzg.fs)
    requires IsPow2(count) && IsPow2(size) && Log2(count) < kzg.word
    requires |poly| == count * size && 2 * |poly| <= kzg.fs.maxWidth && i < 2 * count && |data| == size
    ensures IsPow2(|poly|) && Offset(i, size, size) <= |ExtendedRow(kzg.fs, poly)|
    ensures Opens(kzg, poly, count, i, data) <==> data == Chunk(ExtendedRow(kzg.fs, poly), i, size)
  {
    ChunkIsCoset(kzg, poly, count, size, i, 0);
    var chunk := Chunk(ExtendedRow(kzg.fs, poly), i, size);
    forall j: nat | j < size ensures Reordered(chunk)[j] == CosetValue(kzg, poly, count, i, size, j) {
      ChunkIsCoset(kzg, poly, count, size, i, j);
    }
    if Opens(kzg, poly, count, i, data) {
      assert Reordered(data) == Reordered(chunk);
      ReorderedTwice(data);
      ReorderedTwice(chunk);
    }
  }

  lemma CosetRoot<F(!new), P>(kzg: KZG<F, P>, count: nat, size: nat, i: nat, j: nat)
    requires IsField(kzg.fs.field)
    requires IsPow2(count) && size > 0 && Log2(count) < kzg.word
    ensures RootAt(kzg.fs, CosetIndex(kzg, count, i, size, j))
         == kzg.fs.field.mul(RootAt(kzg.fs, GetKzgIndex(kzg, count, i, size)), Pow(kzg.fs.field, Root(kzg.fs, size), j))
  {
    SplitIndex(kzg.fs, GetKzgIndex(kzg, count, i, size), j, Divided(kzg.fs.maxWidth, size));
  }

  lemma SplitIndex<F(!new)>(fs: FftSettings<F>, pos: nat, j: nat, step: nat)
    requires IsField(fs.field)
    ensures RootAt(fs, pos + j * step) == fs.field.mul(RootAt(fs, pos), Pow(fs.field, RootAt(fs, step), j))
  {
    PowAdd(fs.field, fs.root, pos, step * j);
    PowPow(fs.field, fs.root, step, j);
  }

  // ----- another count than the one the row was cut with -----

  /**
   The callers of `get_kzg_index` do not agree on the count they pass. For the chunks of a row, a
   count other than the row's gives the index of the chunk's coset exactly for chunk 0, and for the
   chunks below twice that count if so many chunks of that size fit the domain.
   */
  lemma PassedCountIndex<F, P>(kzg: KZG<F, P>, len: nat, count: nat, passed: nat, size: nat, i: nat)
    requires IsPow2(kzg.fs.maxWidth)
    requires IsPow2(count) && IsPow2(passed) && IsPow2(size) && Log2(count) < kzg.word && Log2(passed) < kzg.word
    requires len == count * size && 2 * len <= kzg.fs.maxWidth && i < 2 * count
    ensures GetKzgIndex(kzg, passed, i, size) == GetKzgIndex(kzg, count, i, size)
       <==> i == 0 || (i < 2 * passed && Times(2 * passed, size) <= kzg.fs.maxWidth)
  {
    var k := Log2(kzg.fs.maxWidth);
    RowBounds(count, size, i, len, k);
    FitsDomain(passed, size, Log2(passed), Log2(size), k);
    PassedCountExp(kzg, k, Log2(count), Log2(passed), Log2(size), i);
  }

  /** Twice the count times the size, in terms of exponents. */
  lemma FitsDomain(count: nat, size: nat, c: nat, s: nat, k: nat)
    requires count == Pow2(c) && size == Pow2(s)
    ensures Times(2 * count, size) <= Pow2(k) <==> c + s + 1 <= k
  {
    Pow2Add(c, s);
    TimesIsProduct(count, size);
    FitsDomainExp(count, size, c + s, k);
  }

  lemma FitsDomainExp(count: nat, size: nat, e: nat, k: nat)
    requires Times(count, size) == Pow2(e)
    ensures Times(2 * count, size) <= Pow2(k) <==> e + 1 <= k
  {
    TimesTwice(count, size);
    if e + 1 <= k {
      Pow2Monotone(e + 1, k);
    } else {
      Pow2Monotone(k, e);
    }
  }

  lemma PassedCountExp<F, P>(kzg: KZG<F, P>, k: nat, c: nat, d: nat, s: nat, i: nat)
    requires kzg.fs.maxWidth == Pow2(k) && c < kzg.word && d < kzg.word && i < Pow2(c + 1) && c + s + 1 <= k
    ensures IsPow2(Pow2(c)) && Log2(Pow2(c)) == c && IsPow2(Pow2(d)) && Log2(Pow2(d)) == d
    ensures GetKzgIndex(kzg, Pow2(d), i, Pow2(s)) == GetKzgIndex(kzg, Pow2(c), i, Pow2(s))
       <==> i == 0 || (i < Pow2(d + 1) && d + s + 1 <= k)
  {
    KzgIndexExp(kzg, k, c, s, i);
    KzgIndexExp(kzg, k, d, s, i);
    if d < c {
      FewerChunks(c, d, s, k, i);
    } else {
      MoreChunks(c, d, s, k, i);
    }
  }

  /** With a smaller count the reversed index loses the part of the high bits. */
  lemma StrideSplit(a: nat, n: nat, k: nat)
    requires a <= n <= k
    ensures Stride(n - a, k) == Pow2(a) * Stride(n, k) && Stride(n, k) > 0
  {
    Pow2Add(a, k - n);
  }

  /** The bits of the chunk index that a smaller count loses are zero exactly if the index is small. */
  lemma LostBits(a: nat, b: nat, i: nat)
    requires i < Pow2(a + b)
    ensures BitRev(a, ShiftRight(i, b)) == 0 <==> i < Pow2(b)
  {
    ShiftBelow(i, a, b);
    ReversedZero(a, ShiftRight(i, b));
    ShiftedOut(i, b);
  }

  lemma FewerChunks(c: nat, d: nat, s: nat, k: nat, i: nat)
    requires d < c && c + s + 1 <= k && i < Pow2(c + 1)
    ensures BitRev(d + 1, i) * Stride(d + s + 1, k) == BitRev(c + 1, i) * Stride(c + s + 1, k) <==> i < Pow2(d + 1)
    ensures i == 0 ==> i < Pow2(d + 1)
  {
    var a := c - d;
    assert a + (d + 1) == c + 1;
    BitRevCut(a, d + 1, i);
    StrideSplit(a, c + s + 1, k);
    CutProducts(BitRev(d + 1, i), Pow2(a), BitRev(a, ShiftRight(i, d + 1)), Stride(c + s + 1, k), BitRev(c + 1, i),
                Stride(d + s + 1, k));
    LostBits(a, d + 1, i);
  }

  lemma CutProducts(r: nat, p: nat, lost: nat, q: nat, whole: nat, stride: nat)
    requires whole == r * p + lost && stride == p * q && q > 0
    ensures r * stride == whole * q <==> lost == 0
  {
    assert (r * p + lost) * q == r * (p * q) + lost * q;
    ProductZero(lost, q);
  }

  lemma ProductAssoc(r: nat, p: nat, q: nat, rp: nat, pq: nat)
    requires rp == r * p && pq == p * q
    ensures rp * q == r * pq
  {
  }

  lemma ProductZero(a: nat, b: nat)
    requires b > 0
    ensures a * b == 0 <==> a == 0
  {
  }

  /** With a larger count the reversed index grows as the stride shrinks, until the stride vanishes. */
  lemma MoreChunks(c: nat, d: nat, s: nat, k: nat, i: nat)
    requires c <= d && c + s + 1 <= k && i < Pow2(c + 1)
    ensures BitRev(d + 1, i) * Stride(d + s + 1, k) == BitRev(c + 1, i) * Stride(c + s + 1, k)
       <==> i == 0 || d + s + 1 <= k
    ensures i < Pow2(d + 1)
  {
    var r, p := BitRev(c + 1, i), Pow2(d - c);
    BitRevUpper(d - c, c + 1, i);
    assert (d - c) + (c + 1) == d + 1;
    ReversedZero(c + 1, i);
    Pow2Monotone(c + 1, d + 1);
    if d + s + 1 <= k {
      Pow2Add(d - c, k - (d + s + 1));
      ProductAssoc(r, p, Stride(d + s + 1, k), BitRev(d + 1, i), Stride(c + s + 1, k));
    } else {
      ProductZero(r, Stride(c + s + 1, k));
    }
  }

  lemma ReversedZero(k: nat, i: nat)
    requires i < Pow2(k)
    ensures BitRev(k, i) == 0 <==> i == 0
  {
    BitRevInvolution(k, i);
    BitRevZero(k);
  }

  /**
   `recovery_order_row_from_segments` passes the extended width for the count: the index is the
   chunk's exactly for chunk 0 and for rows, of 2 * len scalars, that fill at most half of the domain.
   */
  lemma ExtendedWidthIndex<F, P>(kzg: KZG<F, P>, len: nat, count: nat, size: nat, i: nat)
    requires IsPow2(kzg.fs.maxWidth)
    requires IsPow2(count) && IsPow2(size) && Log2(count) + 1 < kzg.word
    requires len == count * size && 2 * len <= kzg.fs.maxWidth && i < 2 * count
    ensures IsPow2(2 * count) && Log2(2 * count) < kzg.word
    ensures GetKzgIndex(kzg, 2 * count, i, size) == GetKzgIndex(kzg, count, i, size)
       <==> i == 0 || 4 * len <= kzg.fs.maxWidth
  {
    var wide := 2 * count;
    assert wide / 2 == count;
    PassedCountIndex(kzg, len, count, wide, size, i);
    TimesTwice(count, size);
    TimesTwice(wide, size);
    TimesIsProduct(count, size);
  }

  /**
   In the deployed configuration, 128 chunks of 16 scalars on a domain of 4096 roots, every chunk but
   the first gets a wrong index from the recovery: the index 0.
   */
  lemma DeployedRecoveryIndex<F, P>(kzg: KZG<F, P>, i: nat)
    requires kzg.fs.maxWidth == 4096 && kzg.word >= 32 && i < 256
    ensures DeployedCounts(kzg)
    ensures GetKzgIndex(kzg, 256, i, 16) == 0
    ensures GetKzgIndex(kzg, 128, i, 16) == 0 <==> i == 0
  {
    Deployed(kzg);
    KzgIndexExp(kzg, 12, 8, 4, i);
    TimesIsProduct(512, 16);
    PassedCountIndex(kzg, 2048, 128, 256, 16, i);
  }

  /**
   `verify_sample` passes the segment size, 16, for the count: a sample is checked on the coset of its
   chunk exactly if it is one of the first 32 of the 256.
   */
  lemma DeployedSampleIndex<F, P>(kzg: KZG<F, P>, i: nat)
    requires kzg.fs.maxWidth == 4096 && kzg.word >= 32 && i < 256
    ensures DeployedCounts(kzg)
    ensures GetKzgIndex(kzg, 16, i, 16) == GetKzgIndex(kzg, 128, i, 16) <==> i < 32
  {
    Deployed(kzg);
    TimesIsProduct(32, 16);
    PassedCountIndex(kzg, 2048, 128, 16, 16, i);
  }

  predicate DeployedCounts<F, P>(kzg: KZG<F, P>) {
    && IsPow2(16) && Log2(16) < kzg.word && IsPow2(128) && Log2(128) < kzg.word && IsPow2(256) && Log2(256) < kzg.word
  }

  lemma Deployed<F, P>(kzg: KZG<F, P>)
    requires kzg.fs.maxWidth == 4096 && kzg.word >= 32
    ensures DeployedCounts(kzg) && IsPow2(kzg.fs.maxWidth)
    ensures Pow2(12) == 4096 && Pow2(4) == 16 && Pow2(8) == 256
  {
    assert Pow2(4) == 16;
    assert Pow2(8) == 256;
    Pow2Add(4, 8);
    Pow2IsPow2(4);
    Pow2IsPow2(7);
    Pow2IsPow2(8);
    Pow2IsPow2(12);
    assert Pow2(7) == 128;
  }
}
