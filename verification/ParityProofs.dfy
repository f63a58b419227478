/**
 The proofs of parity segments. `extend_segments_col` extends the proofs of a column with the same
 transform as its data, so the parity proofs are right exactly if all proofs of the column are.
 */
module ParityProofs {
  import opened Wrappers
  import opened Algebra
  import opened Polynomials
  import opened Bits
  import opened Dft
  import opened ErasureCoding
  import opened Kzg
  import opened Segments
  import opened Recovery
  import opened Linearity
  import opened ExtendCol
  import opened RowAssembly
  import opened BlockPipeline

  // ----- extension loses nothing -----

  /** Coefficient t multiplied by the t-th power of w. */
  function Twisted<F, G>(f: Field<F>, m: Module<F, G>, w: F, cs: seq<G>): (r: seq<G>)
    ensures |r| == |cs|
  {
    seq(|cs|, (t: nat) requires t < |cs| => m.smul(Pow(f, w, t), cs[t]))
  }

  lemma TwistedTail<F(!new), G(!new)>(f: Field<F>, m: Module<F, G>, w: F, cs: seq<G>)
    requires IsModule(f, m) && |cs| > 0
    ensures Twisted(f, m, w, cs)[0] == cs[0]
    ensures Twisted(f, m, w, cs)[1..] == VecScale(m, w, Twisted(f, m, w, cs[1..]))
  {
    assert Twisted(f, m, w, cs)[0] == m.smul(Pow(f, w, 0), cs[0]);
    SmulOne(f, m, cs[0]);
    forall t: nat | t < |cs| - 1
      ensures Twisted(f, m, w, cs)[1..][t] == VecScale(m, w, Twisted(f, m, w, cs[1..]))[t]
    {
      assert Pow(f, w, t + 1) == f.mul(w, Pow(f, w, t));
      assert Twisted(f, m, w, cs)[t + 1] == m.smul(Pow(f, w, t + 1), cs[t + 1]);
      assert Twisted(f, m, w, cs[1..])[t] == m.smul(Pow(f, w, t), cs[t + 1]);
      SmulMul(f, m, w, Pow(f, w, t), cs[t + 1]);
    }
  }

  /** A polynomial at w times y is the twisted polynomial at y. */
  lemma {:induction false} EvalTwisted<F(!new), G(!new)>(f: Field<F>, m: Module<F, G>, w: F, cs: seq<G>, y: F)
    requires IsModule(f, m)
    ensures Eval(m, cs, f.mul(y, w)) == Eval(m, Twisted(f, m, w, cs), y)
  {
    if |cs| > 0 {
      var tail := Twisted(f, m, w, cs[1..]);
      EvalTwisted(f, m, w, cs[1..], y);
      TwistedTail(f, m, w, cs);
      EvalScale(f, m, w, tail, y);
      SmulMul(f, m, y, w, Eval(m, tail, y));
    }
  }

  lemma ParityAt<F, G>(fs: FftSettings<F>, m: Module<F, G>, vs: seq<G>, i: nat)
    requires i < |vs|
    ensures Parity(fs, m, vs)[i] == Eval(m, Coefficients(fs, m, vs), Pow(fs.field, Root(fs, 2 * |vs|), 2 * i + 1))
  {
  }

  lemma ParityValueAt<F(!new), G(!new)>(fs: FftSettings<F>, m: Module<F, G>, vs: seq<G>, n: nat, i: nat, twisted: seq<G>)
    requires Valid(fs, m) && n == |vs| && IsPow2(n) && 2 * n <= fs.maxWidth && i < n
    requires twisted == Twisted(fs.field, m, Root(fs, 2 * n), Coefficients(fs, m, vs))
    ensures Parity(fs, m, vs)[i] == Values(fs, m, twisted, n)[i]
  {
    ParityAt(fs, m, vs, i);
    OddPower(fs, n, i);
    EvalTwisted(fs.field, m, Root(fs, 2 * n), Coefficients(fs, m, vs), Pow(fs.field, Root(fs, n), i));
    ValueAt(fs, m, twisted, n, i);
  }

  /** The parity is the transform of the twisted coefficients. */
  lemma ParityIsValues<F(!new), G(!new)>(fs: FftSettings<F>, m: Module<F, G>, vs: seq<G>)
    requires Valid(fs, m) && IsPow2(|vs|) && 2 * |vs| <= fs.maxWidth
    ensures Parity(fs, m, vs) == Values(fs, m, Twisted(fs.field, m, Root(fs, 2 * |vs|), Coefficients(fs, m, vs)), |vs|)
  {
    var twisted := Twisted(fs.field, m, Root(fs, 2 * |vs|), Coefficients(fs, m, vs));
    var parity, values := Parity(fs, m, vs), Values(fs, m, twisted, |vs|);
    forall i: nat | i < |vs| ensures parity[i] == values[i] {
      ParityValueAt(fs, m, vs, |vs|, i, twisted);
    }
  }

  lemma OddPower<F(!new)>(fs: FftSettings<F>, n: nat, i: nat)
    requires ValidSettings(fs) && IsPow2(n) && 2 * n <= fs.maxWidth
    ensures Pow(fs.field, Root(fs, 2 * n), 2 * i + 1)
         == fs.field.mul(Pow(fs.field, Root(fs, n), i), Root(fs, 2 * n))
  {
    var f, w := fs.field, Root(fs, 2 * n);
    RootSquared(fs, n);
    PowPow(f, w, 2, i);
    assert Pow(f, w, 2 * i + 1) == f.mul(w, Pow(f, w, 2 * i));
    MulComm(f, w, Pow(f, w, 2 * i));
  }

  /** Twisting by a power of a root can be undone. */
  lemma TwistedInjective<F(!new), G(!new)>(f: Field<F>, m: Module<F, G>, w: F, n: nat, a: seq<G>, b: seq<G>)
    requires IsModule(f, m) && |a| == |b| && Pow(f, w, n) == f.one && n > 0
    requires Twisted(f, m, w, a) == Twisted(f, m, w, b)
    ensures a == b
  {
    forall t: nat | t < |a| ensures a[t] == b[t] {
      assert Twisted(f, m, w, a)[t] == Twisted(f, m, w, b)[t];
      PowNonzero(f, w, n, t);
      SmulCancel(f, m, Pow(f, w, t), a[t], b[t]);
    }
  }

  lemma PowNonzero<F(!new)>(f: Field<F>, w: F, n: nat, t: nat)
    requires IsField(f) && Pow(f, w, n) == f.one && n > 0
    ensures Pow(f, w, t) != f.zero
  {
    if Pow(f, w, t) == f.zero {
      ZeroPower(f, w, t);
      MulZero(f, Pow(f, w, n - 1));
    }
  }

  lemma {:induction false} ZeroPower<F(!new)>(f: Field<F>, w: F, t: nat)
    requires IsField(f) && Pow(f, w, t) == f.zero
    ensures w == f.zero
  {
    if t > 0 && w != f.zero {
      NoZeroDivisors(f, w, Pow(f, w, t - 1));
      ZeroPower(f, w, t - 1);
    }
  }

  lemma SmulCancel<F(!new), G(!new)>(f: Field<F>, m: Module<F, G>, c: F, g: G, h: G)
    requires IsModule(f, m) && c != f.zero && m.smul(c, g) == m.smul(c, h)
    ensures g == h
  {
    assert Use1(c);
    MulComm(f, c, f.inv(c));
    SmulMul(f, m, f.inv(c), c, g);
    SmulMul(f, m, f.inv(c), c, h);
    SmulOne(f, m, g);
    SmulOne(f, m, h);
  }

  /** Different columns have different parities. */
  lemma ParityInjective<F(!new), G(!new)>(fs: FftSettings<F>, m: Module<F, G>, a: seq<G>, b: seq<G>)
    requires Valid(fs, m) && |a| == |b| && IsPow2(|a|) && 2 * |a| <= fs.maxWidth
    requires Parity(fs, m, a) == Parity(fs, m, b)
    ensures a == b
  {
    var f, n, w := fs.field, |a|, Root(fs, 2 * |a|);
    var ca, cb := Coefficients(fs, m, a), Coefficients(fs, m, b);
    ParityIsValues(fs, m, a);
    ParityIsValues(fs, m, b);
    CoefficientsOfValues(fs, m, Twisted(f, m, w, ca));
    CoefficientsOfValues(fs, m, Twisted(f, m, w, cb));
    assert (2 * n) / 2 == n;
    RootPrimitive(fs, 2 * n);
    TwistedInjective(f, m, w, 2 * n, ca, cb);
    forall i | 0 <= i < n ensures a[i] == b[i] {
      ValuesOfCoefficients(fs, m, a, i);
      ValuesOfCoefficients(fs, m, b, i);
    }
  }

  lemma SameParity<F(!new), G(!new)>(fs: FftSettings<F>, m: Module<F, G>, a: seq<G>, b: seq<G>)
    requires Valid(fs, m) && |a| == |b| && IsPow2(|a|) && 2 * |a| <= fs.maxWidth
    requires forall i :: 0 <= i < |a| ==> Parity(fs, m, a)[i] == Parity(fs, m, b)[i]
    ensures a == b
  {
    assert Parity(fs, m, a) == Parity(fs, m, b);
    ParityInjective(fs, m, a, b);
  }

  /** The parities of the proofs are the proofs of the parity polynomials. */
  ghost predicate ParityRight<F(!new), G(!new)>(fs: FftSettings<F>, m: Module<F, G>, weights: seq<G>, ps: seq<seq<F>>,
      n: nat, proofs: seq<G>)
    requires Rectangular(ps, n) && n <= |weights| && |proofs| == |ps|
  {
    forall i: nat :: i < |ps| ==> Parity(fs, m, proofs)[i] == Combine(m, weights, ParityPoly(fs, ps, n, i))
  }

  /** Every proof is that of its row's polynomial. */
  ghost predicate ProofsRight<F(!new), G(!new)>(m: Module<F, G>, weights: seq<G>, ps: seq<seq<F>>, n: nat,
      proofs: seq<G>)
    requires Rectangular(ps, n) && n <= |weights| && |proofs| == |ps|
  {
    forall r: nat :: r < |ps| ==> proofs[r] == Combine(m, weights, ps[r])
  }

  lemma RightProofsExtend<F(!new), G(!new)>(fs: FftSettings<F>, m: Module<F, G>, weights: seq<G>, ps: seq<seq<F>>,
      n: nat)
    requires IsModule(fs.field, m) && Rectangular(ps, n) && n <= |weights|
    ensures ProofsRight(m, weights, ps, n, CombineAll(m, weights, ps, n))
    ensures ParityRight(fs, m, weights, ps, n, CombineAll(m, weights, ps, n))
  {
    forall i: nat | i < |ps|
      ensures Parity(fs, m, CombineAll(m, weights, ps, n))[i] == Combine(m, weights, ParityPoly(fs, ps, n, i))
    {
      ParityOfCombinations(fs, m, weights, ps, n, i);
    }
  }

  /**
   The parity proofs of a column are those of the parity polynomials exactly if every proof of the
   column is that of its row's polynomial.
   */
  lemma ParityProofsExactly<F(!new), G(!new)>(fs: FftSettings<F>, m: Module<F, G>, weights: seq<G>, ps: seq<seq<F>>,
      n: nat, proofs: seq<G>)
    requires Valid(fs, m) && Rectangular(ps, n) && n <= |weights|
    requires |proofs| == |ps| && IsPow2(|ps|) && 2 * |ps| <= fs.maxWidth
    ensures ParityRight(fs, m, weights, ps, n, proofs) <==> ProofsRight(m, weights, ps, n, proofs)
  {
    var right := CombineAll(m, weights, ps, n);
    RightProofsExtend(fs, m, weights, ps, n);
    if ProofsRight(m, weights, ps, n, proofs) {
      assert proofs == right;
    }
    if ParityRight(fs, m, weights, ps, n, proofs) {
      forall i | 0 <= i < |ps| ensures Parity(fs, m, proofs)[i] == Parity(fs, m, right)[i] {
        assert Parity(fs, m, right)[i] == Combine(m, weights, ParityPoly(fs, ps, n, i));
      }
      SameParity(fs, m, proofs, right);
    }
  }

  // ----- the proofs of a fetched block -----

  /** The proof for a coset is a linear function of the coefficients, with weights that depend on the coset. */
  ghost predicate LinearProver<F(!new), G(!new)>(kzg: KZG<F, G>, m: Module<F, G>, weights: F -> seq<G>, n: nat,
      size: nat) {
    forall poly: seq<F>, g: F :: |poly| == n ==>
      n <= |weights(g)| && kzg.proveCoset(poly, g, size) == Ok(Combine(m, weights(g), poly))
  }

  /** The weights for chunk x when the given count is passed to `get_kzg_index`. */
  function WeightsAt<F, G>(kzg: KZG<F, G>, weights: F -> seq<G>, count: nat, x: nat, size: nat): seq<G>
    requires IsPow2(count) && Log2(count) < kzg.word && size > 0
  {
    weights(RootAt(kzg.fs, GetKzgIndex(kzg, count, x, size)))
  }

  /** The check accepts no other proof for a segment of the right size than the computed one. */
  ghost predicate StrictProofs<V, C(!new), F(!new), G(!new)>(kzg: KZG<F, G>, m: Module<F, G>, weights: F -> seq<G>,
      ch: Checker<V, C, F, G>, commitments: seq<C>, ps: seq<seq<F>>, n: nat, width: nat, size: nat)
    requires IsPow2(width / 2) && Log2(width / 2) < kzg.word && size > 0 && |commitments| == |ps| && Rectangular(ps, n)
    requires forall g :: n <= |weights(g)|
  {
    forall x: nat, y: nat, d: SegmentData<F, G> ::
      x < width && y < |ps| && |d.data| == size && ch.proves(commitments[y], Position(x, y), d) ==>
        d.proof == Combine(m, WeightsAt(kzg, weights, width / 2, x, size), ps[y])
  }

  /** A block with a sound check of its segments and their proofs, and a linear prover. */
  ghost predicate ProvedBlock<V, C(!new), F(!new), G(!new)>(kzg: KZG<F, G>, m: Module<F, G>, weights: F -> seq<G>,
      ch: Checker<V, C, F, G>, commitments: seq<C>, ps: seq<seq<F>>, n: nat, width: nat, size: nat) {
    && CheckedBlock(kzg, ch, commitments, ps, n, width, size)
    && Valid(kzg.fs, m) && LinearProver(kzg, m, weights, n, size) && (forall g :: n <= |weights(g)|)
    && StrictProofs(kzg, m, weights, ch, commitments, ps, n, width, size)
  }

  /** The slot of an available row that was not verified gets the proof computed with the extended width as count. */
  lemma RecoveredProof<V, C(!new), F(!new), G(!new)>(kzg: KZG<F, G>, ch: Checker<V, C, F, G>, commitments: seq<C>,
      ps: seq<seq<F>>, n: nat, width: nat, size: nat, row: seq<Option<seq<V>>>, y: nat, x: nat)
    requires CheckedBlock(kzg, ch, commitments, ps, n, width, size) && y < |ps| && |row| == width && x < width
    requires RowHandler(kzg, ch, row, y, commitments[y]).1
    requires RightSizes(VerifiedRow(ch, row, y, commitments[y]), size)
    requires VerifiedRow(ch, row, y, commitments[y])[x].None?
    ensures Log2(width) < kzg.word
    ensures var out := RowHandler(kzg, ch, row, y, commitments[y]).0;
      |out| == width && out[x].Some? && Ok(out[x].value.content.proof) == ComputeProofMulti(kzg, ps[y], x, width, size)
  {
    var slots := VerifiedRow(ch, row, y, commitments[y]);
    VerifiedErasure(kzg, ch, commitments, ps, n, width, size, row, y);
    CountAtMost(slots);
    assert RowFits(kzg, width);
    RecoveryOrderRowCorrect(kzg, ps[y], slots, y, size);
    var r := RecoveryOrderRow(kzg, slots);
    assert RecoveredSlot(kzg, ps[y], Contents(slots)[x], width, y, size, x, r.value[x]);
  }

  /** Whether the segment of column x and row r of the block was verified. */
  ghost predicate WasVerified<V, C, F, P>(ch: Checker<V, C, F, P>, values: seq<Option<seq<V>>>, commitments: seq<C>,
      width: nat, x: nat, r: nat)
    requires width > 0 && r < |commitments| && Offset(r, width, width) <= |values| && x < width
  {
    VerifiedRow(ch, RowOf(values, width, r), r, commitments[r])[x].Some?
  }

  /** The proof in the slot of column x and row r of an available block. */
  lemma SlotProof<V, C(!new), F(!new), G(!new)>(kzg: KZG<F, G>, m: Module<F, G>, weights: F -> seq<G>,
      ch: Checker<V, C, F, G>, commitments: seq<C>, ps: seq<seq<F>>, n: nat, width: nat, size: nat,
      values: seq<Option<seq<V>>>, x: nat, r: nat)
    requires ProvedBlock(kzg, m, weights, ch, commitments, ps, n, width, size)
    requires RowsFit(kzg, values, commitments, width) && |values| == Times(|ps|, width) && x < width && r < |ps|
    requires Assembled(kzg, ch, values, commitments, width).1 && BlockSizes(ch, values, commitments, width, size)
    ensures Offset(r, width, width) <= |values| && Log2(width) < kzg.word
    ensures var all := Assembled(kzg, ch, values, commitments, width).0;
      && Offset(r, width, x) < |all| && all[Offset(r, width, x)].Some?
      && var count := if WasVerified(ch, values, commitments, width, x, r) then width / 2 else width;
         all[Offset(r, width, x)].value.content.proof == Combine(m, WeightsAt(kzg, weights, count, x, size), ps[r])
  {
    BelowTimes(r, |ps|, x, width);
    ChunkInRange(r, |ps|, width);
    assert RowFits(kzg, width);
    AssembledSlot(kzg, ch, values, commitments, width, r, x);
    var row := RowOf(values, width, r);
    if WasVerified(ch, values, commitments, width, x, r) {
      VerifiedIsKept(kzg, ch, row, r, commitments[r], x);
      VerifiedSlots(ch, row, r, commitments[r], x);
    } else {
      RecoveredProof(kzg, ch, commitments, ps, n, width, size, row, r, x);
    }
  }

  /** The proof that a recovered segment of row r gets is the one of its chunk. */
  ghost predicate SameProof<F(!new), G>(kzg: KZG<F, G>, m: Module<F, G>, weights: F -> seq<G>, p: seq<F>, width: nat,
      size: nat, x: nat)
    requires IsPow2(width) && Log2(width) < kzg.word && IsPow2(width / 2) && Log2(width / 2) < kzg.word && size > 0
    requires forall g :: |p| <= |weights(g)|
  {
    Combine(m, WeightsAt(kzg, weights, width, x, size), p) == Combine(m, WeightsAt(kzg, weights, width / 2, x, size), p)
  }

  /**
   The parity proofs that `extend_segments_col` makes of column x of an available block are those of
   the parity polynomials exactly if every recovered segment of the column got the proof of its
   chunk, in spite of the count that the recovery passes.
   */
  lemma FetchedBlockProofs<V, C(!new), F(!new), G(!new)>(kzg: KZG<F, G>, m: Module<F, G>, weights: F -> seq<G>,
      ch: Checker<V, C, F, G>, commitments: seq<C>, ps: seq<seq<F>>, n: nat, width: nat, size: nat,
      values: seq<Option<seq<V>>>, x: nat)
    requires ProvedBlock(kzg, m, weights, ch, commitments, ps, n, width, size)
    requires IsPow2(|ps|) && 2 * |ps| <= kzg.fs.maxWidth
    requires RowsFit(kzg, values, commitments, width) && |values| == Times(|ps|, width) && x < width
    requires Assembled(kzg, ch, values, commitments, width).1 && BlockSizes(ch, values, commitments, width, size)
    ensures Log2(width) < kzg.word && forall r: nat :: r < |ps| ==> Offset(r, width, width) <= |values|
    ensures var col := FullCol(Assembled(kzg, ch, values, commitments, width).0, x, width);
      && col.Ok? && |col.value| == |ps|
      && (ParityRight(kzg.fs, m, WeightsAt(kzg, weights, width / 2, x, size), ps, n, Proofs(col.value))
          <==> forall r: nat :: r < |ps| && !WasVerified(ch, values, commitments, width, x, r) ==>
                 SameProof(kzg, m, weights, ps[r], width, size, x))
  {
    var all := Assembled(kzg, ch, values, commitments, width).0;
    assert RowFits(kzg, width);
    forall r: nat | r < |ps| ensures Offset(r, width, width) <= |values| {
      ChunkInRange(r, |ps|, width);
    }
    AvailableRowsAreFull(kzg, ch, values, commitments, width);
    ColumnOfGrid(all, width, |ps|, x);
    var proofs, right := Proofs(FullCol(all, x, width).value), WeightsAt(kzg, weights, width / 2, x, size);
    ParityProofsExactly(kzg.fs, m, right, ps, n, proofs);
    forall r: nat | r < |ps|
      ensures proofs[r] == Combine(m, right, ps[r]) <==>
        (WasVerified(ch, values, commitments, width, x, r) || SameProof(kzg, m, weights, ps[r], width, size, x))
    {
      SlotProof(kzg, m, weights, ch, commitments, ps, n, width, size, values, x, r);
    }
  }

  /** The count makes no difference in column 0, nor if the extended rows fill at most half of the domain. */
  lemma RecoveredProofIsRight<F(!new), G>(kzg: KZG<F, G>, m: Module<F, G>, weights: F -> seq<G>, p: seq<F>, width: nat,
      size: nat, x: nat)
    requires ValidSettings(kzg.fs) && IsPow2(width) && width > 1 && Log2(width) < kzg.word && IsPow2(size) && x < width
    requires Times(width, size) == 2 * |p| <= kzg.fs.maxWidth && forall g :: |p| <= |weights(g)|
    ensures IsPow2(width / 2) && Log2(width / 2) < kzg.word
    ensures x == 0 || 4 * |p| <= kzg.fs.maxWidth ==> SameProof(kzg, m, weights, p, width, size, x)
  {
    HalfWidth(width, size, |p|);
    ExtendedWidthIndex(kzg, |p|, width / 2, size, x);
  }
}
