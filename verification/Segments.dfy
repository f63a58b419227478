/** `melo-erasure-coding/src/segment.rs`: segments of rows and columns, and how they are put in order. */
module Segments {
  import opened Wrappers
  import opened Bits
  import opened Dft
  import opened ErasureCoding
  import opened Kzg

  datatype Position = Position(x: nat, y: nat)

  datatype SegmentData<F, P> = SegmentData(data: seq<F>, proof: P)

  datatype Segment<F, P> = Segment(position: Position, content: SegmentData<F, P>) {
    function Size(): nat {
      |content.data|
    }
  }

  /** The content of the last segment with the given x, if there is one. */
  function LastAt<F, P>(segments: seq<Segment<F, P>>, x: nat): Option<SegmentData<F, P>> {
    if |segments| == 0 then None
    else if segments[|segments| - 1].position.x == x then Some(segments[|segments| - 1].content)
    else LastAt(segments[..|segments| - 1], x)
  }

  /** Segment i is in the column, and no later one is. */
  ghost predicate IsLast<F, P>(segments: seq<Segment<F, P>>, x: nat, i: nat) {
    && i < |segments| && segments[i].position.x == x
    && forall j :: i < j < |segments| ==> segments[j].position.x != x
  }

  lemma {:induction false} LastAtExactly<F, P>(segments: seq<Segment<F, P>>, x: nat)
    ensures LastAt(segments, x).None? <==> forall i :: 0 <= i < |segments| ==> segments[i].position.x != x
    ensures forall i: nat :: IsLast(segments, x, i) ==> LastAt(segments, x) == Some(segments[i].content)
  {
    if |segments| > 0 {
      var n := |segments| - 1;
      LastAtExactly(segments[..n], x);
      if segments[n].position.x != x {
        forall i: nat | IsLast(segments, x, i) ensures IsLast(segments[..n], x, i) {
        }
      }
    }
  }

  ghost predicate SameRow<F, P>(segments: seq<Segment<F, P>>) {
    forall i, j :: 0 <= i < |segments| && 0 <= j < |segments| ==> segments[i].position.y == segments[j].position.y
  }

  /**
   `order_segments_row`: one slot per column of the extended row, holding the last segment given
   for that column. The code indexes the slots by x and panics on an x beyond them.
   */
  method OrderSegmentsRow<F, P>(segments: seq<Segment<F, P>>,
      chunkCount: nat) returns (r: Result<seq<Option<SegmentData<F, P>>>>)
    requires forall s :: s in segments ==> s.position.x < 2 * chunkCount
    ensures r.Ok? <==> 0 < |segments| <= 2 * chunkCount && SameRow(segments)
    ensures r.Ok? ==> |r.value| == 2 * chunkCount
                      && forall x :: 0 <= x < 2 * chunkCount ==> r.value[x] == LastAt(segments, x)
  {
    if |segments| > chunkCount * 2 || |segments| == 0 {
      return Err("segments x not equal");
    }
    var y := segments[0].position.y;
    var ordered := new Option<SegmentData<F, P>>[2 * chunkCount](_ => None);
    for i := 0 to |segments|
      invariant forall j :: 0 <= j < i ==> segments[j].position.y == y
      invariant forall x :: 0 <= x < 2 * chunkCount ==> ordered[x] == LastAt(segments[..i], x)
    {
      if segments[i].position.y != y {
        return Err("segments y not equal");
      }
      assert segments[i] in segments;
      assert segments[..i + 1][..i] == segments[..i];
      ordered[segments[i].position.x] := Some(segments[i].content);
    }
    assert segments[..|segments|] == segments;
    r := Ok(ordered[..]);
  }

  /** `segment_datas_to_row`: the scalars of the segments in order, with gaps for the missing ones. */
  function SegmentDatasToRow<F, P>(datas: seq<Option<SegmentData<F, P>>>, size: nat): seq<Option<F>> {
    if |datas| == 0 then [] else
    (match datas[0]
     case Some(d) => seq(|d.data|, i requires 0 <= i < |d.data| => Some(d.data[i]))
     case None => seq(size, _ => None))
    + SegmentDatasToRow(datas[1..], size)
  }

  /** Every segment present has the given size. */
  ghost predicate Regular<F, P>(datas: seq<Option<SegmentData<F, P>>>, size: nat) {
    forall i :: 0 <= i < |datas| && datas[i].Some? ==> |datas[i].value.data| == size
  }

  lemma {:induction false} RowLength<F, P>(datas: seq<Option<SegmentData<F, P>>>, size: nat)
    requires Regular(datas, size)
    ensures |SegmentDatasToRow(datas, size)| == Times(|datas|, size)
  {
    if |datas| > 0 {
      RowLength(datas[1..], size);
      assert Times(|datas|, size) == size + Times(|datas[1..]|, size);
    }
  }

  /** Slot i of the segments covers chunk i of the row. */
  lemma {:induction false} RowSlot<F, P>(datas: seq<Option<SegmentData<F, P>>>, size: nat, i: nat, o: nat)
    requires Regular(datas, size) && i < |datas| && o < size
    ensures Offset(i, size, o) < |SegmentDatasToRow(datas, size)|
    ensures SegmentDatasToRow(datas, size)[Offset(i, size, o)]
         == if datas[i].Some? then Some(datas[i].value.data[o]) else None
  {
    RowLength(datas, size);
    BelowTimes(i, |datas|, o, size);
    if i > 0 {
      RowSlot(datas[1..], size, i - 1, o);
      assert Offset(i, size, o) == size + Offset(i - 1, size, o);
    }
  }

  function CountSome<T>(s: seq<Option<T>>): nat {
    if |s| == 0 then 0 else (if s[0].Some? then 1 else 0) + CountSome(s[1..])
  }

  lemma {:induction false} CountIsKnown<T>(s: seq<Option<T>>)
    ensures CountSome(s) == |Known(s)|
  {
    if |s| > 0 {
      var rest := s[1..];
      CountIsKnown(rest);
      var first: set<nat> := if s[0].Some? then {0} else {};
      var shifted := set i | i in Known(rest) :: i + 1;
      assert forall i: nat :: i in shifted <==> i > 0 && i - 1 in Known(rest);
      ShiftSize(Known(rest), shifted);
      forall i: nat ensures i in Known(s) <==> i in first + shifted {
        if i > 0 {
          assert i - 1 in Known(rest) <==> i in Known(s);
        }
      }
      assert Known(s) == first + shifted;
    }
  }

  lemma {:induction false} ShiftSize(s: set<nat>, t: set<nat>)
    requires forall i: nat :: i in t <==> i > 0 && i - 1 in s
    ensures |t| == |s|
    decreases s
  {
    if s == {} {
      assert t == {};
    } else {
      var x :| x in s;
      assert x + 1 in t;
      ShiftSize(s - {x}, t - {x + 1});
    }
  }

  lemma {:induction false} CountConcat<T>(a: seq<Option<T>>, b: seq<Option<T>>)
    ensures CountSome(a + b) == CountSome(a) + CountSome(b)
  {
    if |a| == 0 {
      assert a + b == b;
    } else {
      CountConcat(a[1..], b);
      assert (a + b)[1..] == a[1..] + b;
    }
  }

  lemma {:induction false} CountUniform<T>(s: seq<Option<T>>, some: bool)
    requires forall i :: 0 <= i < |s| ==> s[i].Some? == some
    ensures CountSome(s) == if some then |s| else 0
  {
    if |s| > 0 {
      CountUniform(s[1..], some);
    }
  }

  /** Each segment present contributes `size` known scalars to the row. */
  lemma {:induction false} RowCount<F, P>(datas: seq<Option<SegmentData<F, P>>>, size: nat)
    requires Regular(datas, size)
    ensures CountSome(SegmentDatasToRow(datas, size)) == Times(CountSome(datas), size)
  {
    if |datas| > 0 {
      RowCount(datas[1..], size);
      var row := SegmentDatasToRow(datas, size);
      var rest := SegmentDatasToRow(datas[1..], size);
      var head := row[..size];
      assert row == head + rest;
      CountConcat(head, rest);
      CountUniform(head, datas[0].Some?);
    }
  }

  // ----- from a polynomial to segments -----

  /**
   What the library promises of the proofs for all segments of a row (`data_availability`): the row is
   cut into at least two, and the proofs are those for their cosets in bit-reversed order.
   */
  ghost predicate ProvesAll<F(!new), P>(kzg: KZG<F, P>, prove: (seq<F>, nat) -> Result<seq<P>>) {
    forall poly, size :: prove(poly, size).Ok? ==> RowProofs(kzg, poly, size, prove(poly, size).value)
  }

  ghost predicate RowProofs<F, P>(kzg: KZG<F, P>, poly: seq<F>, size: nat, proofs: seq<P>) {
    && 0 < size <= |poly| && Times(|proofs|, size) == 2 * |poly| && IsPow2(|proofs|)
    && forall i: nat :: i < |proofs| ==>
         Ok(proofs[i]) == kzg.proveCoset(poly, CosetPoint(kzg.fs, |poly|, |proofs|, i), size)
  }

  /** `poly_to_segment_vec`: the row of the polynomial, cut into segments of the given size, with their proofs. */
  function PolyToSegmentVec<F(!new), P>(kzg: KZG<F, P>, prove: (seq<F>, nat) -> Result<seq<P>>, poly: seq<F>,
      y: nat, size: nat)
    : Result<seq<Segment<F, P>>>
    requires ProvesAll(kzg, prove)
  {
    if !IsPow2(|poly|) then Err("Polynomial size must be a power of two")
    else if !IsPow2(size) then Err("chunk_size must be a power of two")
    else
      var proofs :- prove(poly, size);
      var row :- ExtendPolySpec(kzg.fs, poly);
      assert RowProofs(kzg, poly, size, proofs);
      Ok(seq(|proofs|, (i: nat) requires i < |proofs| =>
        ChunkInRange(i, |proofs|, size);
        Segment(Position(i, y), SegmentData(Chunk(row, i, size), proofs[i]))))
  }

  /** The segment of column x and row y of a polynomial: its chunk of the row. */
  ghost predicate IsSegmentOf<F, P>(fs: FftSettings<F>, poly: seq<F>, y: nat, size: nat, x: nat, s: Segment<F, P>) {
    && s.position == Position(x, y)
    && IsPow2(|poly|) && Offset(x, size, size) <= 2 * |poly| && s.content.data == Chunk(ExtendedRow(fs, poly), x, size)
  }

  /** Its proof is the one for the root at the `get_kzg_index` of its position. */
  ghost predicate ProofOf<F, P>(kzg: KZG<F, P>, poly: seq<F>, size: nat, count: nat, s: Segment<F, P>) {
    && IsPow2(count) && Log2(count) < kzg.word && size > 0
    && ComputeProofMulti(kzg, poly, s.position.x, count, size) == Ok(s.content.proof)
  }

  /** The segments are the chunks of the row, in order, at their positions; together they cover it. */
  lemma PolyToSegmentVecCorrect<F(!new), P>(kzg: KZG<F, P>, prove: (seq<F>, nat) -> Result<seq<P>>, poly: seq<F>,
      y: nat, size: nat)
    requires ProvesAll(kzg, prove)
    requires PolyToSegmentVec(kzg, prove, poly, y, size).Ok?
    ensures IsPow2(|poly|) && IsPow2(size) && 2 * |poly| <= kzg.fs.maxWidth
    ensures var segments := PolyToSegmentVec(kzg, prove, poly, y, size).value;
      && Times(|segments|, size) == 2 * |poly|
      && forall x: nat :: x < |segments| ==> IsSegmentOf(kzg.fs, poly, y, size, x, segments[x])
  {
    var segments := PolyToSegmentVec(kzg, prove, poly, y, size).value;
    assert RowProofs(kzg, poly, size, prove(poly, size).value);
    forall i | 0 <= i < |segments| ensures Offset(i, size, size) <= 2 * |poly| {
      ChunkInRange(i, |segments|, size);
    }
  }

  lemma HalfOfChunks(chunks: nat, n: nat, size: nat)
    requires IsPow2(chunks) && 0 < size <= n && Times(chunks, size) == 2 * n
    ensures chunks > 1 && IsPow2(chunks / 2) && chunks == 2 * (chunks / 2) && n == (chunks / 2) * size
  {
    assert chunks == 1 ==> Times(chunks, size) == size;
    TimesTwice(chunks / 2, size);
    TimesIsProduct(chunks / 2, size);
  }

  lemma {:induction false} AtMostTimes(a: nat, b: nat)
    requires b > 0
    ensures a <= Times(a, b)
  {
    if a > 0 {
      AtMostTimes(a - 1, b);
    }
  }

  lemma BelowWord(count: nat, maxWidth: nat, word: nat)
    requires IsPow2(count) && count <= maxWidth < Pow2(word)
    ensures Log2(count) < word
  {
    if word <= Log2(count) {
      Pow2Monotone(word, Log2(count));
    }
  }

  /**
   Each segment carries the proof for the coset at the `get_kzg_index` of its own position, with half of
   the number of segments as count; so the check of the segment is about the segment's own data.
   */
  lemma PolyToSegmentVecProofs<F(!new), P>(kzg: KZG<F, P>, prove: (seq<F>, nat) -> Result<seq<P>>, poly: seq<F>,
      y: nat, size: nat, x: nat)
    requires ProvesAll(kzg, prove) && ValidSettings(kzg.fs) && FitsWord(kzg)
    requires PolyToSegmentVec(kzg, prove, poly, y, size).Ok?
    requires x < |PolyToSegmentVec(kzg, prove, poly, y, size).value|
    ensures var segments := PolyToSegmentVec(kzg, prove, poly, y, size).value;
      ProofOf(kzg, poly, size, |segments| / 2, segments[x])
  {
    PolyToSegmentVecCorrect(kzg, prove, poly, y, size);
    var segments, proofs := PolyToSegmentVec(kzg, prove, poly, y, size).value, prove(poly, size).value;
    assert RowProofs(kzg, poly, size, proofs);
    var count := |segments| / 2;
    HalfOfChunks(|segments|, |poly|, size);
    AtMostTimes(|segments|, size);
    BelowWord(count, kzg.fs.maxWidth, kzg.word);
    IndexOfCoset(kzg, |poly|, count, size, x);
    assert Ok(proofs[x]) == kzg.proveCoset(poly, CosetPoint(kzg.fs, |poly|, |proofs|, x), size);
  }
}
