/** `melo-erasure-coding/src/extend_col.rs`: the parity segments of a column. */
module ExtendCol {
  import opened Wrappers
  import opened Algebra
  import opened Bits
  import opened Dft
  import opened ErasureCoding
  import opened Kzg
  import opened Segments
  import opened Linearity

  // ----- sorting by row -----

  function Rows<F, G>(segments: seq<Segment<F, G>>): (r: seq<nat>)
    ensures |r| == |segments|
  {
    seq(|segments|, i requires 0 <= i < |segments| => segments[i].position.y)
  }

  function Range(k: nat): (r: seq<nat>)
    ensures |r| == k
  {
    seq(k, (i: nat) => i)
  }

  ghost predicate Sorted(s: seq<nat>) {
    forall i, j :: 0 <= i < j < |s| ==> s[i] <= s[j]
  }

  /** `sort_unstable_by_key` on the row: some rearrangement with the rows in order. */
  method SortByRow<F, G>(segments: seq<Segment<F, G>>) returns (r: seq<Segment<F, G>>)
    ensures multiset(r) == multiset(segments)
    ensures Sorted(Rows(r))
  {
    r := [];
    for i := 0 to |segments|
      invariant multiset(r) == multiset(segments[..i])
      invariant Sorted(Rows(r))
    {
      var s := segments[i];
      var j := |r|;
      while j > 0 && r[j - 1].position.y > s.position.y
        invariant 0 <= j <= |r|
        invariant forall l :: j <= l < |r| ==> r[l].position.y > s.position.y
      {
        j := j - 1;
      }
      ghost var was := r;
      r := r[..j] + [s] + r[j..];
      Inserted(was, s, j, r);
      assert segments[..i + 1] == segments[..i] + [s];
    }
    assert segments[..|segments|] == segments;
  }

  lemma Inserted<F, G>(was: seq<Segment<F, G>>, s: Segment<F, G>, j: nat, r: seq<Segment<F, G>>)
    requires j <= |was| && r == was[..j] + [s] + was[j..]
    requires Sorted(Rows(was))
    requires j > 0 ==> was[j - 1].position.y <= s.position.y
    requires forall l :: j <= l < |was| ==> was[l].position.y > s.position.y
    ensures multiset(r) == multiset(was) + multiset{s}
    ensures Sorted(Rows(r))
  {
    assert was == was[..j] + was[j..];
    RowsInserted(was, s, j);
    StaysSorted(Rows(was), s.position.y, j);
  }

  lemma RowsInserted<F, G>(was: seq<Segment<F, G>>, s: Segment<F, G>, j: nat)
    requires j <= |was|
    ensures Rows(was[..j] + [s] + was[j..]) == Rows(was)[..j] + [s.position.y] + Rows(was)[j..]
  {
  }

  lemma StaysSorted(was: seq<nat>, y: nat, j: nat)
    requires j <= |was| && Sorted(was)
    requires j > 0 ==> was[j - 1] <= y
    requires forall l :: j <= l < |was| ==> was[l] > y
    ensures Sorted(was[..j] + [y] + was[j..])
  {
    var r := was[..j] + [y] + was[j..];
    forall a, b | 0 <= a < b < |r| ensures r[a] <= r[b] {
      assert a < j ==> was[a] <= was[j - 1];
    }
  }

  lemma RemoveAt<T>(s: seq<T>, i: nat)
    requires i < |s|
    ensures multiset(s[..i] + s[i + 1..]) == multiset(s) - multiset{s[i]}
  {
    assert s == s[..i] + [s[i]] + s[i + 1..];
  }

  lemma SameSize<T>(a: seq<T>, b: seq<T>)
    requires multiset(a) == multiset(b)
    ensures |a| == |b|
    ensures forall x :: x in a <==> x in b
  {
    assert |a| == |multiset(a)| == |multiset(b)| == |b|;
    forall x ensures x in a <==> x in b {
      assert x in a <==> x in multiset(a);
      assert x in b <==> x in multiset(b);
    }
  }

  lemma SameLargest(a: seq<nat>, b: seq<nat>)
    requires Sorted(a) && Sorted(b) && multiset(a) == multiset(b) && |a| > 0
    ensures |b| == |a| && a[|a| - 1] == b[|a| - 1]
  {
    SameSize(a, b);
    var n := |a| - 1;
    assert a[n] in b && b[n] in a;
  }

  lemma WithoutLast(s: seq<nat>)
    requires |s| > 0 && Sorted(s)
    ensures multiset(s[..|s| - 1]) == multiset(s) - multiset{s[|s| - 1]}
    ensures Sorted(s[..|s| - 1])
  {
    RemoveAt(s, |s| - 1);
    assert s[..|s| - 1] + s[|s|..] == s[..|s| - 1];
  }

  lemma SameWithoutLast(a: seq<nat>, b: seq<nat>)
    requires Sorted(a) && Sorted(b) && multiset(a) == multiset(b) && |a| > 0
    ensures |b| == |a| && a[|a| - 1] == b[|a| - 1]
    ensures var n := |a| - 1;
      Sorted(a[..n]) && Sorted(b[..n]) && multiset(a[..n]) == multiset(b[..n])
  {
    SameLargest(a, b);
    WithoutLast(a);
    WithoutLast(b);
  }

  lemma {:induction false} SortedUnique(a: seq<nat>, b: seq<nat>)
    requires Sorted(a) && Sorted(b) && multiset(a) == multiset(b)
    ensures a == b
    decreases |a|
  {
    if |a| == 0 {
      SameSize(a, b);
    } else {
      var n := |a| - 1;
      SameWithoutLast(a, b);
      SortedUnique(a[..n], b[..n]);
      assert a == a[..n] + [a[n]];
      assert b == b[..n] + [b[n]];
    }
  }

  lemma RowsRemoved<F, G>(s: seq<Segment<F, G>>, i: nat)
    requires i < |s|
    ensures multiset(Rows(s)) == multiset(Rows(s[..i] + s[i + 1..])) + multiset{s[i].position.y}
  {
    assert Rows(s[..i] + s[i + 1..]) == Rows(s)[..i] + Rows(s)[i + 1..];
    RemoveAt(Rows(s), i);
    assert Rows(s)[i] in multiset(Rows(s));
  }

  lemma RestMultiset<T>(a: seq<T>, b: seq<T>, i: nat)
    requires multiset(a) == multiset(b) && |a| > 0 && i < |b| && b[i] == a[0]
    ensures multiset(a[1..]) == multiset(b[..i] + b[i + 1..])
  {
    assert a[..0] + a[1..] == a[1..];
    RemoveAt(a, 0);
    RemoveAt(b, i);
  }

  lemma {:induction false} RowsMultiset<F, G>(a: seq<Segment<F, G>>, b: seq<Segment<F, G>>)
    requires multiset(a) == multiset(b)
    ensures multiset(Rows(a)) == multiset(Rows(b))
  {
    SameSize(a, b);
    if |a| > 0 {
      assert a[0] in multiset(b);
      var i :| 0 <= i < |b| && b[i] == a[0];
      RestMultiset(a, b, i);
      assert a[..0] + a[1..] == a[1..];
      RowsRemoved(a, 0);
      RowsRemoved(b, i);
      RowsMultiset(a[1..], b[..i] + b[i + 1..]);
    }
  }

  // ----- columns -----

  /** One segment for each of the rows 0..k, all from one column, all of one size. */
  ghost predicate IsColumn<F, G>(segments: seq<Segment<F, G>>) {
    && |segments| > 0
    && IsPow2(|segments|) && IsPow2(segments[0].Size())
    && (forall s :: s in segments ==> s.position.x == segments[0].position.x && s.Size() == segments[0].Size())
    && multiset(Rows(segments)) == multiset(Range(|segments|))
  }

  /** The same segments in the order of their rows. */
  ghost predicate InRowOrder<F, G>(segments: seq<Segment<F, G>>, rows: seq<Segment<F, G>>) {
    multiset(rows) == multiset(segments) && Rows(rows) == Range(|rows|)
  }

  function ColumnScalars<F, G>(rows: seq<Segment<F, G>>, j: nat): (c: seq<F>)
    requires forall r :: 0 <= r < |rows| ==> j < |rows[r].content.data|
    ensures |c| == |rows|
  {
    seq(|rows|, r requires 0 <= r < |rows| => rows[r].content.data[j])
  }

  function Proofs<F, G>(rows: seq<Segment<F, G>>): (c: seq<G>)
    ensures |c| == |rows|
  {
    seq(|rows|, r requires 0 <= r < |rows| => rows[r].content.proof)
  }

  /** The parity segments of a column given in row order. */
  function ParitySegments<F, G>(fs: FftSettings<F>, m: Module<F, G>, rows: seq<Segment<F, G>>): (r: seq<Segment<F, G>>)
    requires |rows| > 0 && forall r :: 0 <= r < |rows| ==> |rows[r].content.data| == rows[0].Size()
    ensures |r| == |rows|
  {
    var k, size := |rows|, rows[0].Size();
    seq(k, (i: nat) requires i < k =>
      Segment(
        Position(rows[0].position.x, k + i),
        SegmentData(
          seq(size, (j: nat) requires j < size => Parity(fs, Scalars(fs.field), ColumnScalars(rows, j))[i]),
          Parity(fs, m, Proofs(rows))[i])))
  }

  /** A rearrangement in row order is unique. */
  lemma RowOrderUnique<F, G>(segments: seq<Segment<F, G>>, a: seq<Segment<F, G>>, b: seq<Segment<F, G>>)
    requires InRowOrder(segments, a) && InRowOrder(segments, b)
    ensures a == b
  {
    SameSize(a, b);
    forall i | 0 <= i < |a| ensures a[i] == b[i] {
      assert a[i] in b;
      var j :| 0 <= j < |b| && b[j] == a[i];
      assert Rows(a)[i] == i && Rows(b)[j] == j;
    }
  }

  /** Sorting puts a column in row order; a list that sorting puts in row order has the rows 0..k. */
  lemma SortedColumn<F, G>(segments: seq<Segment<F, G>>, sorted: seq<Segment<F, G>>)
    requires multiset(sorted) == multiset(segments) && Sorted(Rows(sorted))
    ensures InRowOrder(segments, sorted) <==> multiset(Rows(segments)) == multiset(Range(|segments|))
  {
    RowsMultiset(sorted, segments);
    SameSize(sorted, segments);
    if multiset(Rows(segments)) == multiset(Range(|segments|)) {
      assert Sorted(Range(|segments|));
      SortedUnique(Rows(sorted), Range(|segments|));
    }
  }

  // ----- the steps of the extension -----

  /** `skip(start).step_by(step)` */
  function StepBy<T>(s: seq<T>, start: nat, step: nat): seq<T>
    requires step > 0
    decreases |s| - start
  {
    if start >= |s| then [] else [s[start]] + StepBy(s, start + step, step)
  }

  function Flatten<F, G>(rows: seq<Segment<F, G>>): seq<F> {
    if |rows| == 0 then [] else Flatten(rows[..|rows| - 1]) + rows[|rows| - 1].content.data
  }

  ghost predicate SizedRows<F, G>(rows: seq<Segment<F, G>>, size: nat) {
    forall r :: 0 <= r < |rows| ==> |rows[r].content.data| == size
  }

  lemma {:induction false} FlattenLength<F, G>(rows: seq<Segment<F, G>>, size: nat)
    requires SizedRows(rows, size)
    ensures |Flatten(rows)| == Times(|rows|, size)
  {
    if |rows| > 0 {
      FlattenLength(rows[..|rows| - 1], size);
      assert Times(|rows|, size) == size + Times(|rows| - 1, size);
    }
  }

  lemma {:induction false} FlattenAt<F, G>(rows: seq<Segment<F, G>>, size: nat, r: nat, j: nat)
    requires SizedRows(rows, size) && r < |rows| && j < size
    ensures Offset(r, size, j) < |Flatten(rows)| && Flatten(rows)[Offset(r, size, j)] == rows[r].content.data[j]
  {
    var n := |rows| - 1;
    FlattenLength(rows, size);
    FlattenLength(rows[..n], size);
    BelowTimes(r, |rows|, j, size);
    if r < n {
      FlattenAt(rows[..n], size, r, j);
    }
  }

  /** Every `size`-th scalar of the flattened rows, from j, is scalar j of each row. */
  /** Stepping through a sequence collects the elements at the offset j of its chunks. */
  lemma {:induction false} StepByCollects<T>(s: seq<T>, column: seq<T>, size: nat, r: nat, j: nat)
    requires size > 0 && r <= |column| && |s| <= Offset(|column|, size, j)
    requires forall k: nat :: k < |column| ==> Offset(k, size, j) < |s| && s[Offset(k, size, j)] == column[k]
    ensures StepBy(s, Offset(r, size, j), size) == column[r..]
    decreases |column| - r
  {
    if r < |column| {
      StepByCollects(s, column, size, r + 1, j);
      assert Offset(r, size, j) + size == Offset(r + 1, size, j);
    }
  }

  lemma StepIsColumn<F, G>(rows: seq<Segment<F, G>>, size: nat, j: nat)
    requires SizedRows(rows, size) && j < size
    ensures StepBy(Flatten(rows), j, size) == ColumnScalars(rows, j)
  {
    var column := ColumnScalars(rows, j);
    FlattenLength(rows, size);
    forall k: nat | k < |column|
      ensures Offset(k, size, j) < |Flatten(rows)| && Flatten(rows)[Offset(k, size, j)] == column[k]
    {
      FlattenAt(rows, size, k, j);
    }
    StepByCollects(Flatten(rows), column, size, 0, j);
    assert column[0..] == column;
  }

  /** The filter of the code on the i-th segment after sorting. */
  predicate Kept<F, G>(s: Segment<F, G>, i: nat, x: nat, size: nat) {
    s.position.x == x && s.position.y == i && s.Size() == size
  }

  /** Collect the proofs and the scalars of the segments that pass the filter. */
  method Gather<F, G>(sorted: seq<Segment<F, G>>, x: nat, size: nat) returns (proofs: seq<G>, scalars: seq<F>)
    requires size > 0
    ensures |scalars| == Times(|sorted|, size) <==> forall i :: 0 <= i < |sorted| ==> Kept(sorted[i], i, x, size)
    ensures |scalars| == Times(|sorted|, size) ==> proofs == Proofs(sorted) && scalars == Flatten(sorted)
  {
    proofs, scalars := [], [];
    for i := 0 to |sorted|
      invariant |proofs| <= i && |scalars| == Times(|proofs|, size)
      invariant |proofs| == i <==> forall l :: 0 <= l < i ==> Kept(sorted[l], l, x, size)
      invariant |proofs| == i ==> proofs == Proofs(sorted[..i]) && scalars == Flatten(sorted[..i])
    {
      assert sorted[..i + 1][..i] == sorted[..i];
      if Kept(sorted[i], i, x, size) {
        assert Times(|proofs| + 1, size) == size + Times(|proofs|, size);
        scalars := scalars + sorted[i].content.data;
        proofs := proofs + [sorted[i].content.proof];
      }
    }
    assert sorted[..|sorted|] == sorted;
    SameProduct(|proofs|, |sorted|, size);
  }

  lemma SameProduct(a: nat, b: nat, c: nat)
    requires c > 0
    ensures Times(a, c) == Times(b, c) <==> a == b
  {
    if a < b {
      TimesMonotone(a, b, c);
    } else if b < a {
      TimesMonotone(b, a, c);
    }
  }

  /** Extend every column of scalars. */
  method ExtendColumns<F, G>(fs: FftSettings<F>, rows: seq<Segment<F, G>>, scalars: seq<F>,
      size: nat) returns (r: Result<seq<seq<F>>>)
    requires size > 0 && IsPow2(|rows|)
    requires SizedRows(rows, size) && scalars == Flatten(rows)
    ensures r.Ok? <==> 2 * |rows| <= fs.maxWidth
    ensures r.Ok? ==> |r.value| == size
    ensures r.Ok? ==> forall j :: 0 <= j < size ==> r.value[j] == Parity(fs, Scalars(fs.field), ColumnScalars(rows, j))
  {
    var cols: seq<seq<F>> := [];
    for j := 0 to size
      invariant |cols| == j && (j > 0 ==> 2 * |rows| <= fs.maxWidth)
      invariant forall l :: 0 <= l < j ==> cols[l] == Parity(fs, Scalars(fs.field), ColumnScalars(rows, l))
    {
      var col := StepBy(scalars, j, size);
      StepIsColumn(rows, size, j);
      assert Offset(0, size, j) == j;
      assert col == ColumnScalars(rows, j);
      var extended := Extend(fs, col);
      if extended.Err? {
        return Err(extended.error);
      }
      cols := cols + [extended.value];
    }
    r := Ok(cols);
  }

  /** One segment for every odd entry of the extended proofs. */
  method CollectParity<F, G>(fs: FftSettings<F>, m: Module<F, G>, rows: seq<Segment<F, G>>, cols: seq<seq<F>>,
      odd: seq<G>)
    returns (out: seq<Segment<F, G>>)
    requires |rows| > 0 && SizedRows(rows, rows[0].Size()) && |cols| == rows[0].Size()
    requires odd == Parity(fs, m, Proofs(rows))
    requires forall j :: 0 <= j < |cols| ==> cols[j] == Parity(fs, Scalars(fs.field), ColumnScalars(rows, j))
    ensures out == ParitySegments(fs, m, rows)
  {
    out := [];
    for i := 0 to |rows|
      invariant |out| == i
      invariant forall l :: 0 <= l < i ==> out[l] == ParitySegments(fs, m, rows)[l]
    {
      var data := seq(|cols|, (j: nat) requires j < |cols| => cols[j][i]);
      out := out + [Segment(Position(rows[0].position.x, |rows| + i), SegmentData(data, odd[i]))];
    }
  }

  /** Extend the proofs and the scalars of a column in row order. */
  method ExtendSorted<F(!new), G(!new)>(fs: FftSettings<F>, m: Module<F, G>, rows: seq<Segment<F, G>>, proofs: seq<G>,
      scalars: seq<F>, size: nat)
    returns (r: Result<seq<Segment<F, G>>>)
    requires Valid(fs, m) && IsPow2(|rows|) && size == rows[0].Size() > 0 && SizedRows(rows, size)
    requires proofs == Proofs(rows) && scalars == Flatten(rows)
    ensures r.Ok? <==> 2 * |rows| <= fs.maxWidth
    ensures r.Ok? ==> r.value == ParitySegments(fs, m, rows)
  {
    var extendedProofs := ExtendFsG1(fs, m, proofs);
    ExtendFsG1Interleaves(fs, m, proofs);
    if extendedProofs.Err? {
      return Err(extendedProofs.error);
    }
    var extendedCols := ExtendColumns(fs, rows, scalars, size);
    var out := CollectParity(fs, m, rows, extendedCols.value, Odds(extendedProofs.value));
    r := Ok(out);
  }

  /** The result is the parity segments of the column, in whatever order its segments are given. */
  ghost predicate ParityOfColumn<F(!new), G(!new)>(fs: FftSettings<F>, m: Module<F, G>, segments: seq<Segment<F, G>>,
      size: nat, result: seq<Segment<F, G>>) {
    forall rows :: InRowOrder(segments, rows) ==>
      SizedRows(rows, size) && |rows| > 0 && result == ParitySegments(fs, m, rows)
  }

  lemma OrderIndependent<F(!new), G(!new)>(fs: FftSettings<F>, m: Module<F, G>, segments: seq<Segment<F, G>>,
      sorted: seq<Segment<F, G>>)
    requires |sorted| > 0 && InRowOrder(segments, sorted) && SizedRows(sorted, sorted[0].Size())
    ensures ParityOfColumn(fs, m, segments, sorted[0].Size(), ParitySegments(fs, m, sorted))
  {
    forall rows | InRowOrder(segments, rows) ensures rows == sorted {
      RowOrderUnique(segments, sorted, rows);
    }
  }

  /** From the sorting on: the segments that pass the filter are all of them exactly for a column. */
  method SortAndExtend<F(!new), G(!new)>(fs: FftSettings<F>, m: Module<F, G>, segments: seq<Segment<F, G>>, x: nat,
      size: nat)
    returns (r: Result<seq<Segment<F, G>>>)
    requires Valid(fs, m) && |segments| > 0 && IsPow2(|segments|) && IsPow2(size)
    requires x == segments[0].position.x && size == segments[0].Size()
    ensures r.Ok? <==> IsColumn(segments) && 2 * |segments| <= fs.maxWidth
    ensures r.Ok? ==> ParityOfColumn(fs, m, segments, size, r.value)
  {
    var sorted := SortByRow(segments);
    SameSize(sorted, segments);
    var proofs, scalars := Gather(sorted, x, size);
    GatheredAll(segments, sorted, x, size);
    if |scalars| != Times(|segments|, size) {
      return Err("mismatch in the number of elements after sorting");
    }
    r := ExtendSorted(fs, m, sorted, proofs, scalars, size);
    OrderIndependent(fs, m, segments, sorted);
  }

  /**
   `extend_segments_col`. On a nonempty list it succeeds exactly for the segments of one column,
   one for each of the rows 0..k, in any order, when the transforms have room for 2k rows; the
   result does not depend on that order.
   */
  method ExtendSegmentsCol<F(!new), G(!new)>(fs: FftSettings<F>, m: Module<F, G>, segments: seq<Segment<F, G>>)
    returns (r: Result<seq<Segment<F, G>>>)
    requires Valid(fs, m)
    ensures |segments| == 0 ==> r == Ok([])
    ensures |segments| > 0 ==> (r.Ok? <==> IsColumn(segments) && 2 * |segments| <= fs.maxWidth)
    ensures |segments| > 0 && r.Ok? ==> ParityOfColumn(fs, m, segments, segments[0].Size(), r.value)
  {
    var k := |segments|;
    if k == 0 {
      return Ok([]);
    }
    var x, size := segments[0].position.x, segments[0].Size();
    if exists i :: 0 <= i < k && segments[i].position.x != x {
      return Err("segments are not from the same column");
    }
    if !IsPow2(k) || !IsPow2(size) {
      return Err("number of segments and segment size must be powers of two");
    }
    r := SortAndExtend(fs, m, segments, x, size);
  }

  /** All sorted segments pass the filter exactly when the segments are a column. */
  lemma GatheredAll<F, G>(segments: seq<Segment<F, G>>, sorted: seq<Segment<F, G>>, x: nat, size: nat)
    requires |segments| > 0 && x == segments[0].position.x && size == segments[0].Size()
    requires IsPow2(|segments|) && IsPow2(size)
    requires multiset(sorted) == multiset(segments) && Sorted(Rows(sorted))
    ensures (forall i :: 0 <= i < |sorted| ==> Kept(sorted[i], i, x, size)) <==> IsColumn(segments)
    ensures IsColumn(segments) ==> InRowOrder(segments, sorted) && SizedRows(sorted, size)
  {
    SameSize(sorted, segments);
    SortedColumn(segments, sorted);
    if IsColumn(segments) {
      forall i | 0 <= i < |sorted| ensures Kept(sorted[i], i, x, size) {
        assert sorted[i] in segments;
        assert Rows(sorted)[i] == i;
      }
    }
    if forall i :: 0 <= i < |sorted| ==> Kept(sorted[i], i, x, size) {
      assert Rows(sorted) == Range(|sorted|);
      forall s | s in segments ensures s.position.x == x && s.Size() == size {
        assert s in sorted;
      }
    }
  }

  // ----- the two dimensions agree -----

  /** The segment at column x of row r: a chunk of the row and a proof that is linear in the polynomial. */
  function RowSegment<F, G>(fs: FftSettings<F>, m: Module<F, G>, p: seq<F>, weights: seq<G>, size: nat, x: nat,
      y: nat): Segment<F, G>
    requires IsPow2(|p|) && |p| <= |weights|
    requires Offset(x, size, size) <= 2 * |p|
  {
    Segment(Position(x, y), SegmentData(Chunk(ExtendedRow(fs, p), x, size), Combine(m, weights, p)))
  }

  /** Column x of the rows of the polynomials ps. */
  function ColumnSegments<F, G>(fs: FftSettings<F>, m: Module<F, G>, ps: seq<seq<F>>, n: nat, weights: seq<G>,
      size: nat, x: nat): (c: seq<Segment<F, G>>)
    requires Rectangular(ps, n) && IsPow2(n) && n <= |weights|
    requires Offset(x, size, size) <= 2 * n
    ensures |c| == |ps|
  {
    seq(|ps|, r requires 0 <= r < |ps| => RowSegment(fs, m, ps[r], weights, size, x, r))
  }

  /** Entry t of the parity row of the extended rows is entry t of the row of the parity polynomial. */
  lemma ParityOfRows<F(!new)>(fs: FftSettings<F>, ps: seq<seq<F>>, n: nat, i: nat, t: nat, col: seq<F>)
    requires IsField(fs.field)
    requires Rectangular(ps, n) && IsPow2(n) && i < |ps| && t < 2 * n
    requires |col| == |ps| && forall r :: 0 <= r < |ps| ==> col[r] == ExtendedRow(fs, ps[r])[t]
    ensures Parity(fs, Scalars(fs.field), col)[i] == ExtendedRow(fs, ParityPoly(fs, ps, n, i))[t]
  {
    assert (2 * n) / 2 == n;
    var x := Pow(fs.field, Root(fs, 2 * n), BitRev(Log2(2 * n), t));
    assert col == EvalAll(fs.field, ps, x);
    ParityOfValues(fs, ps, n, x, i);
  }

  /**
   Two-dimensional consistency: the parity segments of column x are the segments at column x of the
   rows of the parity polynomials, data and proof alike. The polynomials do not depend on x.
   */
  lemma ParitySegmentsAreRows<F(!new), G(!new)>(fs: FftSettings<F>, m: Module<F, G>, ps: seq<seq<F>>, n: nat,
      weights: seq<G>, size: nat, x: nat, i: nat)
    requires IsModule(fs.field, m)
    requires Rectangular(ps, n) && IsPow2(n) && n <= |weights| && i < |ps|
    requires size > 0 && Offset(x, size, size) <= 2 * n
    ensures SizedRows(ColumnSegments(fs, m, ps, n, weights, size, x), size)
    ensures ParitySegments(fs, m, ColumnSegments(fs, m, ps, n, weights, size, x))[i]
         == RowSegment(fs, m, ParityPoly(fs, ps, n, i), weights, size, x, |ps| + i)
  {
    var rows := ColumnSegments(fs, m, ps, n, weights, size, x);
    var q := ParityPoly(fs, ps, n, i);
    assert Proofs(rows) == CombineAll(m, weights, ps, n);
    ParityOfCombinations(fs, m, weights, ps, n, i);
    var data := ParitySegments(fs, m, rows)[i].content.data;
    forall j | 0 <= j < size ensures data[j] == Chunk(ExtendedRow(fs, q), x, size)[j] {
      ParityOfRows(fs, ps, n, i, Offset(x, size, j), ColumnScalars(rows, j));
    }
  }

  lemma ExtendedAt<F(!new), G(!new)>(fs: FftSettings<F>, m: Module<F, G>, elements: seq<G>, i: nat)
    requires Valid(fs, m) && IsPow2(|elements|) && 2 * |elements| <= fs.maxWidth && i < |elements|
    ensures var e := ExtendAndReorder(fs, m, elements);
      && e.Ok? && |e.value| == 2 * |elements|
      && e.value[i] == elements[i] && e.value[|elements| + i] == Parity(fs, m, elements)[i]
  {
    ExtendAndReorderCorrect(fs, m, elements);
  }

  /**
   Extending the commitments of the rows gives the commitments of the rows followed by those of
   the parity polynomials, in the order in which `extend_segments_col` numbers the parity rows.
   */
  lemma ExtendedCommitments<F(!new), G(!new)>(fs: FftSettings<F>, m: Module<F, G>, ps: seq<seq<F>>, n: nat,
      secret: seq<G>, i: nat)
    requires Valid(fs, m)
    requires Rectangular(ps, n) && n <= |secret|
    requires IsPow2(|ps|) && 2 * |ps| <= fs.maxWidth && i < |ps|
    ensures var e := ExtendAndReorder(fs, m, CombineAll(m, secret, ps, n));
      && e.Ok? && |e.value| == 2 * |ps|
      && e.value[i] == Combine(m, secret, ps[i])
      && e.value[|ps| + i] == Combine(m, secret, ParityPoly(fs, ps, n, i))
  {
    ExtendedAt(fs, m, CombineAll(m, secret, ps, n), i);
    ParityOfCombinations(fs, m, secret, ps, n, i);
  }

  /** A column of the rows of ps, in any order, passes the checks of `extend_segments_col`. */
  lemma ColumnSegmentsIsColumn<F(!new), G(!new)>(fs: FftSettings<F>, m: Module<F, G>, ps: seq<seq<F>>, n: nat,
      weights: seq<G>, size: nat, x: nat, segments: seq<Segment<F, G>>)
    requires Rectangular(ps, n) && IsPow2(n) && n <= |weights|
    requires IsPow2(size) && Offset(x, size, size) <= 2 * n && IsPow2(|ps|)
    requires multiset(segments) == multiset(ColumnSegments(fs, m, ps, n, weights, size, x))
    ensures IsColumn(segments) && InRowOrder(segments, ColumnSegments(fs, m, ps, n, weights, size, x))
  {
    var rows := ColumnSegments(fs, m, ps, n, weights, size, x);
    assert Rows(rows) == Range(|rows|);
    RearrangedColumn(rows, segments, x, size);
  }

  lemma RearrangedColumn<F, G>(rows: seq<Segment<F, G>>, segments: seq<Segment<F, G>>, x: nat, size: nat)
    requires IsPow2(|rows|) && IsPow2(size) && Rows(rows) == Range(|rows|)
    requires forall r :: 0 <= r < |rows| ==> rows[r].position.x == x && |rows[r].content.data| == size
    requires multiset(segments) == multiset(rows)
    ensures IsColumn(segments) && InRowOrder(segments, rows)
  {
    SameSize(segments, rows);
    RowsMultiset(segments, rows);
    forall s | s in segments ensures s.position.x == x && s.Size() == size {
      assert s in rows;
    }
    assert segments[0] in segments;
  }
}
