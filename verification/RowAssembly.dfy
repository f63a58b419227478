/**
 `daser/src/network.rs` and `daser/src/tx_pool_handler.rs`: turning the values fetched from the
 network into rows of segments, and rows into columns.
 */
module RowAssembly {
  import opened Sequences
  import opened Wrappers
  import opened Bits
  import ErasureCoding
  import opened Kzg
  import opened Segments
  import opened Recovery

  /** Decoding of a fetched value, and the check of a segment against the commitment of its row. */
  datatype Checker<!V, !C, !F, !P> = Checker(
    decode: V -> Option<SegmentData<F, P>>,
    proves: (C, Position, SegmentData<F, P>) -> bool)

  /** `checked` and `verify` on a decoded value: its size is a power of two and its proof holds. */
  predicate Accepts<V, C, F, P>(ch: Checker<V, C, F, P>, value: V, commitment: C, position: Position) {
    && ch.decode(value).Some?
    && IsPow2(|ch.decode(value).value.data|)
    && ch.proves(commitment, position, ch.decode(value).value)
  }

  /** `verify_values`: the first accepted value, placed at the position. */
  function VerifyValues<V, C, F, P>(ch: Checker<V, C, F, P>, values: seq<V>, commitment: C,
      position: Position): Option<Segment<F, P>> {
    if |values| == 0 then None
    else if Accepts(ch, values[0], commitment, position) then Some(Segment(position, ch.decode(values[0]).value))
    else VerifyValues(ch, values[1..], commitment, position)
  }

  /** The slots of row y: one for each fetched entry, empty where nothing was fetched or accepted. */
  function VerifiedRow<V, C, F, P>(ch: Checker<V, C, F, P>, row: seq<Option<seq<V>>>, y: nat,
      commitment: C): (r: seq<Option<Segment<F, P>>>)
    ensures |r| == |row|
  {
    seq(|row|, (x: nat) requires x < |row| =>
      if row[x].Some? then VerifyValues(ch, row[x].value, commitment, Position(x, y)) else None)
  }

  lemma {:induction false} VerifiedValue<V, C, F, P>(ch: Checker<V, C, F, P>, values: seq<V>, commitment: C,
      position: Position)
    ensures var r := VerifyValues(ch, values, commitment, position);
      r.Some? ==> r.value.position == position && IsPow2(r.value.Size()) && ch.proves(commitment, position, r.value.content)
  {
    if |values| > 0 && !Accepts(ch, values[0], commitment, position) {
      VerifiedValue(ch, values[1..], commitment, position);
    }
  }

  /** Of the first i values none decodes to a segment of a power-of-two size that proves right. */
  ghost predicate NoneRight<V, C, F(!new), P(!new)>(ch: Checker<V, C, F, P>, values: seq<V>, commitment: C,
      position: Position, i: nat)
    requires i <= |values|
  {
    forall j, d :: 0 <= j < i && ch.decode(values[j]) == Some(d) && IsPow2(|d.data|) ==> !ch.proves(commitment, position, d)
  }

  /** The i-th value decodes to a segment that proves right, and none before it does. */
  ghost predicate FirstRight<V, C, F(!new), P(!new)>(ch: Checker<V, C, F, P>, values: seq<V>, commitment: C,
      position: Position, i: nat, d: SegmentData<F, P>) {
    && i < |values| && NoneRight(ch, values, commitment, position, i)
    && ch.decode(values[i]) == Some(d) && IsPow2(|d.data|) && ch.proves(commitment, position, d)
  }

  /** `verify_values` finds nothing exactly if no value is right, and otherwise the first that is. */
  lemma {:induction false} VerifiedExactly<V, C, F(!new), P(!new)>(ch: Checker<V, C, F, P>, values: seq<V>,
      commitment: C, position: Position)
    ensures var r := VerifyValues(ch, values, commitment, position);
      && (r.None? <==> NoneRight(ch, values, commitment, position, |values|))
      && (r.Some? ==> r.value.position == position
                      && exists i: nat :: FirstRight(ch, values, commitment, position, i, r.value.content))
  {
    if |values| > 0 {
      var rest := values[1..];
      if Accepts(ch, values[0], commitment, position) {
        assert FirstRight(ch, values, commitment, position, 0, ch.decode(values[0]).value);
      } else {
        VerifiedExactly(ch, rest, commitment, position);
        forall i: nat | i <= |rest|
          ensures NoneRight(ch, values, commitment, position, i + 1) <==> NoneRight(ch, rest, commitment, position, i)
        {
          NoneRightTail(ch, values, commitment, position, i);
        }
        var r := VerifyValues(ch, rest, commitment, position);
        if r.Some? {
          var i: nat :| FirstRight(ch, rest, commitment, position, i, r.value.content);
          assert FirstRight(ch, values, commitment, position, i + 1, r.value.content);
        }
      }
    }
  }

  lemma NoneRightTail<V, C, F(!new), P(!new)>(ch: Checker<V, C, F, P>, values: seq<V>, commitment: C,
      position: Position, i: nat)
    requires i < |values| && !Accepts(ch, values[0], commitment, position)
    ensures NoneRight(ch, values, commitment, position, i + 1) <==> NoneRight(ch, values[1..], commitment, position, i)
  {
    var rest := values[1..];
    assert forall j :: 0 <= j < i ==> rest[j] == values[j + 1];
    assert forall j :: 0 < j < i + 1 ==> values[j] == rest[j - 1];
  }

  /** The columns for which a right value was fetched. */
  ghost function Found<V, C, F(!new), P(!new)>(ch: Checker<V, C, F, P>, row: seq<Option<seq<V>>>, y: nat,
      commitment: C): set<nat> {
    set x: nat | x < |row| && row[x].Some? && !NoneRight(ch, row[x].value, commitment, Position(x, y), |row[x].value|)
  }

  /** A slot is filled exactly if a right value was fetched for it; there are as many filled slots as such columns. */
  lemma VerifiedIsFound<V, C, F(!new), P(!new)>(ch: Checker<V, C, F, P>, row: seq<Option<seq<V>>>, y: nat,
      commitment: C)
    ensures forall x: nat :: x < |row| ==>
              (VerifiedRow(ch, row, y, commitment)[x].Some? <==> x in Found(ch, row, y, commitment))
    ensures CountSome(VerifiedRow(ch, row, y, commitment)) == |Found(ch, row, y, commitment)|
  {
    var slots := VerifiedRow(ch, row, y, commitment);
    forall x: nat | x < |row| ensures slots[x].Some? <==> x in Found(ch, row, y, commitment) {
      if row[x].Some? {
        VerifiedExactly(ch, row[x].value, commitment, Position(x, y));
      }
    }
    assert ErasureCoding.Known(slots) == Found(ch, row, y, commitment);
    CountIsKnown(slots);
  }

  lemma VerifiedSlots<V, C, F, P>(ch: Checker<V, C, F, P>, row: seq<Option<seq<V>>>, y: nat, commitment: C, x: nat)
    requires x < |row|
    ensures var s := VerifiedRow(ch, row, y, commitment)[x];
      s.Some? ==>
        && s.value.position == Position(x, y) && IsPow2(s.value.Size())
        && ch.proves(commitment, Position(x, y), s.value.content)
  {
    if row[x].Some? {
      VerifiedValue(ch, row[x].value, commitment, Position(x, y));
    }
  }

  // ----- one row -----

  /** A row with a gap never makes the recovery panic: it has at most 2^(word-1) slots. */
  ghost predicate RowFits<F, P>(kzg: KZG<F, P>, width: nat) {
    IsPow2(width) ==> Log2(width) < kzg.word
  }

  lemma GapInRow<F, P>(datas: Slots<F, P>, size: nat, i: nat)
    requires size > 0 && Regular(datas, size) && i < |datas| && datas[i].None?
    ensures None in SegmentDatasToRow(datas, size)
  {
    RowSlot(datas, size, i, 0);
    assert SegmentDatasToRow(datas, size)[Offset(i, size, 0)] == None;
  }

  lemma {:induction false} CountAtMost<T>(s: seq<Option<T>>)
    ensures CountSome(s) <= |s|
    ensures CountSome(s) == |s| <==> forall i :: 0 <= i < |s| ==> s[i].Some?
  {
    if |s| > 0 {
      CountAtMost(s[1..]);
      assert forall i :: 0 < i < |s| ==> s[i] == s[1..][i - 1];
      assert forall i :: 0 <= i < |s| - 1 ==> s[1..][i] == s[i + 1];
    }
  }

  /** Recovery of a verified row with a gap runs without a panic. */
  lemma RecoveryRuns<F, P>(kzg: KZG<F, P>, slots: seq<Option<Segment<F, P>>>)
    requires RowFits(kzg, |slots|) && CountSome(slots) < |slots|
    requires forall i :: 0 <= i < |slots| && slots[i].Some? ==> slots[i].value.Size() > 0
    ensures OrderRowChecks(slots) ==> Recoverable(kzg, Contents(slots), |slots|, FirstSome(slots).value.Size())
  {
    CountAtMost(slots);
    FirstSomeIsOne(slots);
    if OrderRowChecks(slots) {
      var i :| 0 <= i < |slots| && slots[i].None?;
      GapInRow(Contents(slots), FirstSome(slots).value.Size(), i);
    }
  }

  lemma VerifiedPositions<V, C, F, P>(ch: Checker<V, C, F, P>, row: seq<Option<seq<V>>>, y: nat, commitment: C)
    ensures var segments := VerifiedRow(ch, row, y, commitment);
      forall i :: 0 <= i < |segments| && segments[i].Some? ==>
        segments[i].value.position == Position(i, y) && segments[i].value.Size() > 0
  {
    var segments := VerifiedRow(ch, row, y, commitment);
    forall i | 0 <= i < |segments| && segments[i].Some?
      ensures segments[i].value.position == Position(i, y) && segments[i].value.Size() > 0
    {
      VerifiedSlots(ch, row, y, commitment, i);
    }
  }

  /** `rows_values_handler`: verify the entries of a row and recover the missing ones. */
  function RowHandler<V, C, F(!new, ==), P>(kzg: KZG<F, P>, ch: Checker<V, C, F, P>, row: seq<Option<seq<V>>>, y: nat,
      commitment: C)
    : (seq<Option<Segment<F, P>>>, bool)
    requires KeepsLength(kzg.recover) && RowFits(kzg, |row|)
  {
    var segments := VerifiedRow(ch, row, y, commitment);
    var someCount := CountSome(segments);
    var isAvailability := someCount >= |segments| / 2;
    if isAvailability && someCount < |segments| then
      VerifiedPositions(ch, row, y, commitment);
      RecoveryRuns(kzg, segments);
      match RecoveryOrderRow(kzg, segments)
      case Ok(recovered) => (seq(|recovered|, i requires 0 <= i < |recovered| => Some(recovered[i])), true)
      case Err(_) => (segments, false)
    else (segments, isAvailability)
  }

  /** Every slot of the row is filled with a segment at its own place. */
  ghost predicate FullRow<F, P>(segments: seq<Option<Segment<F, P>>>, width: nat, y: nat) {
    |segments| == width && forall x :: 0 <= x < width ==> segments[x].Some? && segments[x].value.position == Position(x, y)
  }

  lemma RecoveredRowPositions<F(!new), P>(kzg: KZG<F, P>, slots: seq<Option<Segment<F, P>>>, y: nat)
    requires KeepsLength(kzg.recover)
    requires OrderRowChecks(slots) ==> Recoverable(kzg, Contents(slots), |slots|, FirstSome(slots).value.Size())
    requires forall i :: 0 <= i < |slots| && slots[i].Some? ==> slots[i].value.position.y == y
    requires RecoveryOrderRow(kzg, slots).Ok?
    ensures var r := RecoveryOrderRow(kzg, slots).value;
            |r| == |slots| && forall i :: 0 <= i < |r| ==> InSlot(Contents(slots)[i], r[i], Position(i, y))
  {
    FirstSomeIsOne(slots);
    RecoveredPositions(kzg, Contents(slots), |slots|, y, FirstSome(slots).value.Size());
  }

  /** A row reported available is full, whatever was fetched. */
  lemma AvailableRowIsFull<V, C, F(!new), P>(kzg: KZG<F, P>, ch: Checker<V, C, F, P>, row: seq<Option<seq<V>>>, y: nat,
      commitment: C)
    requires KeepsLength(kzg.recover) && RowFits(kzg, |row|)
    ensures |RowHandler(kzg, ch, row, y, commitment).0| == |row|
    ensures RowHandler(kzg, ch, row, y, commitment).1 ==> FullRow(RowHandler(kzg, ch, row, y, commitment).0, |row|, y)
  {
    var segments := VerifiedRow(ch, row, y, commitment);
    VerifiedPositions(ch, row, y, commitment);
    CountAtMost(segments);
    if CountSome(segments) >= |segments| / 2 && CountSome(segments) < |segments| {
      RecoveryRuns(kzg, segments);
      if RecoveryOrderRow(kzg, segments).Ok? {
        RecoveredRowPositions(kzg, segments, y);
      }
    }
  }

  /**
   A row is reported available exactly if right values were fetched for at least half of its columns,
   rounded down, and, unless for all, the recovery of the verified slots succeeds.
   */
  lemma RowAvailableExactly<V, C, F(!new), P(!new)>(kzg: KZG<F, P>, ch: Checker<V, C, F, P>,
      row: seq<Option<seq<V>>>, y: nat, commitment: C)
    requires KeepsLength(kzg.recover) && RowFits(kzg, |row|)
    ensures var slots, found := VerifiedRow(ch, row, y, commitment), |Found(ch, row, y, commitment)|;
      && found <= |row|
      && (found < |row| && OrderRowChecks(slots) ==>
            Recoverable(kzg, Contents(slots), |slots|, FirstSome(slots).value.Size()))
      && (RowHandler(kzg, ch, row, y, commitment).1 <==>
            |row| / 2 <= found && (found < |row| ==> RecoveryOrderRow(kzg, slots).Ok?))
  {
    var slots := VerifiedRow(ch, row, y, commitment);
    VerifiedIsFound(ch, row, y, commitment);
    VerifiedPositions(ch, row, y, commitment);
    CountAtMost(slots);
    if CountSome(slots) < |slots| {
      RecoveryRuns(kzg, slots);
    }
  }

  /** The row handler keeps the segments that it verified. */
  lemma VerifiedIsKept<V, C, F(!new), P>(kzg: KZG<F, P>, ch: Checker<V, C, F, P>, row: seq<Option<seq<V>>>, y: nat,
      commitment: C, x: nat)
    requires KeepsLength(kzg.recover) && RowFits(kzg, |row|) && x < |row|
    requires VerifiedRow(ch, row, y, commitment)[x].Some?
    ensures |RowHandler(kzg, ch, row, y, commitment).0| == |row|
    ensures RowHandler(kzg, ch, row, y, commitment).0[x] == VerifiedRow(ch, row, y, commitment)[x]
  {
    var segments := VerifiedRow(ch, row, y, commitment);
    forall i | 0 <= i < |segments| && segments[i].Some?
      ensures segments[i].value.position == Position(i, y) && segments[i].value.Size() > 0
    {
      VerifiedSlots(ch, row, y, commitment, i);
    }
    if CountSome(segments) >= |segments| / 2 && CountSome(segments) < |segments| {
      RecoveryRuns(kzg, segments);
      if RecoveryOrderRow(kzg, segments).Ok? {
        RecoveredRowPositions(kzg, segments, y);
      }
    }
  }

  // ----- all rows -----

  /** Row y of the fetched entries; the last row may be shorter. */
  function RowOf<T>(values: seq<T>, width: nat, y: nat): (r: seq<T>)
    requires width > 0 && Offset(y, width, 0) <= |values|
    ensures |r| <= width
  {
    if Offset(y, width, width) <= |values| then values[Offset(y, width, 0)..Offset(y, width, width)]
    else values[Offset(y, width, 0)..]
  }

  lemma RowOfIs<T>(values: seq<T>, width: nat, y: nat)
    requires width > 0 && Offset(y, width, width) <= |values|
    ensures |RowOf(values, width, y)| == width
    ensures forall x: nat :: x < width ==> RowOf(values, width, y)[x] == values[Offset(y, width, x)]
  {
  }

  /** A row handler's panics are excluded: every row has a commitment and fits the word. */
  ghost predicate RowsFit<V, C, F(!new), P>(kzg: KZG<F, P>, values: seq<Option<seq<V>>>, commitments: seq<C>,
      width: nat) {
    && KeepsLength(kzg.recover) && width > 0 && |values| <= Times(|commitments|, width)
    && forall w :: 0 <= w <= width ==> RowFits(kzg, w)
  }

  /** The number of rows that n entries are cut into. */
  function RowNum(n: nat, width: nat): nat
    requires width > 0
  {
    if n == 0 then 0 else if n <= width then 1 else 1 + RowNum(n - width, width)
  }

  lemma {:induction false} RowNumExact(n: nat, width: nat, y: nat)
    requires width > 0
    ensures y < RowNum(n, width) <==> Offset(y, width, 0) < n
    decreases y
  {
    if y > 0 {
      assert Times(y, width) == width + Times(y - 1, width);
      if n > width {
        RowNumExact(n - width, width, y - 1);
      }
    }
  }

  lemma RowInRange(y: nat, count: nat, width: nat, n: nat)
    requires width > 0 && n <= Times(count, width) && y < RowNum(n, width)
    ensures y < count && Offset(y, width, 0) < n
  {
    RowNumExact(n, width, y);
    if count <= y {
      TimesMonotone(count, y, width);
    }
  }

  /** What the row handler makes of each row. */
  function Handled<V, C, F(!new, ==), P>(kzg: KZG<F, P>, ch: Checker<V, C, F, P>, values: seq<Option<seq<V>>>,
      commitments: seq<C>, width: nat)
    : (r: seq<(seq<Option<Segment<F, P>>>, bool)>)
    requires RowsFit(kzg, values, commitments, width)
    ensures |r| == RowNum(|values|, width)
  {
    seq(RowNum(|values|, width), (y: nat) requires y < RowNum(|values|, width) =>
      RowInRange(y, |commitments|, width, |values|);
      RowHandler(kzg, ch, RowOf(values, width, y), y, commitments[y]))
  }

  /** The rows one after the other. If told to stop, an unavailable row is the last one and makes the whole unavailable. */
  function JoinRows<T>(rows: seq<(seq<T>, bool)>, stop: bool): (seq<T>, bool) {
    if |rows| == 0 then ([], true)
    else if !rows[0].1 && stop then (rows[0].0, false)
    else
      var (rest, available) := JoinRows(rows[1..], stop);
      (rows[0].0 + rest, available)
  }

  /** The segments are those of the first y rows, after which the joining goes on. */
  ghost predicate Joining<T>(rows: seq<(seq<T>, bool)>, stop: bool, y: nat, segments: seq<T>)
    requires y <= |rows|
  {
    var rest := JoinRows(rows[y..], stop);
    JoinRows(rows, stop) == (segments + rest.0, rest.1)
  }

  lemma JoinStart<T>(rows: seq<(seq<T>, bool)>, stop: bool)
    ensures Joining(rows, stop, 0, [])
    ensures |rows| == 0 ==> JoinRows(rows, stop) == ([], true)
  {
    assert rows[0..] == rows;
    assert [] + JoinRows(rows, stop).0 == JoinRows(rows, stop).0;
  }

  lemma JoinStep<T>(rows: seq<(seq<T>, bool)>, stop: bool, y: nat, segments: seq<T>)
    requires y < |rows| && Joining(rows, stop, y, segments)
    ensures !rows[y].1 && stop ==> JoinRows(rows, stop) == (segments + rows[y].0, false)
    ensures rows[y].1 || !stop ==> Joining(rows, stop, y + 1, segments + rows[y].0)
  {
    assert rows[y..][1..] == rows[y + 1..];
    ConcatAssoc(segments, rows[y].0, JoinRows(rows[y + 1..], stop).0);
  }

  lemma JoinEnd<T>(rows: seq<(seq<T>, bool)>, stop: bool, segments: seq<T>)
    requires Joining(rows, stop, |rows|, segments)
    ensures JoinRows(rows, stop) == (segments, true)
  {
    assert segments + [] == segments;
  }

  /** `rows_values_set_handler` */
  method RowsHandler<V, C, F(!new, ==), P>(kzg: KZG<F, P>, ch: Checker<V, C, F, P>, values: seq<Option<seq<V>>>,
      commitments: seq<C>, width: nat, stop: bool)
    returns (segments: seq<Option<Segment<F, P>>>, available: bool)
    requires |commitments| > 0 ==> RowsFit(kzg, values, commitments, width)
    ensures |commitments| == 0 ==> segments == [] && available
    ensures |commitments| > 0 ==> (segments, available) == JoinRows(Handled(kzg, ch, values, commitments, width), stop)
  {
    segments, available := [], true;
    if |values| == 0 || |commitments| == 0 {
      return;
    }
    ghost var rows := Handled(kzg, ch, values, commitments, width);
    JoinStart(rows, stop);
    for y := 0 to RowNum(|values|, width)
      invariant available
      invariant Joining(rows, stop, y, segments)
    {
      RowInRange(y, |commitments|, width, |values|);
      var (rowSegments, rowAvailable) := RowHandler(kzg, ch, RowOf(values, width, y), y, commitments[y]);
      assert rows[y] == (rowSegments, rowAvailable);
      JoinStep(rows, stop, y, segments);
      segments := segments + rowSegments;
      if !rowAvailable && stop {
        available := false;
        return;
      }
    }
    JoinEnd(rows, stop, segments);
  }

  // ----- available rows form a full grid -----

  /** The slot of column x in row y of the list holds the segment of that column and row. */
  ghost predicate FullGrid<F, P>(segments: seq<Option<Segment<F, P>>>, width: nat) {
    forall y: nat, x: nat :: x < width && Offset(y, width, x) < |segments| ==>
      InPlace(segments[Offset(y, width, x)], x, y)
  }

  ghost predicate InPlace<F, P>(slot: Option<Segment<F, P>>, x: nat, y: nat) {
    slot.Some? && slot.value.position == Position(x, y)
  }

  /** In other words, slot i holds the segment of column i mod width and row i div width. */
  lemma FullGridAt<F, P>(segments: seq<Option<Segment<F, P>>>, width: nat, i: nat)
    requires width > 0 && FullGrid(segments, width) && i < |segments|
    ensures segments[i].Some? && segments[i].value.position == Position(i % width, i / width)
  {
    TimesIsProduct(i / width, width);
    assert Offset(i / width, width, i % width) == i;
    assert InPlace(segments[Offset(i / width, width, i % width)], i % width, i / width);
  }

  /** All rows but the last have the same width. */
  ghost predicate Aligned<T>(rows: seq<(seq<T>, bool)>, width: nat) {
    forall r :: 0 <= r < |rows| ==> |rows[r].0| <= width && (r + 1 < |rows| ==> |rows[r].0| == width)
  }

  lemma AlignedRest<T>(rows: seq<(seq<T>, bool)>, width: nat)
    requires Aligned(rows, width) && |rows| > 0
    ensures Aligned(rows[1..], width)
  {
  }

  /** If the whole is available, every row is, and slot x of row y is found where it belongs. */
  lemma {:induction false} JoinedSlot<T>(rows: seq<(seq<T>, bool)>, width: nat, y: nat, x: nat)
    requires Aligned(rows, width) && JoinRows(rows, true).1 && y < |rows| && x < |rows[y].0|
    ensures rows[y].1
    ensures Offset(y, width, x) < |JoinRows(rows, true).0| && JoinRows(rows, true).0[Offset(y, width, x)] == rows[y].0[x]
    decreases y
  {
    if y > 0 {
      AlignedRest(rows, width);
      JoinedSlot(rows[1..], width, y - 1, x);
      assert Offset(y, width, x) == width + Offset(y - 1, width, x);
    }
  }

  lemma {:induction false} JoinedLength<T>(rows: seq<(seq<T>, bool)>, width: nat)
    requires Aligned(rows, width) && JoinRows(rows, true).1 && |rows| > 0
    ensures |JoinRows(rows, true).0| == Offset(|rows| - 1, width, |rows[|rows| - 1].0|)
    decreases |rows|
  {
    if |rows| > 1 {
      AlignedRest(rows, width);
      JoinedLength(rows[1..], width);
    } else {
      assert rows[1..] == [];
    }
  }

  /** Told to stop, the whole is available exactly if every row is. */
  lemma {:induction false} JoinedAvailable<T>(rows: seq<(seq<T>, bool)>)
    ensures JoinRows(rows, true).1 <==> forall y :: 0 <= y < |rows| ==> rows[y].1
  {
    if |rows| > 0 && rows[0].1 {
      JoinedAvailable(rows[1..]);
      assert forall y :: 0 <= y < |rows| - 1 ==> rows[1..][y] == rows[y + 1];
      assert forall y :: 0 < y < |rows| ==> rows[y] == rows[1..][y - 1];
    }
  }

  /** Not told to stop, the whole is always reported available, and has all rows one after the other. */
  lemma {:induction false} JoinedRegardless<T>(rows: seq<(seq<T>, bool)>)
    ensures JoinRows(rows, false).1
  {
    if |rows| > 0 {
      JoinedRegardless(rows[1..]);
    }
  }

  /** The rows made of the values have their lengths. */
  lemma HandledAligned<V, C, F(!new), P>(kzg: KZG<F, P>, ch: Checker<V, C, F, P>, values: seq<Option<seq<V>>>,
      commitments: seq<C>, width: nat, y: nat)
    requires RowsFit(kzg, values, commitments, width) && y < RowNum(|values|, width)
    ensures y < |commitments| && Offset(y, width, 0) < |values|
    ensures |Handled(kzg, ch, values, commitments, width)[y].0| == |RowOf(values, width, y)|
    ensures y + 1 < RowNum(|values|, width) ==> |RowOf(values, width, y)| == width
    ensures Handled(kzg, ch, values, commitments, width)[y].1 ==>
              FullRow(Handled(kzg, ch, values, commitments, width)[y].0, |RowOf(values, width, y)|, y)
  {
    RowInRange(y, |commitments|, width, |values|);
    RowNumExact(|values|, width, y + 1);
    assert Offset(y, width, width) == Offset(y + 1, width, 0);
    AvailableRowIsFull(kzg, ch, RowOf(values, width, y), y, commitments[y]);
  }

  lemma AllAligned<V, C, F(!new), P>(kzg: KZG<F, P>, ch: Checker<V, C, F, P>, values: seq<Option<seq<V>>>,
      commitments: seq<C>, width: nat)
    requires RowsFit(kzg, values, commitments, width)
    ensures Aligned(Handled(kzg, ch, values, commitments, width), width)
  {
    var rows := Handled(kzg, ch, values, commitments, width);
    forall r | 0 <= r < |rows| ensures |rows[r].0| <= width && (r + 1 < |rows| ==> |rows[r].0| == width) {
      HandledAligned(kzg, ch, values, commitments, width, r);
    }
  }

  /** The slots as `rows_values_set_handler` returns them when it stops at an unavailable row. */
  function Assembled<V, C, F(!new, ==), P>(kzg: KZG<F, P>, ch: Checker<V, C, F, P>, values: seq<Option<seq<V>>>,
      commitments: seq<C>, width: nat)
    : (seq<Option<Segment<F, P>>>, bool)
    requires RowsFit(kzg, values, commitments, width)
  {
    JoinRows(Handled(kzg, ch, values, commitments, width), true)
  }

  lemma AssembledLength<V, C, F(!new), P>(kzg: KZG<F, P>, ch: Checker<V, C, F, P>, values: seq<Option<seq<V>>>,
      commitments: seq<C>, width: nat)
    requires RowsFit(kzg, values, commitments, width) && Assembled(kzg, ch, values, commitments, width).1
    ensures |Assembled(kzg, ch, values, commitments, width).0| == |values|
  {
    var rows := Handled(kzg, ch, values, commitments, width);
    if |values| > 0 {
      var last := |rows| - 1;
      AllAligned(kzg, ch, values, commitments, width);
      JoinedLength(rows, width);
      HandledAligned(kzg, ch, values, commitments, width, last);
      RowNumExact(|values|, width, last + 1);
      assert Offset(last, width, width) == Offset(last + 1, width, 0);
    }
  }

  /** The slot of column x and row y is slot x of what the row handler made of row y, which it reported available. */
  lemma AssembledSlot<V, C, F(!new), P>(kzg: KZG<F, P>, ch: Checker<V, C, F, P>, values: seq<Option<seq<V>>>,
      commitments: seq<C>, width: nat, y: nat, x: nat)
    requires RowsFit(kzg, values, commitments, width) && Assembled(kzg, ch, values, commitments, width).1
    requires x < width && Offset(y, width, x) < |values|
    ensures y < RowNum(|values|, width) && Handled(kzg, ch, values, commitments, width)[y].1
    ensures x < |Handled(kzg, ch, values, commitments, width)[y].0|
    ensures Offset(y, width, x) < |Assembled(kzg, ch, values, commitments, width).0|
    ensures Assembled(kzg, ch, values, commitments, width).0[Offset(y, width, x)] ==
            Handled(kzg, ch, values, commitments, width)[y].0[x]
  {
    RowNumExact(|values|, width, y);
    HandledAligned(kzg, ch, values, commitments, width, y);
    AllAligned(kzg, ch, values, commitments, width);
    JoinedSlot(Handled(kzg, ch, values, commitments, width), width, y, x);
  }

  /** Told to stop and reported available, the rows fill every slot at its own place. */
  lemma AvailableRowsAreFull<V, C, F(!new), P>(kzg: KZG<F, P>, ch: Checker<V, C, F, P>, values: seq<Option<seq<V>>>,
      commitments: seq<C>, width: nat)
    requires RowsFit(kzg, values, commitments, width) && Assembled(kzg, ch, values, commitments, width).1
    ensures |Assembled(kzg, ch, values, commitments, width).0| == |values|
    ensures FullGrid(Assembled(kzg, ch, values, commitments, width).0, width)
  {
    var all := Assembled(kzg, ch, values, commitments, width).0;
    AssembledLength(kzg, ch, values, commitments, width);
    forall y: nat, x: nat | x < width && Offset(y, width, x) < |all|
      ensures InPlace(all[Offset(y, width, x)], x, y)
    {
      AssembledSlot(kzg, ch, values, commitments, width, y, x);
      HandledAligned(kzg, ch, values, commitments, width, y);
    }
  }

  // ----- columns -----

  /** `full_col`: every `len`-th segment from `index`, if all of them are there. */
  function FullCol<T>(segments: seq<Option<T>>, index: nat, len: nat): Result<seq<T>>
    requires len > 0
    decreases |segments| - index
  {
    if index >= |segments| then Ok([])
    else if segments[index].None? then Err("Col is not available")
    else
      var rest :- FullCol(segments, index + len, len);
      Ok([segments[index].value] + rest)
  }

  /** `full_col` as the fold of the code. */
  method CollectCol<T>(segments: seq<Option<T>>, index: nat, len: nat) returns (r: Result<seq<T>>)
    requires len > 0
    ensures r == FullCol(segments, index, len)
  {
    var col: seq<T> := [];
    var i := index;
    ghost var goal := FullCol(segments, index, len);
    assert goal.Ok? ==> [] + goal.value == goal.value;
    while i < |segments|
      invariant match FullCol(segments, i, len)
                case Ok(rest) => goal == Ok(col + rest)
                case Err(e) => goal == Err(e)
      decreases |segments| - i
    {
      if segments[i].None? {
        return Err("Col is not available");
      }
      ghost var rest := FullCol(segments, i + len, len);
      if rest.Ok? {
        ConcatAssoc(col, [segments[i].value], rest.value);
      }
      col := col + [segments[i].value];
      i := i + len;
    }
    assert col + [] == col;
    r := Ok(col);
  }

  /** Column x of k full rows from row y on: one segment per row, in row order. */
  lemma {:induction false} FullColOfGrid<F, P>(segments: seq<Option<Segment<F, P>>>, width: nat, k: nat, x: nat, y: nat)
    requires width > 0 && |segments| == Times(k, width) && FullGrid(segments, width)
    requires x < width && y <= k
    ensures FullCol(segments, Offset(y, width, x), width).Ok?
    ensures var col := FullCol(segments, Offset(y, width, x), width).value;
      && |col| == k - y
      && forall r :: y <= r < k ==>
           && Offset(r, width, x) < |segments| && segments[Offset(r, width, x)] == Some(col[r - y])
           && col[r - y].position == Position(x, r)
    decreases k - y
  {
    if y < k {
      BelowTimes(y, k, x, width);
      assert InPlace(segments[Offset(y, width, x)], x, y);
      assert Offset(y, width, x) + width == Offset(y + 1, width, x);
      FullColOfGrid(segments, width, k, x, y + 1);
    }
  }

  /** Entry r of column x of k full rows is the slot of that column in row r. */
  lemma ColumnOfGrid<F, P>(segments: seq<Option<Segment<F, P>>>, width: nat, k: nat, x: nat)
    requires width > 0 && |segments| == Times(k, width) && FullGrid(segments, width) && x < width
    ensures FullCol(segments, x, width).Ok? && |FullCol(segments, x, width).value| == k
    ensures forall r: nat :: r < k ==>
      && FullCol(segments, x, width).value[r].position == Position(x, r)
      && Offset(r, width, x) < |segments| && segments[Offset(r, width, x)] == Some(FullCol(segments, x, width).value[r])
  {
    FullColOfGrid(segments, width, k, x, 0);
    assert Offset(0, width, x) == x;
    var col := FullCol(segments, x, width).value;
    forall r: nat | r < k
      ensures col[r].position == Position(x, r)
      ensures Offset(r, width, x) < |segments| && segments[Offset(r, width, x)] == Some(col[r])
    {
      assert col[r - 0] == col[r];
    }
  }

  /**
   If `rows_values_set_handler` with stop-on-unavailability reports k whole rows available, then
   `full_col` succeeds for every column with one segment per row in row order.
   */
  lemma AvailableColumns<V, C, F(!new), P>(kzg: KZG<F, P>, ch: Checker<V, C, F, P>, values: seq<Option<seq<V>>>,
      commitments: seq<C>, width: nat, k: nat, x: nat)
    requires RowsFit(kzg, values, commitments, width) && |values| == Times(k, width) && x < width
    requires Assembled(kzg, ch, values, commitments, width).1
    ensures var col := FullCol(Assembled(kzg, ch, values, commitments, width).0, x, width);
      && col.Ok? && |col.value| == k
      && forall r :: 0 <= r < k ==> col.value[r].position == Position(x, r)
  {
    AvailableRowsAreFull(kzg, ch, values, commitments, width);
    ColumnOfGrid(Assembled(kzg, ch, values, commitments, width).0, width, k, x);
  }
}
