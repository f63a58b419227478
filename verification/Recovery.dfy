/** `melo-erasure-coding/src/recovery.rs`: recovery of the missing segments of a row. */
module Recovery {
  import opened Wrappers
  import opened Bits
  import opened Dft
  import opened ErasureCoding
  import opened Kzg
  import opened Segments

  type Slots<F, P> = seq<Option<SegmentData<F, P>>>

  /** What `recover_segment_datas` needs to run without a panic. */
  ghost predicate Recoverable<F, P>(kzg: KZG<F, P>, datas: Slots<F, P>, chunkCount: nat, size: nat) {
    && size > 0 && Regular(datas, size)
    && IsPow2(chunkCount) && Log2(chunkCount) < kzg.word
    && (None !in SegmentDatasToRow(datas, size) ==> IsPow2(Times(|datas|, size)) && Times(|datas|, size) <= kzg.fs.maxWidth)
  }

  /** One slot of the recovered row: the segment given, or the recovered data with a fresh proof. */
  function RecoverSlot<F, P>(kzg: KZG<F, P>, slot: Option<SegmentData<F, P>>, poly: seq<F>, row: seq<F>,
      chunkCount: nat, y: nat, size: nat, i: nat): Result<Segment<F, P>>
    requires IsPow2(chunkCount) && Log2(chunkCount) < kzg.word
    requires size > 0 && Offset(i, size, size) <= |row|
  {
    var position := Position(i, y);
    match slot
    case Some(d) => Ok(Segment(position, d))
    case None =>
      var proof :- ComputeProofMulti(kzg, poly, i, chunkCount, size);
      Ok(Segment(position, SegmentData(Chunk(row, i, size), proof)))
  }

  /** The slots from i on; the first failing proof fails the whole recovery. */
  function RecoverSlots<F, P>(kzg: KZG<F, P>, datas: Slots<F, P>, poly: seq<F>, row: seq<F>,
      chunkCount: nat, y: nat, size: nat, i: nat): Result<seq<Segment<F, P>>>
    requires IsPow2(chunkCount) && Log2(chunkCount) < kzg.word
    requires size > 0 && |row| == Times(|datas|, size) && i <= |datas|
    decreases |datas| - i
  {
    if i == |datas| then Ok([]) else
    ChunkInRange(i, |datas|, size);
    var head :- RecoverSlot(kzg, datas[i], poly, row, chunkCount, y, size, i);
    var tail :- RecoverSlots(kzg, datas, poly, row, chunkCount, y, size, i + 1);
    Ok([head] + tail)
  }

  /** `recover_segment_datas` */
  function RecoverSegmentDatas<F(!new, ==), P>(kzg: KZG<F, P>, datas: Slots<F, P>, chunkCount: nat, y: nat, size: nat)
    : Result<seq<Segment<F, P>>>
    requires KeepsLength(kzg.recover)
    requires Recoverable(kzg, datas, chunkCount, size)
  {
    RowLength(datas, size);
    var shards := SegmentDatasToRow(datas, size);
    var poly :- RecoverPoly(kzg.fs, kzg.recover, shards);
    var row :- ExtendPolySpec(kzg.fs, poly);
    assert |row| == Times(|datas|, size) by {
      assert |poly| == |shards| / 2;
      EvenLength(|shards|, |poly|);
    }
    RecoverSlots(kzg, datas, poly, row, chunkCount, y, size, 0)
  }

  lemma EvenLength(n: nat, h: nat)
    requires IsPow2(n) && h == n / 2 && IsPow2(h)
    ensures 2 * h == n
  {
  }

  // ----- a row with at least half of its segments is recovered -----

  /** The segments present carry the data of the row of p. */
  ghost predicate RowErasure<F, P>(fs: FftSettings<F>, p: seq<F>, size: nat, datas: Slots<F, P>) {
    && IsPow2(|p|) && Times(|datas|, size) == 2 * |p|
    && forall i :: 0 <= i < |datas| && datas[i].Some? ==>
         Offset(i, size, size) <= 2 * |p| && datas[i].value.data == Chunk(ExtendedRow(fs, p), i, size)
  }

  /** Every index of a row lies in one of its chunks. */
  lemma ChunkOf(n: nat, count: nat, size: nat) returns (i: nat, o: nat)
    requires size > 0 && n < Times(count, size)
    ensures i < count && o < size && n == Offset(i, size, o)
    decreases count
  {
    if n >= Times(count - 1, size) {
      i, o := count - 1, n - Times(count - 1, size);
    } else {
      i, o := ChunkOf(n, count - 1, size);
    }
  }

  lemma RowErasureIsErasure<F(!new), P>(fs: FftSettings<F>, p: seq<F>, size: nat, datas: Slots<F, P>)
    requires size > 0 && RowErasure(fs, p, size, datas)
    ensures Regular(datas, size) && Erasure(ExtendedRow(fs, p), SegmentDatasToRow(datas, size))
  {
    var row, shards := ExtendedRow(fs, p), SegmentDatasToRow(datas, size);
    RowLength(datas, size);
    forall n: nat | n < |row| && shards[n].Some? ensures shards[n].value == row[n] {
      var i, o := ChunkOf(n, |datas|, size);
      RowSlot(datas, size, i, o);
    }
  }

  lemma HalfKnown(count: nat, known: nat, size: nat, n: nat)
    requires Times(count, size) == 2 * n && count <= 2 * known
    ensures n <= Times(known, size)
  {
    TimesMonotone(count, 2 * known, size);
    TimesTwice(known, size);
  }

  /** What the recovery of a row of p must return. */
  ghost predicate RecoveredRow<F, P>(kzg: KZG<F, P>, p: seq<F>, datas: Slots<F, P>, chunkCount: nat, y: nat, size: nat,
      r: Result<seq<Segment<F, P>>>)
    requires IsPow2(|p|) && size > 0 && IsPow2(chunkCount) && Log2(chunkCount) < kzg.word
  {
    && (r.Ok? <==> forall i :: 0 <= i < |datas| && datas[i].None? ==> ComputeProofMulti(kzg, p, i, chunkCount, size).Ok?)
    && (r.Ok? ==>
          && |r.value| == |datas|
          && forall i :: 0 <= i < |datas| ==> RecoveredSlot(kzg, p, datas[i], chunkCount, y, size, i, r.value[i]))
  }

  /** The segment in slot i: the row's data, with the proof it had or the one computed for chunk i. */
  ghost predicate RecoveredSlot<F, P>(kzg: KZG<F, P>, p: seq<F>, slot: Option<SegmentData<F, P>>, chunkCount: nat,
      y: nat, size: nat, i: nat, s: Segment<F, P>)
    requires IsPow2(|p|) && size > 0 && IsPow2(chunkCount) && Log2(chunkCount) < kzg.word
  {
    && Offset(i, size, size) <= 2 * |p|
    && s.position == Position(i, y)
    && s.content.data == Chunk(ExtendedRow(kzg.fs, p), i, size)
    && (slot.Some? ==> s.content == slot.value)
    && (slot.None? ==> Ok(s.content.proof) == ComputeProofMulti(kzg, p, i, chunkCount, size))
  }

  lemma {:induction false} RecoverSlotsSucceed<F, P>(kzg: KZG<F, P>, datas: Slots<F, P>, poly: seq<F>, row: seq<F>,
      chunkCount: nat, y: nat, size: nat, i: nat)
    requires IsPow2(chunkCount) && Log2(chunkCount) < kzg.word
    requires size > 0 && |row| == Times(|datas|, size) && i <= |datas|
    ensures var r := RecoverSlots(kzg, datas, poly, row, chunkCount, y, size, i);
      && (r.Ok? <==> forall j :: i <= j < |datas| && datas[j].None? ==> ComputeProofMulti(kzg, poly, j, chunkCount, size).Ok?)
      && (r.Ok? ==> |r.value| == |datas| - i)
    decreases |datas| - i
  {
    if i < |datas| {
      ChunkInRange(i, |datas|, size);
      RecoverSlotsSucceed(kzg, datas, poly, row, chunkCount, y, size, i + 1);
    }
  }

  lemma {:induction false} RecoverSlotsAt<F, P>(kzg: KZG<F, P>, datas: Slots<F, P>, poly: seq<F>, row: seq<F>,
      chunkCount: nat, y: nat, size: nat, i: nat, j: nat)
    requires IsPow2(chunkCount) && Log2(chunkCount) < kzg.word
    requires size > 0 && |row| == Times(|datas|, size) && i <= j < |datas|
    requires RecoverSlots(kzg, datas, poly, row, chunkCount, y, size, i).Ok?
    ensures var r := RecoverSlots(kzg, datas, poly, row, chunkCount, y, size, i).value;
      && |r| > j - i && Offset(j, size, size) <= |row|
      && Ok(r[j - i]) == RecoverSlot(kzg, datas[j], poly, row, chunkCount, y, size, j)
    decreases |datas| - i
  {
    ChunkInRange(i, |datas|, size);
    if i < j {
      RecoverSlotsAt(kzg, datas, poly, row, chunkCount, y, size, i + 1, j);
    }
  }

  /**
   Row recovery: whichever segments of the row of a polynomial are erased, as long as half of them
   remain, `recover_segment_datas` fills every slot with the original data, keeps the segments it
   was given, and fails only if the library cannot compute a missing proof.
   */
  lemma RecoverSegmentDatasCorrect<F(!new), P>(kzg: KZG<F, P>, p: seq<F>, datas: Slots<F, P>, chunkCount: nat, y: nat,
      size: nat)
    requires ValidKZG(kzg)
    requires size > 0 && IsPow2(chunkCount) && Log2(chunkCount) < kzg.word
    requires RowErasure(kzg.fs, p, size, datas) && 2 * |p| <= kzg.fs.maxWidth
    requires |datas| <= 2 * CountSome(datas)
    ensures Recoverable(kzg, datas, chunkCount, size)
    ensures RecoveredRow(kzg, p, datas, chunkCount, y, size, RecoverSegmentDatas(kzg, datas, chunkCount, y, size))
  {
    RecoverSegmentDatasRuns(kzg, p, datas, chunkCount, y, size);
    RecoveredSlots(kzg, p, datas, chunkCount, y, size);
  }

  /** The polynomial is recovered, so the slots are filled from its row. */
  lemma RecoverSegmentDatasRuns<F(!new), P>(kzg: KZG<F, P>, p: seq<F>, datas: Slots<F, P>, chunkCount: nat, y: nat,
      size: nat)
    requires ValidKZG(kzg)
    requires size > 0 && IsPow2(chunkCount) && Log2(chunkCount) < kzg.word
    requires RowErasure(kzg.fs, p, size, datas) && 2 * |p| <= kzg.fs.maxWidth
    requires |datas| <= 2 * CountSome(datas)
    ensures Recoverable(kzg, datas, chunkCount, size)
    ensures RecoverSegmentDatas(kzg, datas, chunkCount, y, size)
         == RecoverSlots(kzg, datas, p, ExtendedRow(kzg.fs, p), chunkCount, y, size, 0)
  {
    var shards := SegmentDatasToRow(datas, size);
    RowErasureIsErasure(kzg.fs, p, size, datas);
    assert |p| <= |Known(shards)| by {
      RowCount(datas, size);
      CountIsKnown(shards);
      HalfKnown(|datas|, CountSome(datas), size, |p|);
    }
    RecoverPolyCorrect(kzg.fs, kzg.recover, p, shards);
  }

  /** What is left of slot i has the data of the row. */
  ghost predicate SlotFits<F, P>(row: seq<F>, size: nat, i: nat, slot: Option<SegmentData<F, P>>) {
    Offset(i, size, size) <= |row| && (slot.Some? ==> slot.value.data == Chunk(row, i, size))
  }

  lemma RecoveredSlotAt<F(!new), P>(kzg: KZG<F, P>, p: seq<F>, datas: Slots<F, P>, row: seq<F>, chunkCount: nat,
      y: nat, size: nat, i: nat, r: seq<Segment<F, P>>)
    requires size > 0 && IsPow2(chunkCount) && Log2(chunkCount) < kzg.word && i < |datas|
    requires IsPow2(|p|) && |row| == Times(|datas|, size) && SlotFits(row, size, i, datas[i])
    requires RecoverSlots(kzg, datas, p, row, chunkCount, y, size, 0) == Ok(r)
    ensures row == ExtendedRow(kzg.fs, p) ==> i < |r| && RecoveredSlot(kzg, p, datas[i], chunkCount, y, size, i, r[i])
  {
    RecoverSlotsAt(kzg, datas, p, row, chunkCount, y, size, 0, i);
    SlotFromRow(kzg, p, row, datas[i], chunkCount, y, size, i, r[i]);
  }

  lemma RecoveredSlots<F(!new), P>(kzg: KZG<F, P>, p: seq<F>, datas: Slots<F, P>, chunkCount: nat, y: nat, size: nat)
    requires size > 0 && IsPow2(chunkCount) && Log2(chunkCount) < kzg.word
    requires RowErasure(kzg.fs, p, size, datas)
    ensures RecoveredRow(kzg, p, datas, chunkCount, y, size,
                         RecoverSlots(kzg, datas, p, ExtendedRow(kzg.fs, p), chunkCount, y, size, 0))
  {
    var row := ExtendedRow(kzg.fs, p);
    var r := RecoverSlots(kzg, datas, p, row, chunkCount, y, size, 0);
    RecoverSlotsSucceed(kzg, datas, p, row, chunkCount, y, size, 0);
    if r.Ok? {
      forall i: nat | i < |datas| ensures RecoveredSlot(kzg, p, datas[i], chunkCount, y, size, i, r.value[i]) {
        ChunkInRange(i, |datas|, size);
        RecoveredSlotAt(kzg, p, datas, row, chunkCount, y, size, i, r.value);
      }
    }
  }

  lemma SlotFromRow<F(!new), P>(kzg: KZG<F, P>, p: seq<F>, row: seq<F>, slot: Option<SegmentData<F, P>>,
      chunkCount: nat, y: nat, size: nat, i: nat, s: Segment<F, P>)
    requires size > 0 && IsPow2(chunkCount) && Log2(chunkCount) < kzg.word
    requires IsPow2(|p|) && SlotFits(row, size, i, slot)
    requires RecoverSlot(kzg, slot, p, row, chunkCount, y, size, i) == Ok(s)
    ensures row == ExtendedRow(kzg.fs, p) ==> RecoveredSlot(kzg, p, slot, chunkCount, y, size, i, s)
  {
  }

  /** The segment is at the position, and is the one that was in the slot if there was one. */
  ghost predicate InSlot<F, P>(slot: Option<SegmentData<F, P>>, s: Segment<F, P>, position: Position) {
    s.position == position && (slot.Some? ==> s.content == slot.value)
  }

  /**
   Whatever it is given, a successful recovery fills slot i with a segment at column i of row y, and
   keeps the data and proofs it was given.
   */
  lemma RecoveredPositions<F(!new), P>(kzg: KZG<F, P>, datas: Slots<F, P>, chunkCount: nat, y: nat, size: nat)
    requires KeepsLength(kzg.recover) && Recoverable(kzg, datas, chunkCount, size)
    requires RecoverSegmentDatas(kzg, datas, chunkCount, y, size).Ok?
    ensures var r := RecoverSegmentDatas(kzg, datas, chunkCount, y, size).value;
            |r| == |datas| && forall i :: 0 <= i < |r| ==> InSlot(datas[i], r[i], Position(i, y))
  {
    var poly, row := RecoveredFrom(kzg, datas, chunkCount, y, size);
    SlotPositions(kzg, datas, poly, row, chunkCount, y, size, 0);
  }

  lemma {:induction false} SlotPositions<F, P>(kzg: KZG<F, P>, datas: Slots<F, P>, poly: seq<F>, row: seq<F>,
      chunkCount: nat, y: nat, size: nat, i: nat)
    requires IsPow2(chunkCount) && Log2(chunkCount) < kzg.word
    requires size > 0 && |row| == Times(|datas|, size) && i <= |datas|
    requires RecoverSlots(kzg, datas, poly, row, chunkCount, y, size, i).Ok?
    ensures var r := RecoverSlots(kzg, datas, poly, row, chunkCount, y, size, i).value;
            |r| == |datas| - i && forall j :: 0 <= j < |r| ==> InSlot(datas[i + j], r[j], Position(i + j, y))
    decreases |datas| - i
  {
    if i < |datas| {
      ChunkInRange(i, |datas|, size);
      SlotPositions(kzg, datas, poly, row, chunkCount, y, size, i + 1);
    }
  }

  lemma RecoveredFrom<F(!new), P>(kzg: KZG<F, P>, datas: Slots<F, P>, chunkCount: nat, y: nat,
      size: nat) returns (poly: seq<F>, row: seq<F>)
    requires KeepsLength(kzg.recover) && Recoverable(kzg, datas, chunkCount, size)
    requires RecoverSegmentDatas(kzg, datas, chunkCount, y, size).Ok?
    ensures |row| == Times(|datas|, size)
    ensures RecoverSegmentDatas(kzg, datas, chunkCount, y, size) == RecoverSlots(kzg, datas, poly, row, chunkCount, y, size, 0)
  {
    RowLength(datas, size);
    var shards := SegmentDatasToRow(datas, size);
    poly := RecoverPoly(kzg.fs, kzg.recover, shards).value;
    row := ExtendPolySpec(kzg.fs, poly).value;
    EvenLength(|shards|, |poly|);
  }

  // ----- recovery from a list of segments -----

  /** The slots that `order_segments_row` fills. */
  function OrderedRow<F, P>(segments: seq<Segment<F, P>>, chunkCount: nat): (r: Slots<F, P>)
    ensures |r| == 2 * chunkCount
  {
    seq(2 * chunkCount, (x: nat) => LastAt(segments, x))
  }

  /** The checks of `recovery_row_from_segments`. */
  ghost predicate RowChecks<F, P>(segments: seq<Segment<F, P>>, chunkCount: nat) {
    && 0 < |segments| <= 2 * chunkCount
    && IsPow2(chunkCount) && IsPow2(segments[0].Size())
    && (forall s :: s in segments ==> s.position.y == segments[0].position.y && s.Size() == segments[0].Size())
  }

  lemma {:induction false} LastAtIsOne<F, P>(segments: seq<Segment<F, P>>, x: nat)
    ensures LastAt(segments, x).Some? ==> Present(segments, x, LastAt(segments, x).value)
    ensures LastAt(segments, x).None? ==> forall s :: s in segments ==> s.position.x != x
  {
    if |segments| > 0 {
      LastAtIsOne(segments[..|segments| - 1], x);
      assert segments == segments[..|segments| - 1] + [segments[|segments| - 1]];
    }
  }

  ghost predicate Present<F, P>(segments: seq<Segment<F, P>>, x: nat, content: SegmentData<F, P>) {
    exists s :: s in segments && s.position.x == x && s.content == content
  }

  /**
   `recovery_row_from_segments`. The code reads the first segment, indexes the slots by x, and
   transforms a full row without checking its length.
   */
  method RecoveryRowFromSegments<F(!new, ==), P>(kzg: KZG<F, P>, segments: seq<Segment<F, P>>, chunkCount: nat)
    returns (r: Result<seq<Segment<F, P>>>)
    requires ValidKZG(kzg)
    requires |segments| > 0 && forall s :: s in segments ==> s.position.x < 2 * chunkCount
    requires RowChecks(segments, chunkCount) ==>
      Recoverable(kzg, OrderedRow(segments, chunkCount), chunkCount, segments[0].Size())
    ensures !RowChecks(segments, chunkCount) ==> r.Err?
    ensures RowChecks(segments, chunkCount) ==>
              r == RecoverSegmentDatas(kzg, OrderedRow(segments, chunkCount), chunkCount, segments[0].position.y,
                                       segments[0].Size())
  {
    var y, size := segments[0].position.y, segments[0].Size();
    if exists i :: 0 <= i < |segments| && segments[i].position.y != y {
      return Err("segments are not from the same row");
    }
    if !IsPow2(size) || !IsPow2(chunkCount) {
      return Err("segment size and chunk_count must be a power of two");
    }
    if exists i :: 0 <= i < |segments| && segments[i].Size() != size {
      return Err("segments are not of the same size");
    }
    var ordered := OrderSegmentsRow(segments, chunkCount);
    if ordered.Err? {
      return Err(ordered.error);
    }
    assert ordered.value == OrderedRow(segments, chunkCount);
    r := RecoverSegmentDatas(kzg, ordered.value, chunkCount, y, size);
  }

  /** Every segment is the one of the row of p at its position. */
  ghost predicate SegmentsOfRow<F, P>(fs: FftSettings<F>, p: seq<F>, size: nat, segments: seq<Segment<F, P>>) {
    && IsPow2(|p|)
    && forall s :: s in segments ==>
         Offset(s.position.x, size, size) <= 2 * |p| && s.content.data == Chunk(ExtendedRow(fs, p), s.position.x, size)
  }

  ghost function Columns<F, P>(segments: seq<Segment<F, P>>): set<nat> {
    set s | s in segments :: s.position.x
  }

  lemma OrderedIsErasure<F(!new), P>(fs: FftSettings<F>, p: seq<F>, segments: seq<Segment<F, P>>, chunkCount: nat,
      size: nat)
    requires SegmentsOfRow(fs, p, size, segments) && Times(2 * chunkCount, size) == 2 * |p|
    ensures RowErasure(fs, p, size, OrderedRow(segments, chunkCount))
  {
    var datas := OrderedRow(segments, chunkCount);
    forall x: nat | x < |datas| && datas[x].Some?
      ensures Offset(x, size, size) <= 2 * |p| && datas[x].value.data == Chunk(ExtendedRow(fs, p), x, size)
    {
      LastAtIsOne(segments, x);
    }
  }

  lemma OrderedCount<F(!new), P>(segments: seq<Segment<F, P>>, chunkCount: nat)
    requires forall s :: s in segments ==> s.position.x < 2 * chunkCount
    ensures CountSome(OrderedRow(segments, chunkCount)) == |Columns(segments)|
  {
    var datas := OrderedRow(segments, chunkCount);
    forall x: nat ensures x in Known(datas) <==> x in Columns(segments) {
      LastAtIsOne(segments, x);
    }
    assert Known(datas) == Columns(segments);
    CountIsKnown(datas);
  }

  /** Segments of the row of p in any order, covering half of its columns, recover the row. */
  lemma RecoveryRowCorrect<F(!new), P>(kzg: KZG<F, P>, p: seq<F>, segments: seq<Segment<F, P>>, chunkCount: nat,
      y: nat, size: nat)
    requires ValidKZG(kzg)
    requires size > 0 && IsPow2(chunkCount) && Log2(chunkCount) < kzg.word
    requires SegmentsOfRow(kzg.fs, p, size, segments)
    requires Times(2 * chunkCount, size) == 2 * |p| <= kzg.fs.maxWidth
    requires forall s :: s in segments ==> s.position.x < 2 * chunkCount
    requires chunkCount <= |Columns(segments)|
    ensures Recoverable(kzg, OrderedRow(segments, chunkCount), chunkCount, size)
    ensures RecoveredRow(kzg, p, OrderedRow(segments, chunkCount), chunkCount, y, size,
                         RecoverSegmentDatas(kzg, OrderedRow(segments, chunkCount), chunkCount, y, size))
  {
    OrderedIsErasure(kzg.fs, p, segments, chunkCount, size);
    OrderedCount(segments, chunkCount);
    RecoverSegmentDatasCorrect(kzg, p, OrderedRow(segments, chunkCount), chunkCount, y, size);
  }

  // ----- recovery from ordered slots -----

  function FirstSome<T>(s: seq<Option<T>>): Option<T> {
    if |s| == 0 then None else if s[0].Some? then s[0] else FirstSome(s[1..])
  }

  function Contents<F, P>(slots: seq<Option<Segment<F, P>>>): (r: Slots<F, P>)
    ensures |r| == |slots|
  {
    seq(|slots|, i requires 0 <= i < |slots| => if slots[i].Some? then Some(slots[i].value.content) else None)
  }

  predicate Uniform<F, P>(slots: seq<Option<Segment<F, P>>>, y: nat, size: nat) {
    forall i :: 0 <= i < |slots| && slots[i].Some? ==> slots[i].value.position.y == y && slots[i].value.Size() == size
  }

  /** The checks of `recovery_order_row_from_segments`. */
  predicate OrderRowChecks<F, P>(slots: seq<Option<Segment<F, P>>>) {
    && IsPow2(|slots|)
    && FirstSome(slots).Some?
    && Uniform(slots, FirstSome(slots).value.position.y, FirstSome(slots).value.Size())
  }

  /** `recovery_order_row_from_segments`: the number of slots is passed on as the chunk count. */
  function RecoveryOrderRow<F(!new, ==), P>(kzg: KZG<F, P>,
      slots: seq<Option<Segment<F, P>>>): Result<seq<Segment<F, P>>>
    requires KeepsLength(kzg.recover)
    requires OrderRowChecks(slots) ==> Recoverable(kzg, Contents(slots), |slots|, FirstSome(slots).value.Size())
  {
    if !IsPow2(|slots|) then Err("segment size and chunk_count must be a power of two")
    else
      match FirstSome(slots)
      case None => Err("no segments provided")
      case Some(first) =>
        var y, size := first.position.y, first.Size();
        if Uniform(slots, y, size) then RecoverSegmentDatas(kzg, Contents(slots), |slots|, y, size)
        else Err("segments are not from the same row or not of the same size")
  }

  lemma {:induction false} FirstSomeIsOne<T>(s: seq<Option<T>>)
    ensures FirstSome(s).Some? <==> CountSome(s) > 0
    ensures FirstSome(s).Some? ==> exists i :: 0 <= i < |s| && s[i] == FirstSome(s)
  {
    if |s| > 0 && s[0].None? {
      FirstSomeIsOne(s[1..]);
      if FirstSome(s).Some? {
        var i :| 0 <= i < |s[1..]| && s[1..][i] == FirstSome(s[1..]);
        assert s[i + 1] == FirstSome(s);
      }
    }
  }

  /** Two slots that are filled have segments of the same row and size. */
  ghost predicate Alike<F, P>(slots: seq<Option<Segment<F, P>>>, i: nat, j: nat)
    requires i < |slots| && j < |slots|
  {
    slots[i].Some? && slots[j].Some? ==>
      slots[i].value.position.y == slots[j].value.position.y && slots[i].value.Size() == slots[j].value.Size()
  }

  /**
   The checks pass exactly if the number of slots is a power of two, at least one is filled, and all
   segments are of one row and one size; otherwise the recovery fails.
   */
  lemma OrderRowChecksExactly<F(!new), P>(kzg: KZG<F, P>, slots: seq<Option<Segment<F, P>>>)
    requires KeepsLength(kzg.recover)
    ensures OrderRowChecks(slots) <==>
      && IsPow2(|slots|) && CountSome(slots) > 0
      && forall i: nat, j: nat :: i < |slots| && j < |slots| ==> Alike(slots, i, j)
    ensures !OrderRowChecks(slots) ==> RecoveryOrderRow(kzg, slots).Err?
  {
    FirstSomeIsOne(slots);
    if FirstSome(slots).Some? {
      var k :| 0 <= k < |slots| && slots[k] == FirstSome(slots);
      if forall i: nat, j: nat :: i < |slots| && j < |slots| ==> Alike(slots, i, j) {
        forall i | 0 <= i < |slots| && slots[i].Some?
          ensures slots[i].value.position.y == slots[k].value.position.y && slots[i].value.Size() == slots[k].value.Size()
        {
          assert Alike(slots, i, k);
        }
      }
    }
  }

  lemma {:induction false} ContentsCount<F, P>(slots: seq<Option<Segment<F, P>>>)
    ensures CountSome(Contents(slots)) == CountSome(slots)
  {
    if |slots| > 0 {
      ContentsCount(slots[1..]);
      assert Contents(slots)[1..] == Contents(slots[1..]);
    }
  }

  /**
   The slots of a row of p, half of them filled, recover the whole row. The data is the original
   data; `Kzg.ExtendedWidthIndex` says for which slots the recomputed proof is the chunk's own.
   */
  lemma RecoveryOrderRowCorrect<F(!new), P>(kzg: KZG<F, P>, p: seq<F>, slots: seq<Option<Segment<F, P>>>, y: nat,
      size: nat)
    requires ValidKZG(kzg)
    requires size > 0 && IsPow2(|slots|) && Log2(|slots|) < kzg.word
    requires RowErasure(kzg.fs, p, size, Contents(slots)) && 2 * |p| <= kzg.fs.maxWidth
    requires Uniform(slots, y, size)
    requires |slots| <= 2 * CountSome(slots)
    ensures OrderRowChecks(slots) ==> Recoverable(kzg, Contents(slots), |slots|, FirstSome(slots).value.Size())
    ensures RecoveredRow(kzg, p, Contents(slots), |slots|, y, size, RecoveryOrderRow(kzg, slots))
  {
    FirstSomeIsOne(slots);
    ContentsCount(slots);
    RecoverSegmentDatasCorrect(kzg, p, Contents(slots), |slots|, y, size);
  }
}
