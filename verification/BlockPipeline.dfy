/**
 From fetched values to parity segments: what a node makes of a block whose rows it could fetch in
 part, when the checks it runs on single segments are sound.
 */
module BlockPipeline {
  import opened Wrappers
  import opened Algebra
  import opened Bits
  import opened Dft
  import opened ErasureCoding
  import opened Kzg
  import opened Segments
  import opened Recovery
  import opened Linearity
  import opened ExtendCol
  import opened RowAssembly

  /** The block: k rows given by polynomials with n coefficients, each in `width` segments of `size` scalars. */
  ghost predicate BlockShape<F(!new), P>(kzg: KZG<F, P>, ps: seq<seq<F>>, n: nat, width: nat, size: nat) {
    && ValidKZG(kzg)
    && Rectangular(ps, n) && IsPow2(n) && 2 * n <= kzg.fs.maxWidth
    && IsPow2(width) && width > 1 && IsPow2(size) && Times(width, size) == 2 * n
    && forall w :: 0 <= w <= width ==> RowFits(kzg, w)
  }

  /**
   The check of single segments is sound: data that it accepts for column x of row y, of whatever
   size, open to the polynomial of the row at that size. Nothing in the check fixes the size.
   */
  ghost predicate SoundChecker<V, C(!new), F(!new), P(!new)>(kzg: KZG<F, P>, ch: Checker<V, C, F, P>,
      commitments: seq<C>, ps: seq<seq<F>>, width: nat)
    requires IsPow2(width / 2) && Log2(width / 2) < kzg.word
  {
    && |commitments| == |ps|
    && forall x: nat, y: nat, d: SegmentData<F, P> ::
         x < width && y < |ps| && IsPow2(|d.data|) && ch.proves(commitments[y], Position(x, y), d) ==>
           Opens(kzg, ps[y], width / 2, x, d.data)
  }

  /** The block, and a sound check of its segments. */
  ghost predicate CheckedBlock<V, C(!new), F(!new), P(!new)>(kzg: KZG<F, P>, ch: Checker<V, C, F, P>,
      commitments: seq<C>, ps: seq<seq<F>>, n: nat, width: nat, size: nat) {
    && BlockShape(kzg, ps, n, width, size)
    && IsPow2(width / 2) && Log2(width / 2) < kzg.word && SoundChecker(kzg, ch, commitments, ps, width)
  }

  /** Every segment present has the size. */
  ghost predicate RightSizes<F, P>(slots: seq<Option<Segment<F, P>>>, size: nat) {
    forall x: nat :: x < |slots| && slots[x].Some? ==> slots[x].value.Size() == size
  }

  ghost predicate HasRowData<F, P>(fs: FftSettings<F>, p: seq<F>, size: nat, x: nat, slot: Option<Segment<F, P>>) {
    && IsPow2(|p|) && Offset(x, size, size) <= 2 * |p|
    && slot.Some? && slot.value.content.data == Chunk(ExtendedRow(fs, p), x, size)
  }

  ghost predicate RowCarries<F, P>(fs: FftSettings<F>, p: seq<F>, size: nat, width: nat,
      slots: seq<Option<Segment<F, P>>>) {
    |slots| == width && forall x: nat :: x < width ==> HasRowData(fs, p, size, x, slots[x])
  }

  /** A verified segment of the right size carries its chunk of the row. */
  lemma VerifiedChunk<V, C(!new), F(!new), P(!new)>(kzg: KZG<F, P>, ch: Checker<V, C, F, P>, commitments: seq<C>,
      ps: seq<seq<F>>, n: nat, width: nat, size: nat, row: seq<Option<seq<V>>>, y: nat, x: nat)
    requires CheckedBlock(kzg, ch, commitments, ps, n, width, size) && y < |ps| && |row| == width && x < width
    requires VerifiedRow(ch, row, y, commitments[y])[x].Some?
    ensures var slot := VerifiedRow(ch, row, y, commitments[y])[x];
      && slot.value.position == Position(x, y)
      && (slot.value.Size() == size ==> HasRowData(kzg.fs, ps[y], size, x, slot))
  {
    VerifiedSlots(ch, row, y, commitments[y], x);
    var d := VerifiedRow(ch, row, y, commitments[y])[x].value.content;
    assert Opens(kzg, ps[y], width / 2, x, d.data);
    if |d.data| == size {
      HalfWidth(width, size, n);
      OpensIsChunk(kzg, ps[y], width / 2, size, x, d.data);
    }
  }

  lemma HalfWidth(width: nat, size: nat, n: nat)
    requires width % 2 == 0 && Times(width, size) == 2 * n
    ensures n == (width / 2) * size && width == 2 * (width / 2)
  {
    TimesTwice(width / 2, size);
    TimesIsProduct(width / 2, size);
  }

  /** Verified slots of the right size are an erasure of the row. */
  lemma VerifiedErasure<V, C(!new), F(!new), P(!new)>(kzg: KZG<F, P>, ch: Checker<V, C, F, P>, commitments: seq<C>,
      ps: seq<seq<F>>, n: nat, width: nat, size: nat, row: seq<Option<seq<V>>>, y: nat)
    requires CheckedBlock(kzg, ch, commitments, ps, n, width, size) && y < |ps| && |row| == width
    requires RightSizes(VerifiedRow(ch, row, y, commitments[y]), size)
    ensures var slots := VerifiedRow(ch, row, y, commitments[y]);
      && RowErasure(kzg.fs, ps[y], size, Contents(slots)) && Uniform(slots, y, size)
      && forall x: nat :: x < width && slots[x].Some? ==> HasRowData(kzg.fs, ps[y], size, x, slots[x])
  {
    var slots := VerifiedRow(ch, row, y, commitments[y]);
    forall x: nat | x < width && slots[x].Some?
      ensures HasRowData(kzg.fs, ps[y], size, x, slots[x]) && slots[x].value.position.y == y
    {
      VerifiedChunk(kzg, ch, commitments, ps, n, width, size, row, y, x);
    }
  }

  lemma SizedRowRecovers<V, C(!new), F(!new), P(!new)>(kzg: KZG<F, P>, ch: Checker<V, C, F, P>, commitments: seq<C>,
      ps: seq<seq<F>>, n: nat, width: nat, size: nat, row: seq<Option<seq<V>>>, y: nat)
    requires CheckedBlock(kzg, ch, commitments, ps, n, width, size) && y < |ps| && |row| == width
    requires RowHandler(kzg, ch, row, y, commitments[y]).1
    requires RightSizes(VerifiedRow(ch, row, y, commitments[y]), size)
    ensures RowCarries(kzg.fs, ps[y], size, width, RowHandler(kzg, ch, row, y, commitments[y]).0)
  {
    var slots := VerifiedRow(ch, row, y, commitments[y]);
    VerifiedErasure(kzg, ch, commitments, ps, n, width, size, row, y);
    CountAtMost(slots);
    AvailableRowIsFull(kzg, ch, row, y, commitments[y]);
    if CountSome(slots) < width {
      assert RowFits(kzg, width);
      RecoveryOrderRowCorrect(kzg, ps[y], slots, y, size);
    }
  }

  /**
   A row reported available carries the data of the row in every slot exactly if every segment that
   was verified has the size of the row's segments.
   */
  lemma RowDataRecovered<V, C(!new), F(!new), P(!new)>(kzg: KZG<F, P>, ch: Checker<V, C, F, P>, commitments: seq<C>,
      ps: seq<seq<F>>, n: nat, width: nat, size: nat, row: seq<Option<seq<V>>>, y: nat)
    requires CheckedBlock(kzg, ch, commitments, ps, n, width, size) && y < |ps| && |row| == width
    requires RowHandler(kzg, ch, row, y, commitments[y]).1
    ensures RowCarries(kzg.fs, ps[y], size, width, RowHandler(kzg, ch, row, y, commitments[y]).0)
       <==> RightSizes(VerifiedRow(ch, row, y, commitments[y]), size)
  {
    var slots, out := VerifiedRow(ch, row, y, commitments[y]), RowHandler(kzg, ch, row, y, commitments[y]).0;
    if RightSizes(slots, size) {
      SizedRowRecovers(kzg, ch, commitments, ps, n, width, size, row, y);
    }
    if RowCarries(kzg.fs, ps[y], size, width, out) {
      forall x: nat | x < |slots| && slots[x].Some? ensures slots[x].value.Size() == size {
        VerifiedIsKept(kzg, ch, row, y, commitments[y], x);
        assert HasRowData(kzg.fs, ps[y], size, x, out[x]);
      }
    }
  }

  /**
   With a sound check and segments of the right size, a row is reported available exactly if right
   values were fetched for half of its columns and the proofs of the other ones can be computed.
   */
  lemma AvailableExactly<V, C(!new), F(!new), P(!new)>(kzg: KZG<F, P>, ch: Checker<V, C, F, P>, commitments: seq<C>,
      ps: seq<seq<F>>, n: nat, width: nat, size: nat, row: seq<Option<seq<V>>>, y: nat)
    requires CheckedBlock(kzg, ch, commitments, ps, n, width, size) && y < |ps| && |row| == width
    requires RightSizes(VerifiedRow(ch, row, y, commitments[y]), size)
    ensures Log2(width) < kzg.word
    ensures var found := Found(ch, row, y, commitments[y]);
      RowHandler(kzg, ch, row, y, commitments[y]).1 <==>
        && width <= 2 * |found|
        && forall x: nat :: x < width && x !in found ==> ComputeProofMulti(kzg, ps[y], x, width, size).Ok?
  {
    var slots := VerifiedRow(ch, row, y, commitments[y]);
    assert RowFits(kzg, width);
    RowAvailableExactly(kzg, ch, row, y, commitments[y]);
    VerifiedIsFound(ch, row, y, commitments[y]);
    if width <= 2 * CountSome(slots) {
      if CountSome(slots) < width {
        VerifiedErasure(kzg, ch, commitments, ps, n, width, size, row, y);
        RecoveryOrderRowCorrect(kzg, ps[y], slots, y, size);
        forall x: nat | x < width ensures x !in Found(ch, row, y, commitments[y]) <==> Contents(slots)[x].None? {
        }
      } else {
        CountAtMost(slots);
      }
    }
  }

  /** The columns of row y for which a right value is among the fetched ones. */
  ghost function FoundIn<V, C, F(!new), P(!new)>(ch: Checker<V, C, F, P>, values: seq<Option<seq<V>>>, width: nat,
      y: nat, commitment: C): set<nat>
    requires Offset(y, width, width) <= |values|
  {
    set x: nat | x < width && values[Offset(y, width, x)].Some?
                 && !NoneRight(ch, values[Offset(y, width, x)].value, commitment, Position(x, y),
                               |values[Offset(y, width, x)].value|)
  }

  lemma FoundInRow<V, C, F(!new), P(!new)>(ch: Checker<V, C, F, P>, values: seq<Option<seq<V>>>, width: nat,
      y: nat, commitment: C)
    requires width > 0 && Offset(y, width, width) <= |values|
    ensures Found(ch, RowOf(values, width, y), y, commitment) == FoundIn(ch, values, width, y, commitment)
  {
    RowOfIs(values, width, y);
  }

  /** Right values were fetched for half of row y, and the proofs of the other columns can be computed. */
  ghost predicate RowObtained<V, C, F(!new), P(!new)>(kzg: KZG<F, P>, ch: Checker<V, C, F, P>,
      values: seq<Option<seq<V>>>, commitment: C, p: seq<F>, width: nat, size: nat, y: nat)
    requires Offset(y, width, width) <= |values| && IsPow2(width) && Log2(width) < kzg.word && size > 0
  {
    var found := FoundIn(ch, values, width, y, commitment);
    && width <= 2 * |found|
    && forall x: nat :: x < width && x !in found ==> ComputeProofMulti(kzg, p, x, width, size).Ok?
  }

  /**
   A fetched block is reported available exactly if that is so for every one of its rows. Entry
   y * width + x of the fetched values is the one of column x of row y.
   */
  lemma BlockAvailableExactly<V, C(!new), F(!new), P(!new)>(kzg: KZG<F, P>, ch: Checker<V, C, F, P>,
      commitments: seq<C>, ps: seq<seq<F>>, n: nat, width: nat, size: nat, values: seq<Option<seq<V>>>)
    requires CheckedBlock(kzg, ch, commitments, ps, n, width, size)
    requires RowsFit(kzg, values, commitments, width) && |values| == Times(|ps|, width)
    requires BlockSizes(ch, values, commitments, width, size)
    ensures Log2(width) < kzg.word && forall y: nat :: y < |ps| ==> Offset(y, width, width) <= |values|
    ensures Assembled(kzg, ch, values, commitments, width).1 <==>
      forall y: nat :: y < |ps| ==> RowObtained(kzg, ch, values, commitments[y], ps[y], width, size, y)
  {
    assert RowFits(kzg, width);
    var rows := Handled(kzg, ch, values, commitments, width);
    RowsOfBlock(|ps|, width, |values|);
    JoinedAvailable(rows);
    forall y: nat | y < |ps|
      ensures Offset(y, width, width) <= |values|
      ensures rows[y].1 <==> RowObtained(kzg, ch, values, commitments[y], ps[y], width, size, y)
    {
      ChunkInRange(y, |ps|, width);
      RowOfIs(values, width, y);
      FoundInRow(ch, values, width, y, commitments[y]);
      AvailableExactly(kzg, ch, commitments, ps, n, width, size, RowOf(values, width, y), y);
    }
  }

  lemma RowsOfBlock(count: nat, width: nat, n: nat)
    requires width > 0 && n == Times(count, width)
    ensures RowNum(n, width) == count
  {
    RowNumExact(n, width, count);
    if count > 0 {
      RowNumExact(n, width, count - 1);
      TimesMonotone(count - 1, count, width);
    }
  }

  /** The strictest sound check: it accepts exactly the openings. The commitment is the polynomial. */
  ghost function StrictChecker<F(!new), P>(kzg: KZG<F, P>, count: nat): Checker<SegmentData<F, P>, seq<F>, F, P>
    requires IsPow2(count) && Log2(count) < kzg.word
  {
    Checker((d: SegmentData<F, P>) => Some(d),
            (poly: seq<F>, position: Position, d: SegmentData<F, P>) => Opens(kzg, poly, count, position.x, d.data))
  }

  /**
   Even the strictest sound check accepts, for every row and every other power-of-two size, segments
   of that size in every column. The row of them is reported available, and no slot carries the
   data of the row.
   */
  lemma WrongSizeRow<F(!new), P(!new)>(kzg: KZG<F, P>, ps: seq<seq<F>>, n: nat, width: nat, size: nat, other: nat,
      y: nat, proof: P) returns (row: seq<Option<seq<SegmentData<F, P>>>>)
    requires BlockShape(kzg, ps, n, width, size) && y < |ps| && IsPow2(other) && other != size
    ensures IsPow2(width / 2) && Log2(width / 2) < kzg.word
    ensures CheckedBlock(kzg, StrictChecker(kzg, width / 2), ps, ps, n, width, size)
    ensures |row| == width
    ensures var (slots, available) := RowHandler(kzg, StrictChecker(kzg, width / 2), row, y, ps[y]);
      && available && |slots| == width
      && forall x: nat :: x < width ==>
           slots[x].Some? && slots[x].value.Size() == other && !HasRowData(kzg.fs, ps[y], size, x, slots[x])
  {
    assert RowFits(kzg, width / 2);
    var count, ch := width / 2, StrictChecker(kzg, width / 2);
    row := seq(width, (x: nat) => Some([SegmentData(Opening(kzg, ps[y], count, x, other), proof)]));
    var slots := VerifiedRow(ch, row, y, ps[y]);
    forall x: nat | x < width ensures slots[x].Some? && slots[x].value.Size() == other {
      OpeningOpens(kzg, ps[y], count, x, other);
    }
    CountAtMost(slots);
  }

  /** A column that holds the segments of column x of the rows, in row order. */
  ghost predicate ColumnOfRows<F, P>(fs: FftSettings<F>, ps: seq<seq<F>>, size: nat, x: nat, col: seq<Segment<F, P>>) {
    && |col| == |ps|
    && forall r :: 0 <= r < |ps| ==> col[r].position == Position(x, r) && HasRowData(fs, ps[r], size, x, Some(col[r]))
  }

  /** Every segment that was verified in the rows of the block has the size. */
  ghost predicate BlockSizes<V, C, F, P>(ch: Checker<V, C, F, P>, values: seq<Option<seq<V>>>, commitments: seq<C>,
      width: nat, size: nat)
    requires width > 0
  {
    forall r: nat :: r < |commitments| && Offset(r, width, width) <= |values| ==>
      RightSizes(VerifiedRow(ch, RowOf(values, width, r), r, commitments[r]), size)
  }

  /** The slot of column x and row r of available rows carries its data if the verified sizes are right. */
  lemma SlotData<V, C(!new), F(!new), P(!new)>(kzg: KZG<F, P>, ch: Checker<V, C, F, P>, commitments: seq<C>,
      ps: seq<seq<F>>, n: nat, width: nat, size: nat, values: seq<Option<seq<V>>>, x: nat, r: nat)
    requires CheckedBlock(kzg, ch, commitments, ps, n, width, size)
    requires RowsFit(kzg, values, commitments, width) && |values| == Times(|ps|, width) && x < width && r < |ps|
    requires Assembled(kzg, ch, values, commitments, width).1 && BlockSizes(ch, values, commitments, width, size)
    ensures SlotCarries(kzg.fs, ps[r], size, width, Assembled(kzg, ch, values, commitments, width).0, x, r)
  {
    BelowTimes(r, |ps|, x, width);
    ChunkInRange(r, |ps|, width);
    AssembledSlot(kzg, ch, values, commitments, width, r, x);
    SizedRowRecovers(kzg, ch, commitments, ps, n, width, size, RowOf(values, width, r), r);
  }

  /** A verified segment is found in its slot of the assembled rows. */
  lemma VerifiedSlotKept<V, C, F(!new), P>(kzg: KZG<F, P>, ch: Checker<V, C, F, P>, commitments: seq<C>, width: nat,
      values: seq<Option<seq<V>>>, x: nat, r: nat)
    requires RowsFit(kzg, values, commitments, width) && Assembled(kzg, ch, values, commitments, width).1
    requires r < |commitments| && Offset(r, width, width) <= |values| && x < width
    requires VerifiedRow(ch, RowOf(values, width, r), r, commitments[r])[x].Some?
    ensures Offset(r, width, x) < |Assembled(kzg, ch, values, commitments, width).0|
    ensures Assembled(kzg, ch, values, commitments, width).0[Offset(r, width, x)]
         == VerifiedRow(ch, RowOf(values, width, r), r, commitments[r])[x]
  {
    AssembledSlot(kzg, ch, values, commitments, width, r, x);
    VerifiedIsKept(kzg, ch, RowOf(values, width, r), r, commitments[r], x);
  }

  /** If all assembled segments have the size, the verified ones have. */
  lemma SizesFromSlots<V, C, F(!new), P>(kzg: KZG<F, P>, ch: Checker<V, C, F, P>, commitments: seq<C>, width: nat,
      size: nat, values: seq<Option<seq<V>>>)
    requires RowsFit(kzg, values, commitments, width) && Assembled(kzg, ch, values, commitments, width).1
    requires forall r: nat, x: nat :: r < |commitments| && x < width && Offset(r, width, width) <= |values| ==>
      SizeAt(Assembled(kzg, ch, values, commitments, width).0, width, r, x, size)
    ensures BlockSizes(ch, values, commitments, width, size)
  {
    var all := Assembled(kzg, ch, values, commitments, width).0;
    forall r: nat, x: nat | r < |commitments| && Offset(r, width, width) <= |values| && x < width
        && VerifiedRow(ch, RowOf(values, width, r), r, commitments[r])[x].Some?
      ensures VerifiedRow(ch, RowOf(values, width, r), r, commitments[r])[x].value.Size() == size
    {
      VerifiedSlotKept(kzg, ch, commitments, width, values, x, r);
      assert SizeAt(all, width, r, x, size);
    }
  }

  ghost predicate SizeAt<F, P>(all: seq<Option<Segment<F, P>>>, width: nat, r: nat, x: nat, size: nat) {
    Offset(r, width, x) < |all| ==> all[Offset(r, width, x)].Some? ==> all[Offset(r, width, x)].value.Size() == size
  }

  ghost predicate ColumnCarries<F, P>(fs: FftSettings<F>, ps: seq<seq<F>>, size: nat, width: nat,
      all: seq<Option<Segment<F, P>>>, x: nat)
    requires width > 0
  {
    FullCol(all, x, width).Ok? && ColumnOfRows(fs, ps, size, x, FullCol(all, x, width).value)
  }

  /**
   From values to columns: of rows that are reported available, every column as `full_col` returns it
   holds the segments of that column of the rows, in row order, exactly if every segment that was
   verified has the right size.
   */
  lemma ColumnData<V, C(!new), F(!new), P(!new)>(kzg: KZG<F, P>, ch: Checker<V, C, F, P>, commitments: seq<C>,
      ps: seq<seq<F>>, n: nat, width: nat, size: nat, values: seq<Option<seq<V>>>)
    requires CheckedBlock(kzg, ch, commitments, ps, n, width, size)
    requires RowsFit(kzg, values, commitments, width) && |values| == Times(|ps|, width)
    requires Assembled(kzg, ch, values, commitments, width).1
    ensures (forall x: nat :: x < width ==>
              ColumnCarries(kzg.fs, ps, size, width, Assembled(kzg, ch, values, commitments, width).0, x))
       <==> BlockSizes(ch, values, commitments, width, size)
  {
    var all := Assembled(kzg, ch, values, commitments, width).0;
    AvailableRowsAreFull(kzg, ch, values, commitments, width);
    if BlockSizes(ch, values, commitments, width, size) {
      forall x: nat | x < width ensures ColumnCarries(kzg.fs, ps, size, width, all, x) {
        forall r: nat | r < |ps| ensures SlotCarries(kzg.fs, ps[r], size, width, all, x, r) {
          SlotData(kzg, ch, commitments, ps, n, width, size, values, x, r);
        }
        GridColumn(kzg.fs, ps, size, width, all, x);
      }
    }
    if forall x: nat :: x < width ==> ColumnCarries(kzg.fs, ps, size, width, all, x) {
      forall r: nat, x: nat | r < |commitments| && x < width && Offset(r, width, width) <= |values|
        ensures SizeAt(all, width, r, x, size)
      {
        assert ColumnCarries(kzg.fs, ps, size, width, all, x);
        ColumnOfGrid(all, width, |ps|, x);
        assert HasRowData(kzg.fs, ps[r], size, x, Some(FullCol(all, x, width).value[r]));
      }
      SizesFromSlots(kzg, ch, commitments, width, size, values);
    }
  }

  ghost predicate SlotCarries<F, P>(fs: FftSettings<F>, p: seq<F>, size: nat, width: nat,
      all: seq<Option<Segment<F, P>>>, x: nat, r: nat) {
    Offset(r, width, x) < |all| && HasRowData(fs, p, size, x, all[Offset(r, width, x)])
  }

  lemma GridColumn<F, P>(fs: FftSettings<F>, ps: seq<seq<F>>, size: nat, width: nat, all: seq<Option<Segment<F, P>>>,
      x: nat)
    requires width > 0 && |all| == Times(|ps|, width) && FullGrid(all, width) && x < width
    requires forall r: nat :: r < |ps| ==> SlotCarries(fs, ps[r], size, width, all, x, r)
    ensures FullCol(all, x, width).Ok? && ColumnOfRows(fs, ps, size, x, FullCol(all, x, width).value)
  {
    ColumnOfGrid(all, width, |ps|, x);
    forall r | 0 <= r < |ps| ensures HasRowData(fs, ps[r], size, x, Some(FullCol(all, x, width).value[r])) {
      assert SlotCarries(fs, ps[r], size, width, all, x, r);
    }
  }

  /** The parity segments of a column of rows carry the data of the rows of the parity polynomials. */
  lemma ColumnSizes<F, P>(fs: FftSettings<F>, ps: seq<seq<F>>, size: nat, x: nat, col: seq<Segment<F, P>>)
    requires ColumnOfRows(fs, ps, size, x, col)
    ensures SizedRows(col, size)
  {
    forall r | 0 <= r < |col| ensures |col[r].content.data| == size {
      assert HasRowData(fs, ps[r], size, x, Some(col[r]));
    }
  }

  lemma ParityDataAt<F(!new), P>(fs: FftSettings<F>, ps: seq<seq<F>>, n: nat, size: nat, x: nat,
      col: seq<Segment<F, P>>, i: nat, j: nat)
    requires IsField(fs.field) && Rectangular(ps, n) && IsPow2(n) && j < size && i < |ps|
    requires ColumnOfRows(fs, ps, size, x, col) && SizedRows(col, size)
    ensures Offset(x, size, j) < 2 * n
    ensures Parity(fs, Scalars(fs.field), ColumnScalars(col, j))[i] ==
            ExtendedRow(fs, ParityPoly(fs, ps, n, i))[Offset(x, size, j)]
  {
    forall r | 0 <= r < |col|
      ensures Offset(x, size, j) < 2 * n && ColumnScalars(col, j)[r] == ExtendedRow(fs, ps[r])[Offset(x, size, j)]
    {
      assert HasRowData(fs, ps[r], size, x, Some(col[r]));
    }
    assert HasRowData(fs, ps[0], size, x, Some(col[0]));
    ParityOfRows(fs, ps, n, i, Offset(x, size, j), ColumnScalars(col, j));
  }

  lemma ParityData<F(!new), G(!new)>(fs: FftSettings<F>, m: Module<F, G>, ps: seq<seq<F>>, n: nat, size: nat, x: nat,
      col: seq<Segment<F, G>>, i: nat)
    requires IsField(fs.field) && Rectangular(ps, n) && IsPow2(n) && size > 0
    requires i < |ps| && ColumnOfRows(fs, ps, size, x, col)
    ensures SizedRows(col, size) && CarriesParity(fs, ps, n, size, x, i, ParitySegments(fs, m, col)[i])
  {
    ColumnSizes(fs, ps, size, x, col);
    assert HasRowData(fs, ps[0], size, x, Some(col[0]));
    var data := ParitySegments(fs, m, col)[i].content.data;
    forall j | 0 <= j < size ensures data[j] == Chunk(ExtendedRow(fs, ParityPoly(fs, ps, n, i)), x, size)[j] {
      ParityDataAt(fs, ps, n, size, x, col, i, j);
    }
  }

  /** The segment is the one of column x of the row of the i-th parity polynomial. */
  ghost predicate CarriesParity<F, G>(fs: FftSettings<F>, ps: seq<seq<F>>, n: nat, size: nat, x: nat, i: nat,
      s: Segment<F, G>)
    requires Rectangular(ps, n) && i < |ps|
  {
    s.position == Position(x, |ps| + i) && HasRowData(fs, ParityPoly(fs, ps, n, i), size, x, Some(s))
  }

  lemma ColumnOfRowsIsColumn<F, P>(fs: FftSettings<F>, ps: seq<seq<F>>, size: nat, x: nat, col: seq<Segment<F, P>>)
    requires IsPow2(|ps|) && IsPow2(size) && ColumnOfRows(fs, ps, size, x, col)
    ensures IsColumn(col) && InRowOrder(col, col)
  {
    forall r | 0 <= r < |col| ensures col[r].position.x == x && |col[r].content.data| == size {
      assert HasRowData(fs, ps[r], size, x, Some(col[r]));
    }
    assert Rows(col) == Range(|col|);
    RearrangedColumn(col, col, x, size);
  }

  /** Column x passes the checks of `extend_segments_col`, and its parity segments carry the rows of the parity polynomials. */
  ghost predicate ColumnExtends<F, G>(fs: FftSettings<F>, m: Module<F, G>, ps: seq<seq<F>>, n: nat, width: nat,
      size: nat, all: seq<Option<Segment<F, G>>>, x: nat)
    requires Rectangular(ps, n) && width > 0
  {
    && FullCol(all, x, width).Ok?
    && var col := FullCol(all, x, width).value;
       && |col| == |ps| && IsColumn(col) && InRowOrder(col, col) && SizedRows(col, col[0].Size())
       && forall i: nat :: i < |ps| ==> CarriesParity(fs, ps, n, size, x, i, ParitySegments(fs, m, col)[i])
  }

  lemma ColumnExtendsIfCarries<F(!new), G(!new)>(fs: FftSettings<F>, m: Module<F, G>, ps: seq<seq<F>>, n: nat,
      width: nat, size: nat, all: seq<Option<Segment<F, G>>>, x: nat)
    requires IsField(fs.field) && Rectangular(ps, n) && IsPow2(n) && IsPow2(|ps|) && IsPow2(size) && width > 0
    requires ColumnCarries(fs, ps, size, width, all, x)
    ensures ColumnExtends(fs, m, ps, n, width, size, all, x)
  {
    var col := FullCol(all, x, width).value;
    ColumnOfRowsIsColumn(fs, ps, size, x, col);
    ParityData(fs, m, ps, n, size, x, col, 0);
    forall i: nat | i < |ps| ensures CarriesParity(fs, ps, n, size, x, i, ParitySegments(fs, m, col)[i]) {
      ParityData(fs, m, ps, n, size, x, col, i);
    }
  }

  /** Parity segments of the right size come from segments of the right size. */
  lemma ExtendedColumnSize<F(!new), G(!new)>(fs: FftSettings<F>, m: Module<F, G>, ps: seq<seq<F>>, n: nat, width: nat,
      size: nat, all: seq<Option<Segment<F, G>>>, x: nat, r: nat)
    requires Rectangular(ps, n) && width > 0 && r < |ps|
    requires ColumnExtends(fs, m, ps, n, width, size, all, x)
    ensures FullCol(all, x, width).value[r].Size() == size
  {
    var col := FullCol(all, x, width).value;
    assert CarriesParity(fs, ps, n, size, x, 0, ParitySegments(fs, m, col)[0]);
  }

  /**
   From values to parity: every column of the available rows passes the checks of
   `extend_segments_col`, with parity segments that carry the data of the rows of the parity
   polynomials, exactly if every segment that was verified has the right size.
   */
  lemma FetchedBlockExtends<V, C(!new), F(!new), G(!new)>(kzg: KZG<F, G>, m: Module<F, G>, ch: Checker<V, C, F, G>,
      commitments: seq<C>, ps: seq<seq<F>>, n: nat, width: nat, size: nat, values: seq<Option<seq<V>>>)
    requires CheckedBlock(kzg, ch, commitments, ps, n, width, size) && IsPow2(|ps|)
    requires RowsFit(kzg, values, commitments, width) && |values| == Times(|ps|, width)
    requires Assembled(kzg, ch, values, commitments, width).1
    ensures (forall x: nat :: x < width ==>
              ColumnExtends(kzg.fs, m, ps, n, width, size, Assembled(kzg, ch, values, commitments, width).0, x))
       <==> BlockSizes(ch, values, commitments, width, size)
  {
    var all := Assembled(kzg, ch, values, commitments, width).0;
    if BlockSizes(ch, values, commitments, width, size) {
      ColumnData(kzg, ch, commitments, ps, n, width, size, values);
      forall x: nat | x < width ensures ColumnExtends(kzg.fs, m, ps, n, width, size, all, x) {
        assert ColumnCarries(kzg.fs, ps, size, width, all, x);
        ColumnExtendsIfCarries(kzg.fs, m, ps, n, width, size, all, x);
      }
    }
    if forall x: nat :: x < width ==> ColumnExtends(kzg.fs, m, ps, n, width, size, all, x) {
      AvailableRowsAreFull(kzg, ch, values, commitments, width);
      forall r: nat, x: nat | r < |commitments| && x < width && Offset(r, width, width) <= |values|
        ensures SizeAt(all, width, r, x, size)
      {
        assert ColumnExtends(kzg.fs, m, ps, n, width, size, all, x);
        ExtendedColumnSize(kzg.fs, m, ps, n, width, size, all, x, r);
        ColumnOfGrid(all, width, |ps|, x);
      }
      SizesFromSlots(kzg, ch, commitments, width, size, values);
    }
  }
}
