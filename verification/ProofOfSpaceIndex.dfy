/**
 The farmer's index equals a naive join: after any sequence of saves the stored pairs are exactly
 the pairs of saved cells with equal nonzero y at neighbouring offsets.
 */
module ProofOfSpaceIndex {
  import opened Sequences
  import opened Wrappers
  import opened Encoding
  import opened ProofOfSpace

  datatype Cell = Cell(meta: CellMetadata, seg: Segment)

  function Y(f: Farmer, c: Cell): U32 {
    CalculateY(f, c.seg)
  }

  /** The new cell c and the older cell d go together. */
  predicate Joins(f: Farmer, c: Cell, d: Cell) {
    Y(f, c) == Y(f, d) != 0 && FromU32(d.meta.offset) == Counterpart(c.meta.offset)
  }

  function ZOf(f: Farmer, c: Cell, d: Cell): U16 {
    PairZ(f, c.meta.offset, c.seg, d.seg)
  }

  // ----- the tables that the saved cells should give -----

  /** The cells at a position with a given y, in the order they were saved. */
  function YTable(f: Farmer, cells: seq<Cell>, pos: YPos, y: U32): seq<Cell> {
    if |cells| == 0 then []
    else
      var c := cells[|cells| - 1];
      YTable(f, cells[..|cells| - 1], pos, y) + if FromU32(c.meta.offset) == pos && Y(f, c) == y then [c] else []
  }

  function Metas(cells: seq<Cell>): (r: seq<CellMetadata>)
    ensures |r| == |cells|
  {
    seq(|cells|, i requires 0 <= i < |cells| => cells[i].meta)
  }

  function Partners(f: Farmer, cells: seq<Cell>, c: Cell): seq<Cell> {
    if Y(f, c) == 0 then [] else YTable(f, cells, Counterpart(c.meta.offset), Y(f, c))
  }

  function NewPairs(f: Farmer, c: Cell, partners: seq<Cell>, z: U16): seq<Pair> {
    if |partners| == 0 then []
    else (if ZOf(f, c, partners[0]) == z then [(c.meta, partners[0].meta)] else []) + NewPairs(f, c, partners[1..], z)
  }

  function ZTable(f: Farmer, cells: seq<Cell>, z: U16): seq<Pair> {
    if |cells| == 0 then []
    else
      var before, c := cells[..|cells| - 1], cells[|cells| - 1];
      ZTable(f, before, z) + NewPairs(f, c, Partners(f, before, c), z)
  }

  ghost predicate DistinctCells(cells: seq<Cell>) {
    forall i, j :: 0 <= i < j < |cells| ==> cells[i].meta != cells[j].meta
  }

  lemma {:induction false} YTableMember(f: Farmer, cells: seq<Cell>, pos: YPos, y: U32, c: Cell)
    ensures c in YTable(f, cells, pos, y) <==> c in cells && FromU32(c.meta.offset) == pos && Y(f, c) == y
  {
    if |cells| > 0 {
      var n := |cells| - 1;
      YTableMember(f, cells[..n], pos, y, c);
      assert cells == cells[..n] + [cells[n]];
    }
  }

  lemma {:induction false} YTableDistinct(f: Farmer, cells: seq<Cell>, pos: YPos, y: U32)
    requires DistinctCells(cells)
    ensures DistinctCells(YTable(f, cells, pos, y))
  {
    if |cells| > 0 {
      var n := |cells| - 1;
      var t := YTable(f, cells[..n], pos, y);
      YTableDistinct(f, cells[..n], pos, y);
      forall i | 0 <= i < |t| ensures t[i].meta != cells[n].meta {
        YTableMember(f, cells[..n], pos, y, t[i]);
        var j :| 0 <= j < n && cells[..n][j] == t[i];
      }
    }
  }

  lemma YTableIsFilter(f: Farmer, cells: seq<Cell>, pos: YPos, y: U32)
    ensures forall c :: c in YTable(f, cells, pos, y) <==> c in cells && FromU32(c.meta.offset) == pos && Y(f, c) == y
    ensures DistinctCells(cells) ==> DistinctCells(YTable(f, cells, pos, y))
  {
    forall c ensures c in YTable(f, cells, pos, y) <==> c in cells && FromU32(c.meta.offset) == pos && Y(f, c) == y {
      YTableMember(f, cells, pos, y, c);
    }
    if DistinctCells(cells) {
      YTableDistinct(f, cells, pos, y);
    }
  }

  lemma PartnersAreJoined(f: Farmer, cells: seq<Cell>, c: Cell)
    ensures forall d :: d in Partners(f, cells, c) <==> d in cells && Joins(f, c, d)
    ensures DistinctCells(cells) ==> DistinctCells(Partners(f, cells, c))
  {
    YTableIsFilter(f, cells, Counterpart(c.meta.offset), Y(f, c));
  }

  lemma {:induction false} NewPairsAre(f: Farmer, c: Cell, partners: seq<Cell>, z: U16, p: Pair)
    ensures p in NewPairs(f, c, partners, z)
       <==> p.0 == c.meta && exists d :: d in partners && d.meta == p.1 && ZOf(f, c, d) == z
  {
    if |partners| > 0 {
      NewPairsAre(f, c, partners[1..], z, p);
      assert partners == [partners[0]] + partners[1..];
    }
  }

  /**
   Cell a is at an even offset and b at the next one; the cipher gives the same number, not 0, for the
   first scalars of their segments; and the segments hash to z.
   */
  predicate GoTogether(f: Farmer, z: U16, a: Cell, b: Cell) {
    && a.meta.offset % 2 == 0 && b.meta.offset == a.meta.offset + 1
    && |a.seg.content.data| > 0 && |b.seg.content.data| > 0
    && f.cipher(a.seg.content.data[0]) == f.cipher(b.seg.content.data[0]) != 0
    && f.hash(a.seg, b.seg) == z
  }

  lemma JoinsExactly(f: Farmer, z: U16, c: Cell, d: Cell)
    ensures Joins(f, c, d) && ZOf(f, c, d) == z <==> GoTogether(f, z, c, d) || GoTogether(f, z, d, c)
  {
  }

  /** Cell j was saved after cell i and the two go together under z. */
  ghost predicate JoinedAt(f: Farmer, cells: seq<Cell>, z: U16, p: Pair, i: nat, j: nat) {
    && i < j < |cells|
    && p == (cells[j].meta, cells[i].meta)
    && (GoTogether(f, z, cells[i], cells[j]) || GoTogether(f, z, cells[j], cells[i]))
  }

  ghost predicate Joined(f: Farmer, cells: seq<Cell>, z: U16, p: Pair) {
    exists i: nat, j: nat :: JoinedAt(f, cells, z, p, i, j)
  }

  /** A join of one more cell is a join of the cells before it, or of it with one of them. */
  lemma JoinedSnoc(f: Farmer, before: seq<Cell>, c: Cell, z: U16, p: Pair)
    ensures Joined(f, before + [c], z, p) <==>
              Joined(f, before, z, p)
              || (p.0 == c.meta && exists d :: d in before && Joins(f, c, d) && d.meta == p.1 && ZOf(f, c, d) == z)
  {
    var cells, n := before + [c], |before|;
    forall i: nat, j: nat | j < n ensures JoinedAt(f, cells, z, p, i, j) <==> JoinedAt(f, before, z, p, i, j) {
    }
    if Joined(f, before, z, p) {
      var i: nat, j: nat :| JoinedAt(f, before, z, p, i, j);
      assert JoinedAt(f, cells, z, p, i, j);
    }
    if p.0 == c.meta && exists d :: d in before && Joins(f, c, d) && d.meta == p.1 && ZOf(f, c, d) == z {
      var d :| d in before && Joins(f, c, d) && d.meta == p.1 && ZOf(f, c, d) == z;
      var i :| 0 <= i < n && before[i] == d;
      JoinsExactly(f, z, c, d);
      assert JoinedAt(f, cells, z, p, i, n);
    }
    if Joined(f, cells, z, p) && !Joined(f, before, z, p) {
      var i: nat, j: nat :| JoinedAt(f, cells, z, p, i, j);
      assert j == n;
      JoinsExactly(f, z, c, before[i]);
      assert before[i] in before;
    }
  }

  /** The table of pairs is the join of the cells with themselves. */
  lemma {:induction false} ZTableIsJoin(f: Farmer, cells: seq<Cell>, z: U16, p: Pair)
    ensures p in ZTable(f, cells, z) <==> Joined(f, cells, z, p)
  {
    if |cells| > 0 {
      var n := |cells| - 1;
      var before, c := cells[..n], cells[n];
      ZTableIsJoin(f, before, z, p);
      PartnersAreJoined(f, before, c);
      NewPairsAre(f, c, Partners(f, before, c), z, p);
      assert cells == before + [c];
      JoinedSnoc(f, before, c, z, p);
    }
  }

  lemma {:induction false} NewPairsDistinct(f: Farmer, c: Cell, partners: seq<Cell>, z: U16)
    requires DistinctCells(partners)
    ensures Distinct(NewPairs(f, c, partners, z))
  {
    if |partners| > 0 {
      var rest := NewPairs(f, c, partners[1..], z);
      NewPairsDistinct(f, c, partners[1..], z);
      NewPairsAre(f, c, partners[1..], z, (c.meta, partners[0].meta));
      assert (c.meta, partners[0].meta) !in rest;
    }
  }

  /** No pair is stored twice. */
  lemma {:induction false} ZTableDistinct(f: Farmer, cells: seq<Cell>, z: U16)
    requires DistinctCells(cells)
    ensures Distinct(ZTable(f, cells, z))
  {
    if |cells| > 0 {
      var n := |cells| - 1;
      var before, c := cells[..n], cells[n];
      ZTableDistinct(f, before, z);
      PartnersAreJoined(f, before, c);
      NewPairsDistinct(f, c, Partners(f, before, c), z);
      var prior, added := ZTable(f, before, z), NewPairs(f, c, Partners(f, before, c), z);
      forall i, j | 0 <= i < |prior| && 0 <= j < |added| ensures prior[i] != added[j] {
        assert prior[i] in prior && added[j] in added;
        ZTableIsJoin(f, before, z, prior[i]);
        NewPairsAre(f, c, Partners(f, before, c), z, added[j]);
      }
    }
  }

  // ----- the database holds these tables -----

  ghost predicate IsPieceKey(pieces: seq<Piece>, k: Key) {
    exists p :: p in pieces && k == PieceKey(p.metadata)
  }

  ghost predicate PiecesStored(db: Db, pieces: seq<Piece>) {
    forall p :: p in pieces ==> PieceKey(p.metadata) in db && db[PieceKey(p.metadata)] == PieceValue(p)
  }

  ghost predicate YStored(f: Farmer, db: Db, pieces: seq<Piece>, cells: seq<Cell>) {
    forall pos, y :: !IsPieceKey(pieces, YKey(pos, y)) ==> YEntry(f, db, cells, pos, y)
  }

  ghost predicate YEntry(f: Farmer, db: Db, cells: seq<Cell>, pos: YPos, y: U32) {
    var t := if y == 0 then [] else YTable(f, cells, pos, y);
    if |t| == 0 then YKey(pos, y) !in db else YKey(pos, y) in db && db[YKey(pos, y)] == CellsValue(Metas(t))
  }

  ghost predicate ZStored(f: Farmer, db: Db, cells: seq<Cell>) {
    ZDecodes(db) && forall z :: PairsAt(db, z) == ZTable(f, cells, z)
  }

  ghost predicate ZDecodes(db: Db) {
    forall z :: ZKey(z) in db ==> db[ZKey(z)].PairsValue?
  }

  /** Every cell is a segment of a piece that is stored. */
  ghost predicate CellsOfPieces(pieces: seq<Piece>, cells: seq<Cell>) {
    forall c :: c in cells ==> CellOfPieces(pieces, c)
  }

  ghost predicate CellOfPieces(pieces: seq<Piece>, c: Cell) {
    exists p :: p in pieces && p.metadata == c.meta.piece && c.meta.offset < |p.segments| && p.segments[c.meta.offset] == c.seg
  }

  /** The y entries that saving the cell touches do not fall on a piece: its own, if y is not 0, and its counterpart's. */
  ghost predicate Clear(f: Farmer, pieces: seq<Piece>, c: Cell) {
    && (Y(f, c) != 0 ==> !IsPieceKey(pieces, YKey(FromU32(c.meta.offset), Y(f, c))))
    && !IsPieceKey(pieces, YKey(Counterpart(c.meta.offset), Y(f, c)))
  }

  lemma CellFound(f: Farmer, db: Db, pieces: seq<Piece>, c: Cell)
    requires PiecesStored(db, pieces) && CellOfPieces(pieces, c)
    ensures GetCell(f, db, c.meta) == Ok(Some(c.seg))
  {
  }

  /** The z table is written at two-byte keys only. */
  ghost predicate SameNineByteKeys(a: Db, b: Db) {
    forall k :: |k| == 9 ==> (k in a <==> k in b) && (k in a ==> a[k] == b[k])
  }

  lemma ZSaveEffect(db: Db, z: U16, pair: Pair)
    requires pair !in PairsAt(db, z)
    ensures SameNineByteKeys(db, ZSave(db, z, pair))
    ensures ZDecodes(db) ==> ZDecodes(ZSave(db, z, pair))
    ensures forall x :: PairsAt(ZSave(db, z, pair), x) == PairsAt(db, x) + if x == z then [pair] else []
  {
    forall x ensures PairsAt(ZSave(db, z, pair), x) == PairsAt(db, x) + if x == z then [pair] else [] {
      ZKeyInjective(z, x);
    }
  }

  lemma SameCells(f: Farmer, a: Db, b: Db, m: CellMetadata)
    requires SameNineByteKeys(a, b)
    ensures GetCell(f, a, m) == GetCell(f, b, m)
  {
    assert |PieceKey(m.piece)| == 9;
  }

  /** The partners' segments are stored and no pair of c with one of them is. */
  ghost predicate Unpaired(f: Farmer, db: Db, c: Cell, partners: seq<Cell>) {
    && ZDecodes(db) && DistinctCells(partners)
    && (forall d :: d in partners ==> GetCell(f, db, d.meta) == Ok(Some(d.seg)))
    && (forall d, z :: d in partners ==> (c.meta, d.meta) !in PairsAt(db, z))
  }

  lemma UnpairedRest(f: Farmer, db: Db, c: Cell, partners: seq<Cell>, next: Db)
    requires |partners| > 0 && Unpaired(f, db, c, partners)
    requires next == ZSave(db, ZOf(f, c, partners[0]), (c.meta, partners[0].meta))
    ensures Unpaired(f, next, c, partners[1..]) && SameNineByteKeys(db, next)
  {
    var d, rest := partners[0], partners[1..];
    assert d in partners;
    ZSaveEffect(db, ZOf(f, c, d), (c.meta, d.meta));
    forall e | e in rest ensures e in partners && e.meta != d.meta {
      var i :| 0 <= i < |rest| && rest[i] == e;
      assert partners[i + 1] == e;
    }
    forall e | e in rest ensures GetCell(f, next, e.meta) == Ok(Some(e.seg)) {
      SameCells(f, db, next, e.meta);
    }
  }

  lemma FirstPairAdded(f: Farmer, db: Db, c: Cell, partners: seq<Cell>, next: Db, z: U16)
    requires |partners| > 0 && (c.meta, partners[0].meta) !in PairsAt(db, ZOf(f, c, partners[0]))
    requires next == ZSave(db, ZOf(f, c, partners[0]), (c.meta, partners[0].meta))
    ensures PairsAt(next, z) + NewPairs(f, c, partners[1..], z) == PairsAt(db, z) + NewPairs(f, c, partners, z)
  {
    var pair := (c.meta, partners[0].meta);
    ZSaveEffect(db, ZOf(f, c, partners[0]), pair);
    ConcatAssoc(PairsAt(db, z), if ZOf(f, c, partners[0]) == z then [pair] else [], NewPairs(f, c, partners[1..], z));
  }

  /** Saving the first match leaves the others to be saved. */
  lemma SaveMatchesUnfolds(f: Farmer, db: Db, c: Cell, partners: seq<Cell>)
    requires |partners| > 0 && GetCell(f, db, partners[0].meta) == Ok(Some(partners[0].seg))
    ensures SaveMatches(f, db, c.meta, c.seg, Metas(partners))
         == SaveMatches(f, ZSave(db, ZOf(f, c, partners[0]), (c.meta, partners[0].meta)), c.meta, c.seg, Metas(partners[1..]))
  {
    assert Metas(partners)[1..] == Metas(partners[1..]) && Metas(partners)[0] == partners[0].meta;
  }

  /** What saving the matches did: only the lists of pairs have changed, by the new pairs. */
  ghost predicate PairsAdded(f: Farmer, db: Db, c: Cell, partners: seq<Cell>, r: Db) {
    && SameNineByteKeys(db, r) && ZDecodes(r)
    && forall z :: PairsAt(r, z) == PairsAt(db, z) + NewPairs(f, c, partners, z)
  }

  /** Saving the pairs of a new cell adds them, in order, to the lists of their z. */
  lemma {:induction false} SaveMatchesCorrect(f: Farmer, db: Db, c: Cell, partners: seq<Cell>)
    requires Unpaired(f, db, c, partners)
    ensures SaveMatches(f, db, c.meta, c.seg, Metas(partners)).Ok?
    ensures PairsAdded(f, db, c, partners, SaveMatches(f, db, c.meta, c.seg, Metas(partners)).value)
    decreases |partners|
  {
    if |partners| > 0 {
      assert partners[0] in partners;
      var next := ZSave(db, ZOf(f, c, partners[0]), (c.meta, partners[0].meta));
      SaveMatchesUnfolds(f, db, c, partners);
      UnpairedRest(f, db, c, partners, next);
      SaveMatchesCorrect(f, next, c, partners[1..]);
      var r := SaveMatches(f, next, c.meta, c.seg, Metas(partners[1..])).value;
      forall z ensures PairsAt(r, z) == PairsAt(db, z) + NewPairs(f, c, partners, z) {
        FirstPairAdded(f, db, c, partners, next, z);
      }
    }
  }

  // ----- saving a cell -----

  ghost predicate Indexed(f: Farmer, db: Db, pieces: seq<Piece>, cells: seq<Cell>) {
    && PiecesStored(db, pieces) && YStored(f, db, pieces, cells) && ZStored(f, db, cells)
    && CellsOfPieces(pieces, cells) && DistinctCells(cells)
  }

  lemma YTableSnoc(f: Farmer, cells: seq<Cell>, c: Cell, pos: YPos, y: U32)
    ensures YTable(f, cells + [c], pos, y)
         == YTable(f, cells, pos, y) + if FromU32(c.meta.offset) == pos && Y(f, c) == y then [c] else []
  {
    assert (cells + [c])[..|cells|] == cells;
  }

  lemma YEntrySaved(f: Farmer, db: Db, cells: seq<Cell>, c: Cell, pos: YPos, x: U32)
    requires Y(f, c) != 0 ==> YEntry(f, db, cells, FromU32(c.meta.offset), Y(f, c))
    requires YEntry(f, db, cells, pos, x)
    ensures YSave(f, db, c.meta, Y(f, c)).Ok?
    ensures YEntry(f, YSave(f, db, c.meta, Y(f, c)).value, cells + [c], pos, x)
  {
    var own, y := FromU32(c.meta.offset), Y(f, c);
    YTableSnoc(f, cells, c, pos, x);
    YKeyInjective(own, y, pos, x);
    assert Metas(YTable(f, cells, own, y) + [c]) == Metas(YTable(f, cells, own, y)) + [c.meta];
    assert YTable(f, cells, pos, x) + [] == YTable(f, cells, pos, x);
  }

  lemma YSaveCorrect(f: Farmer, db: Db, pieces: seq<Piece>, cells: seq<Cell>, c: Cell)
    requires PiecesStored(db, pieces) && YStored(f, db, pieces, cells)
    requires Y(f, c) != 0 ==> !IsPieceKey(pieces, YKey(FromU32(c.meta.offset), Y(f, c)))
    ensures YSave(f, db, c.meta, Y(f, c)).Ok?
    ensures PiecesStored(YSave(f, db, c.meta, Y(f, c)).value, pieces)
    ensures YStored(f, YSave(f, db, c.meta, Y(f, c)).value, pieces, cells + [c])
    ensures forall z :: PairsAt(YSave(f, db, c.meta, Y(f, c)).value, z) == PairsAt(db, z)
    ensures ZDecodes(db) ==> ZDecodes(YSave(f, db, c.meta, Y(f, c)).value)
  {
    var own, y := FromU32(c.meta.offset), Y(f, c);
    assert y != 0 ==> YEntry(f, db, cells, own, y);
    var r := YSave(f, db, c.meta, y).value;
    forall pos, x | !IsPieceKey(pieces, YKey(pos, x)) ensures YEntry(f, r, cells + [c], pos, x) {
      YEntrySaved(f, db, cells, c, pos, x);
    }
    forall p | p in pieces ensures PieceKey(p.metadata) in r && r[PieceKey(p.metadata)] == PieceValue(p) {
      assert IsPieceKey(pieces, PieceKey(p.metadata));
    }
  }

  lemma MatchCellsCorrect(f: Farmer, db: Db, pieces: seq<Piece>, cells: seq<Cell>, c: Cell)
    requires YStored(f, db, pieces, cells + [c]) && !IsPieceKey(pieces, YKey(Counterpart(c.meta.offset), Y(f, c)))
    ensures MatchCells(f, db, c.meta.offset, Y(f, c)) == Ok(Metas(Partners(f, cells, c)))
  {
    var pos, y := Counterpart(c.meta.offset), Y(f, c);
    assert YEntry(f, db, cells + [c], pos, y);
    YTableSnoc(f, cells, c, pos, y);
    assert YTable(f, cells, pos, y) + [] == YTable(f, cells, pos, y);
    if |Partners(f, cells, c)| == 0 {
      assert Metas(Partners(f, cells, c)) == [];
    }
  }

  lemma PartnersUnpaired(f: Farmer, db: Db, pieces: seq<Piece>, cells: seq<Cell>, c: Cell)
    requires PiecesStored(db, pieces) && CellsOfPieces(pieces, cells) && DistinctCells(cells)
    requires ZStored(f, db, cells)
    requires forall d :: d in cells ==> d.meta != c.meta
    ensures Unpaired(f, db, c, Partners(f, cells, c))
  {
    PartnersAreJoined(f, cells, c);
    forall d | d in Partners(f, cells, c) ensures GetCell(f, db, d.meta) == Ok(Some(d.seg)) {
      CellFound(f, db, pieces, d);
    }
    forall d, z | d in Partners(f, cells, c) ensures (c.meta, d.meta) !in PairsAt(db, z) {
      var p := (c.meta, d.meta);
      ZTableIsJoin(f, cells, z, p);
      assert PairsAt(db, z) == ZTable(f, cells, z);
      forall i: nat, j: nat ensures !JoinedAt(f, cells, z, p, i, j) {
        assert j < |cells| ==> cells[j] in cells;
      }
    }
  }

  lemma StoredAtNineBytes(f: Farmer, a: Db, b: Db, pieces: seq<Piece>, cells: seq<Cell>)
    requires SameNineByteKeys(a, b) && PiecesStored(a, pieces) && YStored(f, a, pieces, cells)
    ensures PiecesStored(b, pieces) && YStored(f, b, pieces, cells)
  {
    forall pos, y | !IsPieceKey(pieces, YKey(pos, y)) ensures YEntry(f, b, cells, pos, y) {
      assert YEntry(f, a, cells, pos, y);
      assert |YKey(pos, y)| == 9;
    }
    forall p | p in pieces ensures PieceKey(p.metadata) in b && b[PieceKey(p.metadata)] == PieceValue(p) {
      assert |PieceKey(p.metadata)| == 9;
    }
  }

  lemma ZTableSnoc(f: Farmer, cells: seq<Cell>, c: Cell, z: U16)
    ensures ZTable(f, cells + [c], z) == ZTable(f, cells, z) + NewPairs(f, c, Partners(f, cells, c), z)
  {
    assert (cells + [c])[..|cells|] == cells;
  }

  lemma ClearCellSaved(f: Farmer, db: Db, pieces: seq<Piece>, cells: seq<Cell>, c: Cell)
    requires Indexed(f, db, pieces, cells)
    requires CellOfPieces(pieces, c) && Clear(f, pieces, c)
    requires forall d :: d in cells ==> d.meta != c.meta
    ensures SaveCell(f, db, c.meta, c.seg).Ok?
    ensures Indexed(f, SaveCell(f, db, c.meta, c.seg).value, pieces, cells + [c])
  {
    YSaveCorrect(f, db, pieces, cells, c);
    var mid := YSave(f, db, c.meta, Y(f, c)).value;
    MatchCellsCorrect(f, mid, pieces, cells, c);
    assert ZStored(f, mid, cells);
    PartnersUnpaired(f, mid, pieces, cells, c);
    SaveMatchesCorrect(f, mid, c, Partners(f, cells, c));
    var r := SaveMatches(f, mid, c.meta, c.seg, Metas(Partners(f, cells, c))).value;
    assert SaveCell(f, db, c.meta, c.seg) == Ok(r);
    StoredAtNineBytes(f, mid, r, pieces, cells + [c]);
    forall z ensures PairsAt(r, z) == ZTable(f, cells + [c], z) {
      ZTableSnoc(f, cells, c, z);
    }
  }

  /** A y entry that falls on a piece which does not decode as a list of cells makes the save fail. */
  lemma OccupiedCellFails(f: Farmer, db: Db, pieces: seq<Piece>, cells: seq<Cell>, c: Cell)
    requires PiecesStored(db, pieces) && YStored(f, db, pieces, cells) && !Clear(f, pieces, c) && Unreadable(f, pieces)
    ensures SaveCell(f, db, c.meta, c.seg).Err?
  {
    var own, y := FromU32(c.meta.offset), Y(f, c);
    if y != 0 && IsPieceKey(pieces, YKey(own, y)) {
      OccupiedKey(f, db, pieces, YKey(own, y));
    } else {
      YSaveCorrect(f, db, pieces, cells, c);
      OccupiedKey(f, YSave(f, db, c.meta, y).value, pieces, YKey(Counterpart(c.meta.offset), y));
    }
  }

  lemma OccupiedKey(f: Farmer, db: Db, pieces: seq<Piece>, k: Key)
    requires PiecesStored(db, pieces) && IsPieceKey(pieces, k) && Unreadable(f, pieces)
    ensures k in db && ReadCells(f, db[k]).None?
  {
  }

  /**
   Saving one more cell succeeds if its y entries are clear, and keeps the index equal to the tables;
   if no piece decodes as a list of cells it succeeds in no other case.
   */
  lemma SaveCellExactly(f: Farmer, db: Db, pieces: seq<Piece>, cells: seq<Cell>, c: Cell)
    requires Indexed(f, db, pieces, cells) && CellOfPieces(pieces, c)
    requires forall d :: d in cells ==> d.meta != c.meta
    ensures Clear(f, pieces, c) ==>
              SaveCell(f, db, c.meta, c.seg).Ok? && Indexed(f, SaveCell(f, db, c.meta, c.seg).value, pieces, cells + [c])
    ensures Unreadable(f, pieces) ==> (SaveCell(f, db, c.meta, c.seg).Ok? <==> Clear(f, pieces, c))
  {
    if Clear(f, pieces, c) {
      ClearCellSaved(f, db, pieces, cells, c);
    } else if Unreadable(f, pieces) {
      OccupiedCellFails(f, db, pieces, cells, c);
    }
  }

  // ----- saving pieces -----

  function CellsOf(p: Piece): (r: seq<Cell>)
    requires |p.segments| < 0x1_0000_0000
    ensures |r| == |p.segments|
  {
    seq(|p.segments|, (i: nat) requires i < |p.segments| => Cell(CellMetadata(p.metadata, i), p.segments[i]))
  }

  ghost predicate Sized(pieces: seq<Piece>) {
    forall i :: 0 <= i < |pieces| ==> |pieces[i].segments| < 0x1_0000_0000
  }

  /** All cells of the pieces, in the order in which they are saved. */
  function AllCells(pieces: seq<Piece>): seq<Cell>
    requires Sized(pieces)
  {
    if |pieces| == 0 then [] else AllCells(pieces[..|pieces| - 1]) + CellsOf(pieces[|pieces| - 1])
  }

  /** The database after saving the pieces in order. */
  function SaveAll(f: Farmer, pieces: seq<Piece>): Result<Db>
    requires Sized(pieces)
  {
    if |pieces| == 0 then Ok(map[]) else
    var db :- SaveAll(f, pieces[..|pieces| - 1]);
    SavePiece(f, db, pieces[|pieces| - 1])
  }

  /** Pieces of which no two are for the same row or column of a block. */
  ghost predicate DistinctPieces(pieces: seq<Piece>) {
    && Sized(pieces)
    && forall i, j :: 0 <= i < j < |pieces| ==> pieces[i].metadata != pieces[j].metadata
  }

  ghost predicate ClearFrom(f: Farmer, pieces: seq<Piece>, piece: Piece, i: nat)
    requires |piece.segments| < 0x1_0000_0000
  {
    forall j :: i <= j < |piece.segments| ==> Clear(f, pieces, CellsOf(piece)[j])
  }

  /** Piece k, when it is saved, is clear of itself and of the pieces saved before. */
  ghost predicate PieceClear(f: Farmer, pieces: seq<Piece>, k: nat)
    requires Sized(pieces) && k < |pieces|
  {
    ClearFrom(f, pieces[..k + 1], pieces[k], 0)
  }

  ghost predicate AllClear(f: Farmer, pieces: seq<Piece>)
    requires Sized(pieces)
  {
    forall k: nat :: k < |pieces| ==> PieceClear(f, pieces, k)
  }

  /** No piece decodes as a list of cells. */
  ghost predicate Unreadable(f: Farmer, pieces: seq<Piece>) {
    forall p :: p in pieces ==> f.asCells(p).None?
  }

  lemma NewPiece(f: Farmer, db: Db, pieces: seq<Piece>, piece: Piece, cells: seq<Cell>)
    requires Indexed(f, db, pieces, cells)
    requires forall p :: p in pieces ==> p.metadata != piece.metadata
    ensures Indexed(f, db[PieceKey(piece.metadata) := PieceValue(piece)], pieces + [piece], cells)
  {
    var more, r := pieces + [piece], db[PieceKey(piece.metadata) := PieceValue(piece)];
    forall p | p in more ensures PieceKey(p.metadata) in r && r[PieceKey(p.metadata)] == PieceValue(p) {
      PieceKeyInjective(p.metadata, piece.metadata);
    }
    forall pos, y | !IsPieceKey(more, YKey(pos, y)) ensures YEntry(f, r, cells, pos, y) {
      assert piece in more;
      assert !IsPieceKey(pieces, YKey(pos, y)) by {
        forall p | p in pieces ensures YKey(pos, y) != PieceKey(p.metadata) {
          assert p in more;
        }
      }
      assert YEntry(f, db, cells, pos, y);
    }
    forall c | c in cells ensures CellOfPieces(more, c) {
      var p :| p in pieces && p.metadata == c.meta.piece && c.meta.offset < |p.segments| && p.segments[c.meta.offset] == c.seg;
      assert p in more;
    }
    forall z ensures PairsAt(r, z) == ZTable(f, cells, z) {
      assert PairsAt(db, z) == ZTable(f, cells, z);
      assert ZKey(z) != PieceKey(piece.metadata);
    }
  }

  /** The next cell of the piece is none of those saved before. */
  lemma NewCell(piece: Piece, cells: seq<Cell>, i: nat)
    requires i < |piece.segments| < 0x1_0000_0000
    requires forall c :: c in cells ==> c.meta.piece != piece.metadata
    ensures forall d :: d in cells + CellsOf(piece)[..i] ==> d.meta != CellsOf(piece)[i].meta
  {
    var all := CellsOf(piece);
    forall d | d in cells + all[..i] ensures d.meta != all[i].meta {
      if d in all[..i] {
        var j :| 0 <= j < i && all[..i][j] == d;
      }
    }
  }

  lemma SaveCellStep(f: Farmer, db: Db, pieces: seq<Piece>, piece: Piece, cells: seq<Cell>, i: nat, c: Cell)
    requires i < |piece.segments| < 0x1_0000_0000 && piece in pieces && c == CellsOf(piece)[i]
    requires Indexed(f, db, pieces, cells + CellsOf(piece)[..i])
    requires forall d :: d in cells ==> d.meta.piece != piece.metadata
    ensures Clear(f, pieces, c) ==>
              && SaveCell(f, db, c.meta, c.seg).Ok?
              && Indexed(f, SaveCell(f, db, c.meta, c.seg).value, pieces, cells + CellsOf(piece)[..i + 1])
    ensures Unreadable(f, pieces) ==> (SaveCell(f, db, c.meta, c.seg).Ok? <==> Clear(f, pieces, c))
  {
    var all := CellsOf(piece);
    NewCell(piece, cells, i);
    assert CellOfPieces(pieces, c);
    SaveCellExactly(f, db, pieces, cells + all[..i], c);
    assert (cells + all[..i]) + [c] == cells + all[..i + 1];
  }

  lemma {:induction false} SaveClearCells(f: Farmer, db: Db, pieces: seq<Piece>, piece: Piece, cells: seq<Cell>, i: nat)
    requires i <= |piece.segments| < 0x1_0000_0000 && piece in pieces
    requires Indexed(f, db, pieces, cells + CellsOf(piece)[..i])
    requires forall c :: c in cells ==> c.meta.piece != piece.metadata
    requires ClearFrom(f, pieces, piece, i)
    ensures SaveCells(f, db, piece, i).Ok?
    ensures Indexed(f, SaveCells(f, db, piece, i).value, pieces, cells + CellsOf(piece))
    decreases |piece.segments| - i
  {
    if i == |piece.segments| {
      assert CellsOf(piece)[..i] == CellsOf(piece);
    } else {
      var c := CellsOf(piece)[i];
      SaveCellStep(f, db, pieces, piece, cells, i, c);
      SaveClearCells(f, SaveCell(f, db, c.meta, c.seg).value, pieces, piece, cells, i + 1);
    }
  }

  lemma {:induction false} SaveOccupiedCells(f: Farmer, db: Db, pieces: seq<Piece>, piece: Piece, cells: seq<Cell>,
      i: nat)
    requires i <= |piece.segments| < 0x1_0000_0000 && piece in pieces
    requires Indexed(f, db, pieces, cells + CellsOf(piece)[..i])
    requires forall c :: c in cells ==> c.meta.piece != piece.metadata
    requires Unreadable(f, pieces) && !ClearFrom(f, pieces, piece, i)
    ensures SaveCells(f, db, piece, i).Err?
    decreases |piece.segments| - i
  {
    var c := CellsOf(piece)[i];
    SaveCellStep(f, db, pieces, piece, cells, i, c);
    if Clear(f, pieces, c) {
      SaveOccupiedCells(f, SaveCell(f, db, c.meta, c.seg).value, pieces, piece, cells, i + 1);
    }
  }

  /** The cells of the piece from i on. */
  lemma SaveCellsExactly(f: Farmer, db: Db, pieces: seq<Piece>, piece: Piece, cells: seq<Cell>, i: nat)
    requires i <= |piece.segments| < 0x1_0000_0000 && piece in pieces
    requires Indexed(f, db, pieces, cells + CellsOf(piece)[..i])
    requires forall c :: c in cells ==> c.meta.piece != piece.metadata
    ensures ClearFrom(f, pieces, piece, i) ==>
              && SaveCells(f, db, piece, i).Ok?
              && Indexed(f, SaveCells(f, db, piece, i).value, pieces, cells + CellsOf(piece))
    ensures Unreadable(f, pieces) ==> (SaveCells(f, db, piece, i).Ok? <==> ClearFrom(f, pieces, piece, i))
  {
    if ClearFrom(f, pieces, piece, i) {
      SaveClearCells(f, db, pieces, piece, cells, i);
    } else if Unreadable(f, pieces) {
      SaveOccupiedCells(f, db, pieces, piece, cells, i);
    }
  }

  lemma SavePieceExactly(f: Farmer, db: Db, pieces: seq<Piece>, piece: Piece, cells: seq<Cell>)
    requires Indexed(f, db, pieces, cells) && |piece.segments| < 0x1_0000_0000
    requires forall p :: p in pieces ==> p.metadata != piece.metadata
    ensures ClearFrom(f, pieces + [piece], piece, 0) ==>
              SavePiece(f, db, piece).Ok? && Indexed(f, SavePiece(f, db, piece).value, pieces + [piece], cells + CellsOf(piece))
    ensures Unreadable(f, pieces + [piece]) ==> (SavePiece(f, db, piece).Ok? <==> ClearFrom(f, pieces + [piece], piece, 0))
  {
    NewPiece(f, db, pieces, piece, cells);
    assert cells + CellsOf(piece)[..0] == cells;
    forall c | c in cells ensures c.meta.piece != piece.metadata {
      assert CellOfPieces(pieces, c);
    }
    SaveCellsExactly(f, db[PieceKey(piece.metadata) := PieceValue(piece)], pieces + [piece], piece, cells, 0);
  }

  lemma AllClearSnoc(f: Farmer, pieces: seq<Piece>)
    requires Sized(pieces) && |pieces| > 0
    ensures AllClear(f, pieces) <==> AllClear(f, pieces[..|pieces| - 1]) && ClearFrom(f, pieces, pieces[|pieces| - 1], 0)
  {
    var n := |pieces| - 1;
    assert pieces[..n + 1] == pieces;
    assert PieceClear(f, pieces, n) == ClearFrom(f, pieces, pieces[n], 0);
    forall k: nat | k < n ensures PieceClear(f, pieces[..n], k) == PieceClear(f, pieces, k) {
      assert pieces[..n][..k + 1] == pieces[..k + 1];
    }
  }

  /**
   Saves of distinct pieces succeed if each piece, when it is saved, is clear: no y entry that its
   cells touch falls on its own key or on that of a piece saved before. The database then holds the
   tables. If no piece decodes as a list of cells, they succeed in no other case.
   */
  lemma {:induction false} SaveAllClear(f: Farmer, pieces: seq<Piece>)
    requires DistinctPieces(pieces) && AllClear(f, pieces)
    ensures SaveAll(f, pieces).Ok? && Indexed(f, SaveAll(f, pieces).value, pieces, AllCells(pieces))
  {
    if |pieces| > 0 {
      var before, piece := pieces[..|pieces| - 1], pieces[|pieces| - 1];
      assert pieces == before + [piece];
      AllClearSnoc(f, pieces);
      SaveAllClear(f, before);
      SavePieceExactly(f, SaveAll(f, before).value, before, piece, AllCells(before));
    }
  }

  lemma {:induction false} SaveAllOccupied(f: Farmer, pieces: seq<Piece>)
    requires DistinctPieces(pieces) && Unreadable(f, pieces) && !AllClear(f, pieces)
    ensures SaveAll(f, pieces).Err?
  {
    var before, piece := pieces[..|pieces| - 1], pieces[|pieces| - 1];
    assert pieces == before + [piece];
    AllClearSnoc(f, pieces);
    if AllClear(f, before) {
      SaveAllClear(f, before);
      SavePieceExactly(f, SaveAll(f, before).value, before, piece, AllCells(before));
    } else {
      SaveAllOccupied(f, before);
    }
  }

  lemma SaveAllExactly(f: Farmer, pieces: seq<Piece>)
    requires DistinctPieces(pieces)
    ensures AllClear(f, pieces) ==> SaveAll(f, pieces).Ok? && Indexed(f, SaveAll(f, pieces).value, pieces, AllCells(pieces))
    ensures Unreadable(f, pieces) ==> (SaveAll(f, pieces).Ok? <==> AllClear(f, pieces))
  {
    if AllClear(f, pieces) {
      SaveAllClear(f, pieces);
    } else if Unreadable(f, pieces) {
      SaveAllOccupied(f, pieces);
    }
  }

  /**
   A save that goes wrong: the piece is the first row of a block whose number is the y of its first
   segment, so that the entry of this cell falls on the piece itself. If the bytes of the piece do
   not decode as a list of cells the save fails; if they do, the list overwrites the piece.
   */
  lemma CollidingSave(f: Farmer, piece: Piece)
    requires 0 < |piece.segments| < 0x1_0000_0000
    requires piece.metadata.pos == Row(0) && CalculateY(f, piece.segments[0]) == piece.metadata.blockNum != 0
    ensures f.asCells(piece).None? ==> SaveAll(f, [piece]).Err?
    ensures f.asCells(piece).Some? ==>
      var saved := YSave(f, map[PieceKey(piece.metadata) := PieceValue(piece)], CellMetadata(piece.metadata, 0),
                         piece.metadata.blockNum);
      saved.Ok? && !PiecesStored(saved.value, [piece])
  {
    var c := CellsOf(piece)[0];
    KeyCollision(piece.metadata, FromU32(0), Y(f, c));
    assert IsPieceKey([piece], YKey(FromU32(0), Y(f, c)));
    assert [piece][..1] == [piece];
    assert !Clear(f, [piece], c);
    assert !PieceClear(f, [piece], 0);
    SaveAllExactly(f, [piece]);
    assert piece in [piece];
  }

  // ----- the theorems -----

  /**
   The index equals the naive join: after any sequence of saves of distinct, clear pieces, the pairs stored under
   z are those of a later and an earlier saved cell with equal nonzero y at neighbouring offsets
   whose segments hash to z, and none is stored twice.
   */
  lemma IndexIsJoin(f: Farmer, pieces: seq<Piece>, z: U16, p: Pair)
    requires DistinctPieces(pieces) && AllClear(f, pieces)
    ensures SaveAll(f, pieces).Ok?
    ensures p in PairsAt(SaveAll(f, pieces).value, z) <==> Joined(f, AllCells(pieces), z, p)
    ensures Distinct(PairsAt(SaveAll(f, pieces).value, z))
  {
    SaveAllExactly(f, pieces);
    ZTableIsJoin(f, AllCells(pieces), z, p);
    ZTableDistinct(f, AllCells(pieces), z);
    assert PairsAt(SaveAll(f, pieces).value, z) == ZTable(f, AllCells(pieces), z);
  }

  /**
   For a saved cell a at an even offset and a saved cell b at the next offset with the same nonzero
   y, exactly one of the two orders is stored under z(a, b): the cell saved last comes first.
   */
  lemma ExactlyOneOrder(f: Farmer, pieces: seq<Piece>, i: nat, j: nat)
    requires DistinctPieces(pieces) && AllClear(f, pieces)
    requires i < |AllCells(pieces)| && j < |AllCells(pieces)|
    requires var a, b := AllCells(pieces)[i], AllCells(pieces)[j];
             GoTogether(f, f.hash(a.seg, b.seg), a, b)
    ensures SaveAll(f, pieces).Ok?
    ensures var a, b := AllCells(pieces)[i], AllCells(pieces)[j];
            var stored := PairsAt(SaveAll(f, pieces).value, f.hash(a.seg, b.seg));
            ((a.meta, b.meta) in stored <==> j < i) && ((b.meta, a.meta) in stored <==> i < j) && i != j
  {
    var cells := AllCells(pieces);
    var a, b := cells[i], cells[j];
    var z := f.hash(a.seg, b.seg);
    CellsDistinct(f, pieces);
    IndexIsJoin(f, pieces, z, (a.meta, b.meta));
    IndexIsJoin(f, pieces, z, (b.meta, a.meta));
    OneOrder(f, cells, i, j);
  }

  lemma CellsDistinct(f: Farmer, pieces: seq<Piece>)
    requires DistinctPieces(pieces) && AllClear(f, pieces)
    ensures DistinctCells(AllCells(pieces))
  {
    SaveAllExactly(f, pieces);
  }

  lemma OneOrder(f: Farmer, cells: seq<Cell>, i: nat, j: nat)
    requires DistinctCells(cells) && i < |cells| && j < |cells|
    requires cells[i].meta.offset % 2 == 0 && cells[j].meta.offset == cells[i].meta.offset + 1
    requires Y(f, cells[i]) == Y(f, cells[j]) != 0
    ensures var z := CalculateZ(f, cells[i].seg, cells[j].seg);
            (Joined(f, cells, z, (cells[i].meta, cells[j].meta)) <==> j < i)
            && (Joined(f, cells, z, (cells[j].meta, cells[i].meta)) <==> i < j) && i != j
  {
    var z := CalculateZ(f, cells[i].seg, cells[j].seg);
    OnlyIndexes(f, cells, z, i, j);
    OnlyIndexes(f, cells, z, j, i);
    if j < i {
      assert JoinedAt(f, cells, z, (cells[i].meta, cells[j].meta), j, i);
    } else {
      assert JoinedAt(f, cells, z, (cells[j].meta, cells[i].meta), i, j);
    }
  }

  /** A joined pair of the metadata of two cells comes from those two cells. */
  lemma OnlyIndexes(f: Farmer, cells: seq<Cell>, z: U16, i: nat, j: nat)
    requires DistinctCells(cells) && i < |cells| && j < |cells|
    ensures Joined(f, cells, z, (cells[i].meta, cells[j].meta)) ==> j < i
  {
    if Joined(f, cells, z, (cells[i].meta, cells[j].meta)) {
      var s: nat, t: nat :| JoinedAt(f, cells, z, (cells[i].meta, cells[j].meta), s, t);
      assert s == j && t == i;
    }
  }

  // ----- `solution.rs` -----

  datatype Solution = Solution(left: Cell, right: Cell)

  /** The solutions of a list of pairs: those whose segments are both found. */
  function SolutionsOf(f: Farmer, db: Db, pairs: seq<Pair>): seq<Solution> {
    if |pairs| == 0 then [] else
    var l, r := GetCell(f, db, pairs[0].0), GetCell(f, db, pairs[0].1);
    (if l.Ok? && r.Ok? && l.value.Some? && r.value.Some?
     then [Solution(Cell(pairs[0].0, l.value.value), Cell(pairs[0].1, r.value.value))] else [])
    + SolutionsOf(f, db, pairs[1..])
  }

  /** `find_solutions_with_z` */
  function FindSolutions(f: Farmer, db: Db, z: U16): Result<seq<Solution>> {
    if ZKey(z) in db && !db[ZKey(z)].PairsValue? then Err("failed to decode CellMetadata Vec from database")
    else Ok(SolutionsOf(f, db, PairsAt(db, z)))
  }

  /** The cells of a solution with the one at the even offset first. */
  function EvenFirst(s: Solution): Solution {
    if s.left.meta.offset % 2 == 0 then s else Solution(s.right, s.left)
  }

  lemma {:induction false} SolutionsAre(f: Farmer, db: Db, pairs: seq<Pair>, s: Solution)
    ensures s in SolutionsOf(f, db, pairs) <==>
              && (s.left.meta, s.right.meta) in pairs
              && GetCell(f, db, s.left.meta) == Ok(Some(s.left.seg)) && GetCell(f, db, s.right.meta) == Ok(Some(s.right.seg))
  {
    if |pairs| > 0 {
      SolutionsAre(f, db, pairs[1..], s);
      assert pairs == [pairs[0]] + pairs[1..];
    }
  }

  /**
   What `find_solutions_with_z` reads back after any sequence of saves of distinct, clear pieces: exactly the joins
   of the saved cells under z, and each passes `ZValueManager::verify` for z once the cell at the
   even offset is put first.
   */
  lemma SolutionsVerify(f: Farmer, pieces: seq<Piece>, z: U16, s: Solution)
    requires DistinctPieces(pieces) && AllClear(f, pieces)
    ensures SaveAll(f, pieces).Ok? && FindSolutions(f, SaveAll(f, pieces).value, z).Ok?
    ensures s in FindSolutions(f, SaveAll(f, pieces).value, z).value <==>
              && s.left in AllCells(pieces) && s.right in AllCells(pieces)
              && Joined(f, AllCells(pieces), z, (s.left.meta, s.right.meta))
    ensures s in FindSolutions(f, SaveAll(f, pieces).value, z).value ==>
              var e := EvenFirst(s);
              Verify(f, z, e.left.seg, e.right.seg, e.left.meta, e.right.meta)
  {
    var cells := AllCells(pieces);
    ReadsBack(f, pieces, z, s);
    var db := SaveAll(f, pieces).value;
    IndexIsJoin(f, pieces, z, (s.left.meta, s.right.meta));
    SolutionsAre(f, db, PairsAt(db, z), s);
    CellsDistinct(f, pieces);
    if Joined(f, cells, z, (s.left.meta, s.right.meta)) && s.left in cells && s.right in cells {
      JoinedCells(f, cells, z, s);
      PairVerifies(f, z, s);
    }
  }

  lemma PairVerifies(f: Farmer, z: U16, s: Solution)
    requires GoTogether(f, z, s.left, s.right) || GoTogether(f, z, s.right, s.left)
    ensures var e := EvenFirst(s);
      Verify(f, z, e.left.seg, e.right.seg, e.left.meta, e.right.meta)
  {
  }

  lemma JoinedCells(f: Farmer, cells: seq<Cell>, z: U16, s: Solution)
    requires DistinctCells(cells) && s.left in cells && s.right in cells
    requires Joined(f, cells, z, (s.left.meta, s.right.meta))
    ensures GoTogether(f, z, s.left, s.right) || GoTogether(f, z, s.right, s.left)
  {
    var i: nat, j: nat :| JoinedAt(f, cells, z, (s.left.meta, s.right.meta), i, j);
    SameCell(cells, s.left, j);
    SameCell(cells, s.right, i);
  }

  /** Segments are read back for the metadata of saved cells, and are the ones saved. */
  lemma ReadsBack(f: Farmer, pieces: seq<Piece>, z: U16, s: Solution)
    requires DistinctPieces(pieces) && AllClear(f, pieces)
    ensures SaveAll(f, pieces).Ok? && FindSolutions(f, SaveAll(f, pieces).value, z).Ok?
    ensures Joined(f, AllCells(pieces), z, (s.left.meta, s.right.meta)) ==>
              && (GetCell(f, SaveAll(f, pieces).value, s.left.meta) == Ok(Some(s.left.seg)) <==> s.left in AllCells(pieces))
              && (GetCell(f, SaveAll(f, pieces).value, s.right.meta) == Ok(Some(s.right.seg)) <==> s.right in AllCells(pieces))
  {
    var cells := AllCells(pieces);
    SaveAllExactly(f, pieces);
    var db := SaveAll(f, pieces).value;
    if Joined(f, cells, z, (s.left.meta, s.right.meta)) {
      var i: nat, j: nat :| JoinedAt(f, cells, z, (s.left.meta, s.right.meta), i, j);
      assert cells[i] in cells && cells[j] in cells;
      CellFound(f, db, pieces, cells[i]);
      CellFound(f, db, pieces, cells[j]);
      SameCell(cells, s.left, j);
      SameCell(cells, s.right, i);
    }
  }

  lemma SameCell(cells: seq<Cell>, c: Cell, j: nat)
    requires DistinctCells(cells) && j < |cells| && c.meta == cells[j].meta
    ensures c in cells <==> c == cells[j]
  {
    if c in cells {
      var i :| 0 <= i < |cells| && cells[i] == c;
    }
  }

  // ----- what the check accepts -----

  /** One of the two orders of the cells is among the solutions for z. */
  ghost predicate InSolutions(f: Farmer, pieces: seq<Piece>, z: U16, a: Cell, b: Cell)
    requires Sized(pieces)
  {
    && SaveAll(f, pieces).Ok? && FindSolutions(f, SaveAll(f, pieces).value, z).Ok?
    && var solutions := FindSolutions(f, SaveAll(f, pieces).value, z).value;
       Solution(a, b) in solutions || Solution(b, a) in solutions
  }

  /** The cell is empty, or the cipher gives 0 for its first scalar. */
  predicate ZeroCell(f: Farmer, c: Cell) {
    |c.seg.content.data| == 0 || f.cipher(c.seg.content.data[0]) == 0
  }

  /** Neighbouring cells with y = 0, which the index leaves out, whose segments hash to z. */
  predicate ZeroPair(f: Farmer, z: U16, a: Cell, b: Cell) {
    ZeroCell(f, a) && ZeroCell(f, b) && b.meta.offset == a.meta.offset + 1 && z == f.hash(a.seg, b.seg)
  }

  lemma PairIsFound(f: Farmer, pieces: seq<Piece>, z: U16, a: Cell, b: Cell)
    requires DistinctPieces(pieces) && AllClear(f, pieces)
    requires a in AllCells(pieces) && b in AllCells(pieces)
    requires a.meta.offset % 2 == 0 && b.meta.offset == a.meta.offset + 1 && Y(f, a) == Y(f, b) != 0
    requires z == CalculateZ(f, a.seg, b.seg)
    ensures InSolutions(f, pieces, z, a, b)
  {
    var cells := AllCells(pieces);
    var i: nat :| i < |cells| && cells[i] == a;
    var j: nat :| j < |cells| && cells[j] == b;
    CellsDistinct(f, pieces);
    OneOrder(f, cells, i, j);
    SolutionsVerify(f, pieces, z, Solution(a, b));
    SolutionsVerify(f, pieces, z, Solution(b, a));
  }

  /**
   On saved cells, that at the even offset first, `ZValueManager::verify` accepts exactly what the
   index has, in one of the two orders, and besides that the neighbouring cells with y = 0.
   */
  lemma VerifyExactly(f: Farmer, pieces: seq<Piece>, z: U16, a: Cell, b: Cell)
    requires DistinctPieces(pieces) && AllClear(f, pieces)
    requires a in AllCells(pieces) && b in AllCells(pieces) && a.meta.offset % 2 == 0
    ensures Verify(f, z, a.seg, b.seg, a.meta, b.meta) <==> InSolutions(f, pieces, z, a, b) || ZeroPair(f, z, a, b)
  {
    if Verify(f, z, a.seg, b.seg, a.meta, b.meta) {
      assert b.meta.offset == a.meta.offset + 1;
      if Y(f, a) != 0 {
        PairIsFound(f, pieces, z, a, b);
      }
    }
    if InSolutions(f, pieces, z, a, b) {
      SolutionsVerify(f, pieces, z, Solution(a, b));
      SolutionsVerify(f, pieces, z, Solution(b, a));
    }
  }

  /**
   With the cell at the odd offset first the check accepts the same pairs, but for the hash of the
   segments in this order instead of the one that the index is built on.
   */
  lemma VerifyOddFirst(f: Farmer, pieces: seq<Piece>, z: U16, a: Cell, b: Cell)
    requires DistinctPieces(pieces) && AllClear(f, pieces)
    requires a in AllCells(pieces) && b in AllCells(pieces) && a.meta.offset % 2 == 1
    ensures Verify(f, z, a.seg, b.seg, a.meta, b.meta) <==>
              && z == f.hash(a.seg, b.seg) && b.meta.offset % 2 == 0
              && var stored := f.hash(b.seg, a.seg);
                 InSolutions(f, pieces, stored, b, a) || ZeroPair(f, stored, b, a)
  {
    if b.meta.offset % 2 == 0 {
      VerifyExactly(f, pieces, f.hash(b.seg, a.seg), b, a);
    }
  }

  /** The solutions for z are those of the stored pairs, one for each and in their order. */
  lemma {:induction false} SolutionsInOrder(f: Farmer, db: Db, pairs: seq<Pair>)
    requires forall k :: 0 <= k < |pairs| ==> BothFound(f, db, pairs[k])
    ensures |SolutionsOf(f, db, pairs)| == |pairs|
    ensures forall k :: 0 <= k < |pairs| ==> SolutionOf(f, db, pairs[k], SolutionsOf(f, db, pairs)[k])
  {
    if |pairs| > 0 {
      SolutionsInOrder(f, db, pairs[1..]);
      assert BothFound(f, db, pairs[0]);
      var rest, all := SolutionsOf(f, db, pairs[1..]), SolutionsOf(f, db, pairs);
      assert all[1..] == rest;
      forall k | 0 <= k < |pairs| ensures SolutionOf(f, db, pairs[k], all[k]) {
        assert k > 0 ==> all[k] == rest[k - 1] && pairs[k] == pairs[1..][k - 1];
      }
    }
  }

  ghost predicate BothFound(f: Farmer, db: Db, p: Pair) {
    && GetCell(f, db, p.0).Ok? && GetCell(f, db, p.0).value.Some?
    && GetCell(f, db, p.1).Ok? && GetCell(f, db, p.1).value.Some?
  }

  ghost predicate SolutionOf(f: Farmer, db: Db, p: Pair, s: Solution) {
    && s.left.meta == p.0 && s.right.meta == p.1
    && GetCell(f, db, p.0) == Ok(Some(s.left.seg)) && GetCell(f, db, p.1) == Ok(Some(s.right.seg))
  }

  /**
   After saves of distinct, clear pieces, the solutions for z are one for each pair stored under z, in
   the order in which the pairs were stored.
   */
  lemma SolutionsFollowPairs(f: Farmer, pieces: seq<Piece>, z: U16)
    requires DistinctPieces(pieces) && AllClear(f, pieces)
    ensures SaveAll(f, pieces).Ok? && FindSolutions(f, SaveAll(f, pieces).value, z).Ok?
    ensures var db := SaveAll(f, pieces).value;
      var solutions, pairs := FindSolutions(f, db, z).value, PairsAt(db, z);
      && |solutions| == |pairs|
      && forall k :: 0 <= k < |pairs| ==> solutions[k].left.meta == pairs[k].0 && solutions[k].right.meta == pairs[k].1
  {
    SaveAllExactly(f, pieces);
    var db, cells := SaveAll(f, pieces).value, AllCells(pieces);
    var pairs := PairsAt(db, z);
    forall k | 0 <= k < |pairs| ensures BothFound(f, db, pairs[k]) {
      IndexIsJoin(f, pieces, z, pairs[k]);
      var i: nat, j: nat :| JoinedAt(f, cells, z, pairs[k], i, j);
      assert cells[i] in cells && cells[j] in cells;
      CellFound(f, db, pieces, cells[i]);
      CellFound(f, db, pieces, cells[j]);
    }
    SolutionsInOrder(f, db, pairs);
    if |pairs| > 0 {
      IndexIsJoin(f, pieces, z, pairs[0]);
      ReadsBack(f, pieces, z, SolutionsOf(f, db, pairs)[0]);
    }
  }
}
