/**
 `proof-of-space/src`: the farmer's index of saved cells (`piece.rs`, `y_value_manager.rs`,
 `z_value_manager.rs`, `cell.rs`).

 The database maps byte strings to values. Decoding is modelled by the kind of the stored value:
 reading a value of the wrong kind fails. The cipher behind y and the hash behind z are functions
 of which nothing is assumed.
 */
module ProofOfSpace {
  import opened Wrappers
  import opened Encoding
  import S = Segments

  type Scalar(==, !new)
  type KzgProof(==, !new)
  type Segment = S.Segment<Scalar, KzgProof>

  type U32 = x: int | 0 <= x < 0x1_0000_0000
  type U16 = x: int | 0 <= x < 0x1_0000

  /**
   One farmer: the cipher keyed by the farmer id, folded to 32 bits, and the hash of two segments. The
   bytes of a stored value carry no tag, so the farmer's codec also says what the bytes of a piece
   give when they are decoded as a list of cells, if anything, and those of a list as a piece.
   */
  datatype Farmer = Farmer(
    cipher: Scalar -> U32,
    hash: (Segment, Segment) -> U16,
    asCells: Piece -> Option<seq<CellMetadata>>,
    asPiece: seq<CellMetadata> -> Option<Piece>)

  datatype PiecePosition = Row(index: U32) | Column(index: U32)

  datatype PieceMetadata = PieceMetadata(blockNum: U32, pos: PiecePosition)

  datatype CellMetadata = CellMetadata(piece: PieceMetadata, offset: U32)

  datatype Piece = Piece(metadata: PieceMetadata, segments: seq<Segment>)

  // ----- positions -----

  datatype YPos = Left(pos: U32) | Right(pos: U32)

  function FromU32(pos: U32): YPos {
    if pos % 2 == 0 then Left(pos) else Right(pos)
  }

  /** The counterpart: the next position of a left one, the previous of a right one. */
  function MatchPos(p: YPos): YPos
    requires p.Left? ==> p.pos < 0xFFFF_FFFF
    requires p.Right? ==> p.pos > 0
  {
    match p
    case Left(pos) => Right(pos + 1)
    case Right(pos) => Left(pos - 1)
  }

  function Counterpart(offset: U32): YPos {
    MatchPos(FromU32(offset))
  }

  predicate IsPair(a: CellMetadata, b: CellMetadata) {
    match (FromU32(a.offset), FromU32(b.offset))
    case (Left(p), Right(q)) => p + 1 == q
    case (Right(p), Left(q)) => p - 1 == q
    case _ => false
  }

  // ----- y and z -----

  function CalculateY(f: Farmer, seg: Segment): U32 {
    if |seg.content.data| == 0 then 0 else f.cipher(seg.content.data[0])
  }

  function CalculateZ(f: Farmer, left: Segment, right: Segment): U16 {
    f.hash(left, right)
  }

  /** `ZValueManager::verify` */
  predicate Verify(f: Farmer, z: U16, left: Segment, right: Segment, leftCell: CellMetadata, rightCell: CellMetadata) {
    && z == CalculateZ(f, left, right)
    && IsPair(leftCell, rightCell)
    && CalculateY(f, left) == CalculateY(f, right)
  }

  // ----- keys -----

  function PieceKey(p: PieceMetadata): (k: Key)
    ensures |k| == 9
  {
    Le4(p.blockNum) + [if p.pos.Row? then 0 else 1] + Le4(p.pos.index)
  }

  function YKey(p: YPos, y: U32): (k: Key)
    ensures |k| == 9
  {
    Le4(y) + [if p.Left? then 0 else 1] + Le4(p.pos)
  }

  function ZKey(z: U16): (k: Key)
    ensures |k| == 2
  {
    [z % 256, z / 256]
  }

  /** Nine bytes made of a number, a tag and a number determine all three. */
  lemma NineBytes(a: U32, s: Byte, m: U32, b: U32, t: Byte, n: U32)
    ensures Le4(a) + [s] + Le4(m) == Le4(b) + [t] + Le4(n) <==> a == b && s == t && m == n
  {
    SplitEqual(Le4(a) + [s], Le4(m), Le4(b) + [t], Le4(n));
    SplitEqual(Le4(a), [s], Le4(b), [t]);
    Le4Injective(a, b);
    Le4Injective(m, n);
  }

  lemma PieceKeyInjective(p: PieceMetadata, q: PieceMetadata)
    ensures PieceKey(p) == PieceKey(q) <==> p == q
  {
    NineBytes(p.blockNum, if p.pos.Row? then 0 else 1, p.pos.index, q.blockNum, if q.pos.Row? then 0 else 1, q.pos.index);
  }

  lemma YKeyInjective(p: YPos, y: U32, q: YPos, x: U32)
    ensures YKey(p, y) == YKey(q, x) <==> p == q && y == x
  {
    NineBytes(y, if p.Left? then 0 else 1, p.pos, x, if q.Left? then 0 else 1, q.pos);
  }

  lemma ZKeyInjective(z: U16, x: U16)
    ensures ZKey(z) == ZKey(x) <==> z == x
  {
    if ZKey(z) == ZKey(x) {
      assert ZKey(z)[0] == ZKey(x)[0] && ZKey(z)[1] == ZKey(x)[1];
    }
  }

  /**
   The keys of pieces and of y values share the database: they coincide exactly when y is the block
   number and the position has the same number, row against left and column against right.
   */
  lemma KeyCollision(p: PieceMetadata, pos: YPos, y: U32)
    ensures PieceKey(p) == YKey(pos, y) <==> p.blockNum == y && p.pos.index == pos.pos && (p.pos.Row? <==> pos.Left?)
  {
    NineBytes(p.blockNum, if p.pos.Row? then 0 else 1, p.pos.index, y, if pos.Left? then 0 else 1, pos.pos);
  }

  // ----- the database -----

  type Pair = (CellMetadata, CellMetadata)

  datatype Value = PieceValue(piece: Piece) | CellsValue(cells: seq<CellMetadata>) | PairsValue(pairs: seq<Pair>)

  type Db = map<Key, Value>

  /** Decoding a value as a list of cells. Pairs are stored at keys of another length. */
  function ReadCells(f: Farmer, v: Value): Option<seq<CellMetadata>> {
    match v
    case CellsValue(cells) => Some(cells)
    case PieceValue(piece) => f.asCells(piece)
    case PairsValue(_) => None
  }

  function ReadPiece(f: Farmer, v: Value): Option<Piece> {
    match v
    case PieceValue(piece) => Some(piece)
    case CellsValue(cells) => f.asPiece(cells)
    case PairsValue(_) => None
  }

  /** `YValueManager::save` */
  function YSave(f: Farmer, db: Db, cell: CellMetadata, y: U32): Result<Db> {
    if y == 0 then Ok(db) else
    var key := YKey(FromU32(cell.offset), y);
    if key !in db then Ok(db[key := CellsValue([cell])])
    else
      match ReadCells(f, db[key])
      case Some(cells) => Ok(db[key := CellsValue(cells + [cell])])
      case None => Err("stored value is not a list of cells")
  }

  /** `YValueManager::match_cells` */
  function MatchCells(f: Farmer, db: Db, offset: U32, y: U32): Result<seq<CellMetadata>> {
    var key := YKey(Counterpart(offset), y);
    if key !in db then Ok([])
    else
      match ReadCells(f, db[key])
      case Some(cells) => Ok(cells)
      case None => Err("failed to decode CellMetadata vector from database")
  }

  /** `Piece::get_cell` */
  function GetCell(f: Farmer, db: Db, cell: CellMetadata): Result<Option<Segment>> {
    var key := PieceKey(cell.piece);
    if key !in db then Ok(None)
    else
      match ReadPiece(f, db[key])
      case None => Err("failed to decode Piece from database")
      case Some(piece) => Ok(if cell.offset >= |piece.segments| then None else Some(piece.segments[cell.offset]))
  }

  function PairsAt(db: Db, z: U16): seq<Pair> {
    if ZKey(z) in db && db[ZKey(z)].PairsValue? then db[ZKey(z)].pairs else []
  }

  /** `ZValueManager::save` */
  function ZSave(db: Db, z: U16, pair: Pair): Db {
    var pairs := PairsAt(db, z);
    if pair in pairs then db else db[ZKey(z) := PairsValue(pairs + [pair])]
  }

  /** The z of a new cell and a matched one: the segment at the even offset comes first. */
  function PairZ(f: Farmer, offset: U32, seg: Segment, matched: Segment): U16 {
    if FromU32(offset).Left? then CalculateZ(f, seg, matched) else CalculateZ(f, matched, seg)
  }

  /** The inner loop of `Piece::save`: the new cell with each match. The new cell comes first in the pair. */
  function SaveMatches(f: Farmer, db: Db, cell: CellMetadata, seg: Segment, matches: seq<CellMetadata>): Result<Db>
    decreases |matches|
  {
    if |matches| == 0 then Ok(db) else
    var found :- GetCell(f, db, matches[0]);
    var next := if found.Some? then ZSave(db, PairZ(f, cell.offset, seg, found.value), (cell, matches[0])) else db;
    SaveMatches(f, next, cell, seg, matches[1..])
  }

  function SaveCell(f: Farmer, db: Db, cell: CellMetadata, seg: Segment): Result<Db> {
    var y := CalculateY(f, seg);
    var indexed :- YSave(f, db, cell, y);
    var matches :- MatchCells(f, indexed, cell.offset, y);
    SaveMatches(f, indexed, cell, seg, matches)
  }

  function SaveCells(f: Farmer, db: Db, piece: Piece, i: nat): Result<Db>
    requires i <= |piece.segments| < 0x1_0000_0000
    decreases |piece.segments| - i
  {
    if i == |piece.segments| then Ok(db) else
    var next :- SaveCell(f, db, CellMetadata(piece.metadata, i), piece.segments[i]);
    SaveCells(f, next, piece, i + 1)
  }

  /** `Piece::save` */
  function SavePiece(f: Farmer, db: Db, piece: Piece): Result<Db>
    requires |piece.segments| < 0x1_0000_0000
  {
    SaveCells(f, db[PieceKey(piece.metadata) := PieceValue(piece)], piece, 0)
  }

  // ----- the database as the code updates it -----

  class Store {
    var kv: Db

    constructor ()
      ensures kv == map[]
    {
      kv := map[];
    }

    /** `YValueManager::save` */
    method SaveY(f: Farmer, cell: CellMetadata, y: U32) returns (ok: bool)
      modifies this
      ensures ok == YSave(f, old(kv), cell, y).Ok?
      ensures kv == if ok then YSave(f, old(kv), cell, y).value else old(kv)
    {
      if y == 0 {
        return true;
      }
      var key := YKey(FromU32(cell.offset), y);
      if key in kv {
        var read := ReadCells(f, kv[key]);
        if read.None? {
          return false;
        }
        var cells := read.value;
        cells := cells + [cell];
        kv := kv[key := CellsValue(cells)];
      } else {
        kv := kv[key := CellsValue([cell])];
      }
      ok := true;
    }

    /** `ZValueManager::save` */
    method SaveZ(z: U16, pair: Pair)
      modifies this
      ensures kv == ZSave(old(kv), z, pair)
    {
      var pairs := PairsAt(kv, z);
      if pair !in pairs {
        pairs := pairs + [pair];
        kv := kv[ZKey(z) := PairsValue(pairs)];
      }
    }

    /** `Piece::save`: the piece, then for each cell its y entry and its pairs. */
    method Save(f: Farmer, piece: Piece) returns (ok: bool)
      requires |piece.segments| < 0x1_0000_0000
      modifies this
      ensures ok == SavePiece(f, old(kv), piece).Ok?
      ensures ok ==> kv == SavePiece(f, old(kv), piece).value
    {
      kv := kv[PieceKey(piece.metadata) := PieceValue(piece)];
      ghost var goal := SaveCells(f, kv, piece, 0);
      for i := 0 to |piece.segments|
        invariant goal == SaveCells(f, kv, piece, i)
      {
        var cell, seg := CellMetadata(piece.metadata, i), piece.segments[i];
        var y := CalculateY(f, seg);
        var saved := SaveY(f, cell, y);
        if !saved {
          return false;
        }
        var matches := MatchCells(f, kv, cell.offset, y);
        if matches.Err? {
          return false;
        }
        var paired := SavePairs(f, cell, seg, matches.value);
        if !paired {
          return false;
        }
      }
      ok := true;
    }

    /** The inner loop of `Piece::save`. */
    method SavePairs(f: Farmer, cell: CellMetadata, seg: Segment, matches: seq<CellMetadata>) returns (ok: bool)
      modifies this
      ensures ok == SaveMatches(f, old(kv), cell, seg, matches).Ok?
      ensures ok ==> kv == SaveMatches(f, old(kv), cell, seg, matches).value
    {
      ghost var goal := SaveMatches(f, kv, cell, seg, matches);
      for j := 0 to |matches|
        invariant goal == SaveMatches(f, kv, cell, seg, matches[j..])
      {
        assert matches[j..][1..] == matches[j + 1..];
        var found := GetCell(f, kv, matches[j]);
        if found.Err? {
          return false;
        }
        if found.value.Some? {
          var z: U16;
          if FromU32(cell.offset).Left? {
            z := CalculateZ(f, seg, found.value.value);
          } else {
            z := CalculateZ(f, found.value.value, seg);
          }
          SaveZ(z, (cell, matches[j]));
        }
      }
      ok := true;
    }
  }
}
