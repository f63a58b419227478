/** `bytes_to_segments` and `put_bytes`: what an application publishes, and that samples find it. */
module Publishing {
  import opened Wrappers
  import opened Encoding
  import opened Bits
  import opened Dft
  import opened ErasureCoding
  import opened Kzg
  import opened Segments
  import opened Recovery
  import opened Blobs
  import MeloStore
  import opened Header
  import opened Sampling

  type Prover<P> = (seq<Scalar>, nat) -> Result<seq<P>>

  /** The row of each blob can be cut into segments; the code panics otherwise. */
  ghost predicate Cuttable<P>(kzg: KZG<Scalar, P>, prove: Prover<P>, blobs: seq<Blob>, size: nat) {
    && ProvesAll(kzg, prove) && ValidSettings(kzg.fs) && FitsWord(kzg)
    && forall y: nat :: y < |blobs| ==> PolyToSegmentVec(kzg, prove, blobs[y], y, size).Ok?
  }

  function Concat<T>(rows: seq<seq<T>>): seq<T> {
    if |rows| == 0 then [] else Concat(rows[..|rows| - 1]) + rows[|rows| - 1]
  }

  /** Of rows of one width, slot x of row y is found where it belongs. */
  lemma {:induction false} ConcatAt<T>(rows: seq<seq<T>>, width: nat, y: nat, x: nat)
    requires forall r :: 0 <= r < |rows| ==> |rows[r]| == width
    ensures |Concat(rows)| == Times(|rows|, width)
    ensures y < |rows| && x < width ==> Offset(y, width, x) < |Concat(rows)| && Concat(rows)[Offset(y, width, x)] == rows[y][x]
  {
    if |rows| > 0 {
      var n := |rows| - 1;
      ConcatAt(rows[..n], width, y, x);
      if y < n && x < width {
        BelowTimes(y, n, x, width);
      }
    }
  }

  /** The segments of each row. */
  function RowsOfBlobs<P>(kzg: KZG<Scalar, P>, prove: Prover<P>, blobs: seq<Blob>, size: nat)
    : (r: seq<seq<Segment<Scalar, P>>>)
    requires Cuttable(kzg, prove, blobs, size)
    ensures |r| == |blobs|
  {
    seq(|blobs|, (y: nat) requires y < |blobs| => PolyToSegmentVec(kzg, prove, blobs[y], y, size).value)
  }

  /** `bytes_to_segments` */
  function BytesToSegments<P>(kzg: KZG<Scalar, P>, prove: Prover<P>, bytes: seq<Byte>, n: nat, size: nat)
    : Result<seq<Segment<Scalar, P>>>
    requires BytesToBlobs(bytes, n).Ok? ==> Cuttable(kzg, prove, BytesToBlobs(bytes, n).value, size)
  {
    var blobs :- BytesToBlobs(bytes, n);
    Ok(Concat(RowsOfBlobs(kzg, prove, blobs, size)))
  }

  /** The segment of column x and row y carries chunk x of the row of blob y, and the proof at its index. */
  ghost predicate SegmentOf<P>(kzg: KZG<Scalar, P>, blobs: seq<Blob>, size: nat, width: nat, y: nat, x: nat,
      s: Segment<Scalar, P>) {
    y < |blobs| && IsSegmentOf(kzg.fs, blobs[y], y, size, x, s) && ProofOf(kzg, blobs[y], size, width / 2, s)
  }

  lemma SameWidth(a: nat, b: nat, size: nat)
    requires size > 0 && Times(a, size) == Times(b, size)
    ensures a == b
  {
    if a < b {
      TimesMonotone(a, b, size);
    } else if b < a {
      TimesMonotone(b, a, size);
    }
  }

  /** A row of a blob of n scalars has as many segments as cover it. */
  lemma RowOfBlob<P>(kzg: KZG<Scalar, P>, prove: Prover<P>, blobs: seq<Blob>, size: nat, n: nat, width: nat, y: nat)
    requires Cuttable(kzg, prove, blobs, size) && y < |blobs| && |blobs[y]| == n && Times(width, size) == 2 * n
    ensures var row := PolyToSegmentVec(kzg, prove, blobs[y], y, size).value;
      |row| == width && forall x: nat :: x < width ==> SegmentOf(kzg, blobs, size, width, y, x, row[x])
  {
    PolyToSegmentVecCorrect(kzg, prove, blobs[y], y, size);
    var row := PolyToSegmentVec(kzg, prove, blobs[y], y, size).value;
    SameWidth(|row|, width, size);
    forall x: nat | x < width ensures SegmentOf(kzg, blobs, size, width, y, x, row[x]) {
      PolyToSegmentVecProofs(kzg, prove, blobs[y], y, size, x);
      assert IsSegmentOf(kzg.fs, blobs[y], y, size, x, row[x]);
    }
  }

  /**
   `bytes_to_segments` returns one segment for every column and every blob of the bytes, row by row:
   the chunks of the rows of the blobs, at their positions and with the proofs at their indexes.
   */
  lemma BytesToSegmentsCorrect<P>(kzg: KZG<Scalar, P>, prove: Prover<P>, bytes: seq<Byte>, n: nat, size: nat,
      width: nat, y: nat, x: nat)
    requires |bytes| > 0 && IsPow2(n) && Times(width, size) == 2 * n
    requires Cuttable(kzg, prove, BytesToBlobs(bytes, n).value, size)
    requires y < BlobCount(|bytes|, SCALAR_SAFE_BYTES * n) && x < width
    ensures BytesToSegments(kzg, prove, bytes, n, size).Ok?
    ensures var segments := BytesToSegments(kzg, prove, bytes, n, size).value;
      && |segments| == Times(BlobCount(|bytes|, SCALAR_SAFE_BYTES * n), width)
      && Offset(y, width, x) < |segments|
      && SegmentOf(kzg, BytesToBlobs(bytes, n).value, size, width, y, x, segments[Offset(y, width, x)])
  {
    BytesToBlobsCorrect(bytes, n);
    BlobSegmentAt(kzg, prove, BytesToBlobs(bytes, n).value, n, size, width, y, x);
  }

  lemma BlobSegmentAt<P>(kzg: KZG<Scalar, P>, prove: Prover<P>, blobs: seq<Blob>, n: nat, size: nat, width: nat,
      y: nat, x: nat)
    requires Cuttable(kzg, prove, blobs, size) && Times(width, size) == 2 * n
    requires (forall b :: b in blobs ==> |b| == n) && y < |blobs| && x < width
    ensures var segments := Concat(RowsOfBlobs(kzg, prove, blobs, size));
      && |segments| == Times(|blobs|, width) && Offset(y, width, x) < |segments|
      && SegmentOf(kzg, blobs, size, width, y, x, segments[Offset(y, width, x)])
  {
    var rows := RowsOfBlobs(kzg, prove, blobs, size);
    forall r | 0 <= r < |rows| ensures |rows[r]| == width {
      RowOfBlob(kzg, prove, blobs, size, n, width, r);
    }
    RowOfBlob(kzg, prove, blobs, size, n, width, y);
    ConcatAt(rows, width, y, x);
  }

  /** Every published segment is the one of some column and row. */
  lemma PublishedPosition<P>(kzg: KZG<Scalar, P>, prove: Prover<P>, bytes: seq<Byte>, n: nat, size: nat,
      width: nat, i: nat)
    requires |bytes| > 0 && IsPow2(n) && width > 0 && Times(width, size) == 2 * n
    requires Cuttable(kzg, prove, BytesToBlobs(bytes, n).value, size)
    requires BytesToSegments(kzg, prove, bytes, n, size).Ok? && i < |BytesToSegments(kzg, prove, bytes, n, size).value|
    ensures var position := BytesToSegments(kzg, prove, bytes, n, size).value[i].position;
      position.x < width && position.y < BlobCount(|bytes|, SCALAR_SAFE_BYTES * n)
  {
    BytesToBlobsCorrect(bytes, n);
    var count := BlobCount(|bytes|, SCALAR_SAFE_BYTES * n);
    BytesToSegmentsCorrect(kzg, prove, bytes, n, size, width, 0, 0);
    var y, x := ChunkOf(i, count, width);
    BytesToSegmentsCorrect(kzg, prove, bytes, n, size, width, y, x);
  }

  /**
   What is sampled is published: let the app of the sample's lookup have published its bytes. The
   sample's id is the key of a published segment exactly if the relative row is below the number of
   blobs of the bytes, and then it is the key of the segment at the sample's column of that row.
   Nothing in the chain ties the count of the lookup, which bounds the relative row, to that number.
   */
  lemma SampledIsPublished<P>(kzg: KZG<Scalar, P>, prove: Prover<P>, bytes: seq<Byte>, n: nat, size: nat,
      lookups: seq<MeloStore.AppLookup>, columns: nat, blockHash: seq<Byte>, pos: Position, id: Key, k: nat,
      relative: nat)
    requires |bytes| > 0 && IsPow2(n) && Times(WIDTH, size) == 2 * n
    requires Cuttable(kzg, prove, BytesToBlobs(bytes, n).value, size)
    requires BlobCount(|bytes|, SCALAR_SAFE_BYTES * n) <= U32_SIZE
    requires BlockGrid(lookups, columns, blockHash) && InGrid(pos, columns) && pos.y < columns / 2
    requires IsBlockSample(lookups, columns, blockHash, pos, id) && Covers(lookups, k, pos.y, relative)
    ensures BytesToSegments(kzg, prove, bytes, n, size).Ok?
    ensures var segments := BytesToSegments(kzg, prove, bytes, n, size).value;
      var keys := AppKeys(segments, lookups[k].appId, lookups[k].nonce);
      && (id in keys <==> relative < BlobCount(|bytes|, SCALAR_SAFE_BYTES * n))
      && (id in keys ==>
            && Offset(relative, WIDTH, pos.x) < |segments|
            && keys[Offset(relative, WIDTH, pos.x)] == id
            && SegmentOf(kzg, BytesToBlobs(bytes, n).value, size, WIDTH, relative, pos.x,
                         segments[Offset(relative, WIDTH, pos.x)]))
  {
    BytesToBlobsCorrect(bytes, n);
    CoverBound(lookups, k, pos.y, relative);
    var segments := BytesToSegments(kzg, prove, bytes, n, size).value;
    var appId, nonce := lookups[k].appId, lookups[k].nonce;
    if relative < BlobCount(|bytes|, SCALAR_SAFE_BYTES * n) {
      BytesToSegmentsCorrect(kzg, prove, bytes, n, size, WIDTH, relative, pos.x);
      SampledAppKey(lookups, columns, blockHash, pos, id, k, relative, segments, Offset(relative, WIDTH, pos.x), appId, nonce);
    }
    forall i | 0 <= i < |segments| && AppKeys(segments, appId, nonce)[i] == id
      ensures relative < BlobCount(|bytes|, SCALAR_SAFE_BYTES * n)
    {
      PublishedPosition(kzg, prove, bytes, n, size, WIDTH, i);
      SampledAppKey(lookups, columns, blockHash, pos, id, k, relative, segments, i, appId, nonce);
    }
  }
}
