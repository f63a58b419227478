/**
 What the erasure code is for: the bytes of an application are recovered from any half of the
 segments of each of its rows.
 */
module DataRecovery {
  import opened Wrappers
  import opened Encoding
  import opened Bits
  import opened Dft
  import opened ErasureCoding
  import opened Kzg
  import opened Segments
  import opened Recovery
  import opened Blobs

  /** The slots that are left of a row of segments. */
  ghost predicate Remaining<F, P>(segments: seq<Segment<F, P>>, slots: Slots<F, P>) {
    && |slots| == |segments|
    && forall i :: 0 <= i < |slots| && slots[i].Some? ==> slots[i].value == segments[i].content
  }

  lemma RemainingIsErasure<F(!new), P>(fs: FftSettings<F>, poly: seq<F>, y: nat, size: nat, segments: seq<Segment<F, P>>,
      slots: Slots<F, P>)
    requires IsPow2(|poly|) && Times(|segments|, size) == 2 * |poly| && Remaining(segments, slots)
    requires forall x: nat :: x < |segments| ==> IsSegmentOf(fs, poly, y, size, x, segments[x])
    ensures RowErasure(fs, poly, size, slots)
  {
    forall i | 0 <= i < |slots| && slots[i].Some?
      ensures Offset(i, size, size) <= 2 * |poly| && slots[i].value.data == Chunk(ExtendedRow(fs, poly), i, size)
    {
      assert IsSegmentOf(fs, poly, y, size, i, segments[i]);
    }
  }

  /**
   Split, erase, recover: of the segments of a polynomial's row let any half remain. Then
   `recover_segment_datas` returns data equal to that of the original segments in every slot.
   */
  lemma SplitEraseRecover<F(!new), P>(kzg: KZG<F, P>, prove: (seq<F>, nat) -> Result<seq<P>>, poly: seq<F>, y: nat,
      size: nat, slots: Slots<F, P>, chunkCount: nat)
    requires ValidKZG(kzg) && ProvesAll(kzg, prove)
    requires PolyToSegmentVec(kzg, prove, poly, y, size).Ok?
    requires Remaining(PolyToSegmentVec(kzg, prove, poly, y, size).value, slots)
    requires |slots| <= 2 * CountSome(slots)
    requires IsPow2(chunkCount) && Log2(chunkCount) < kzg.word
    ensures Recoverable(kzg, slots, chunkCount, size)
    ensures var segments := PolyToSegmentVec(kzg, prove, poly, y, size).value;
      var r := RecoverSegmentDatas(kzg, slots, chunkCount, y, size);
      r.Ok? ==> |r.value| == |segments|
                && forall i :: 0 <= i < |segments| ==>
                     r.value[i].position == segments[i].position && r.value[i].content.data == segments[i].content.data
  {
    var segments := PolyToSegmentVec(kzg, prove, poly, y, size).value;
    PolyToSegmentVecCorrect(kzg, prove, poly, y, size);
    RemainingIsErasure(kzg.fs, poly, y, size, segments, slots);
    RecoverSegmentDatasCorrect(kzg, poly, slots, chunkCount, y, size);
    var r := RecoverSegmentDatas(kzg, slots, chunkCount, y, size);
    if r.Ok? {
      forall i: nat | i < |segments|
        ensures r.value[i].position == segments[i].position && r.value[i].content.data == segments[i].content.data
      {
        assert RecoveredSlot(kzg, poly, slots[i], chunkCount, y, size, i, r.value[i]);
        assert IsSegmentOf(kzg.fs, poly, y, size, i, segments[i]);
      }
    }
  }

  /** Segments with the row's data and the proofs for the count. */
  ghost predicate ProvedSegments<F, P>(kzg: KZG<F, P>, poly: seq<F>, y: nat, size: nat, count: nat,
      segments: seq<Segment<F, P>>) {
    forall x: nat :: x < |segments| ==>
      IsSegmentOf(kzg.fs, poly, y, size, x, segments[x]) && ProofOf(kzg, poly, size, count, segments[x])
  }

  lemma ProvedRowIs<F(!new), P>(kzg: KZG<F, P>, poly: seq<F>, y: nat, size: nat, count: nat,
      segments: seq<Segment<F, P>>, slots: Slots<F, P>, r: Result<seq<Segment<F, P>>>)
    requires IsPow2(|poly|) && size > 0 && IsPow2(count) && Log2(count) < kzg.word
    requires ProvedSegments(kzg, poly, y, size, count, segments) && Remaining(segments, slots)
    requires RecoveredRow(kzg, poly, slots, count, y, size, r)
    ensures r == Ok(segments)
  {
    forall x: nat | x < |slots| ensures ComputeProofMulti(kzg, poly, x, count, size).Ok? {
      assert IsSegmentOf(kzg.fs, poly, y, size, x, segments[x]) && ProofOf(kzg, poly, size, count, segments[x]);
    }
    forall x: nat | x < |segments| ensures r.value[x] == segments[x] {
      assert RecoveredSlot(kzg, poly, slots[x], count, y, size, x, r.value[x]);
      SegmentRecovered(kzg, poly, size, count, y, x, slots[x], segments[x], r.value[x]);
    }
    assert r.value == segments;
  }

  lemma ProvedRecovered<F(!new), P>(kzg: KZG<F, P>, poly: seq<F>, y: nat, size: nat, count: nat,
      segments: seq<Segment<F, P>>, slots: Slots<F, P>)
    requires ValidKZG(kzg) && IsPow2(|poly|) && Times(|segments|, size) == 2 * |poly| <= kzg.fs.maxWidth && size > 0
    requires IsPow2(count) && Log2(count) < kzg.word && ProvedSegments(kzg, poly, y, size, count, segments)
    requires Remaining(segments, slots) && |slots| <= 2 * CountSome(slots)
    ensures Recoverable(kzg, slots, count, size)
    ensures RecoverSegmentDatas(kzg, slots, count, y, size) == Ok(segments)
  {
    RemainingIsErasure(kzg.fs, poly, y, size, segments, slots);
    RecoverSegmentDatasCorrect(kzg, poly, slots, count, y, size);
    ProvedRowIs(kzg, poly, y, size, count, segments, slots, RecoverSegmentDatas(kzg, slots, count, y, size));
  }

  lemma SegmentsProved<F(!new), P>(kzg: KZG<F, P>, prove: (seq<F>, nat) -> Result<seq<P>>, poly: seq<F>, y: nat,
      size: nat, segments: seq<Segment<F, P>>)
    requires ValidKZG(kzg) && FitsWord(kzg) && ProvesAll(kzg, prove)
    requires PolyToSegmentVec(kzg, prove, poly, y, size) == Ok(segments)
    ensures IsPow2(|poly|) && Times(|segments|, size) == 2 * |poly| <= kzg.fs.maxWidth && size > 0
    ensures IsPow2(|segments| / 2) && Log2(|segments| / 2) < kzg.word
    ensures ProvedSegments(kzg, poly, y, size, |segments| / 2, segments)
  {
    PolyToSegmentVecCorrect(kzg, prove, poly, y, size);
    forall x: nat | x < |segments| ensures ProofOf(kzg, poly, size, |segments| / 2, segments[x]) {
      PolyToSegmentVecProofs(kzg, prove, poly, y, size, x);
    }
    assert |segments| > 0;
    assert ProofOf(kzg, poly, size, |segments| / 2, segments[0]);
  }

  /**
   If half of the number of segments is passed as count, the recovery never fails and gives back the
   very segments, proofs included.
   */
  lemma SegmentsRecovered<F(!new), P>(kzg: KZG<F, P>, prove: (seq<F>, nat) -> Result<seq<P>>, poly: seq<F>, y: nat,
      size: nat, segments: seq<Segment<F, P>>, slots: Slots<F, P>)
    requires ValidKZG(kzg) && FitsWord(kzg) && ProvesAll(kzg, prove)
    requires PolyToSegmentVec(kzg, prove, poly, y, size) == Ok(segments)
    requires Remaining(segments, slots) && |slots| <= 2 * CountSome(slots)
    ensures Recoverable(kzg, slots, |slots| / 2, size)
    ensures RecoverSegmentDatas(kzg, slots, |slots| / 2, y, size) == Ok(segments)
  {
    SegmentsProved(kzg, prove, poly, y, size, segments);
    ProvedRecovered(kzg, poly, y, size, |segments| / 2, segments, slots);
  }

  lemma SegmentRecovered<F(!new), P>(kzg: KZG<F, P>, poly: seq<F>, size: nat, count: nat, y: nat, x: nat,
      slot: Option<SegmentData<F, P>>, s: Segment<F, P>, r: Segment<F, P>)
    requires IsPow2(|poly|) && ProofOf(kzg, poly, size, count, s) && IsSegmentOf(kzg.fs, poly, y, size, x, s)
    requires RecoveredSlot(kzg, poly, slot, count, y, size, x, r) && (slot.Some? ==> slot.value == s.content)
    ensures r == s
  {
  }

  /** Half of the segments of the row of the polynomial, with its data. */
  ghost predicate HalfOfRow<P>(kzg: KZG<Scalar, P>, poly: seq<Scalar>, size: nat, slots: Slots<Scalar, P>) {
    && size > 0 && 2 * |poly| <= kzg.fs.maxWidth
    && RowErasure(kzg.fs, poly, size, slots) && |slots| <= 2 * CountSome(slots)
  }

  lemma RowGivesBlob<P>(kzg: KZG<Scalar, P>, blob: Blob, size: nat, slots: Slots<Scalar, P>)
    requires ValidKZG(kzg) && HalfOfRow(kzg, blob, size, slots)
    ensures var shards := SegmentDatasToRow(slots, size);
            IsPow2(|shards|) && |shards| <= kzg.fs.maxWidth && RecoverPoly(kzg.fs, kzg.recover, shards) == Ok(blob)
  {
    var shards := SegmentDatasToRow(slots, size);
    RowErasureIsErasure(kzg.fs, blob, size, slots);
    assert |blob| <= |Known(shards)| by {
      RowCount(slots, size);
      CountIsKnown(shards);
      HalfKnown(|slots|, CountSome(slots), size, |blob|);
    }
    RecoverPolyCorrect(kzg.fs, kzg.recover, blob, shards);
  }

  /** The polynomial recovered from the slots of a row. */
  ghost predicate RecoveredPoly<P>(kzg: KZG<Scalar, P>, size: nat, slots: Slots<Scalar, P>, poly: seq<Scalar>) {
    var shards := SegmentDatasToRow(slots, size);
    IsPow2(|shards|) && |shards| <= kzg.fs.maxWidth && RecoverPoly(kzg.fs, kzg.recover, shards) == Ok(poly)
  }

  /**
   End to end: encode bytes as blobs, extend each blob to a row, keep any half of the segments of
   each row. The polynomials recovered from them, as bytes, are the bytes followed by zeros.
   */
  lemma BytesRecovered<P>(kzg: KZG<Scalar, P>, bytes: seq<Byte>, n: nat, size: nat, rows: seq<Slots<Scalar, P>>,
      polys: seq<Blob>)
    requires ValidKZG(kzg) && |bytes| > 0 && IsPow2(n)
    requires |rows| == |polys| == |BytesToBlobs(bytes, n).value|
    requires forall y :: 0 <= y < |rows| ==> HalfOfRow(kzg, BytesToBlobs(bytes, n).value[y], size, rows[y])
    requires forall y :: 0 <= y < |rows| ==> RecoveredPoly(kzg, size, rows[y], polys[y])
    ensures IsPadded(BlobsToBytes(polys), bytes)
  {
    var blobs := BytesToBlobs(bytes, n).value;
    BytesToBlobsCorrect(bytes, n);
    forall y | 0 <= y < |rows| ensures polys[y] == blobs[y] {
      RowGivesBlob(kzg, blobs[y], size, rows[y]);
      assert RecoveredPoly(kzg, size, rows[y], polys[y]);
    }
    assert polys == blobs;
  }
}
