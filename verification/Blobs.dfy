/**
 `das-primitives/src/blob.rs` and `melo-erasure-coding/src/lib.rs`: bytes as blobs of scalars, 31
 bytes to a scalar, and back.
 */
module Blobs {
  import opened Wrappers
  import opened Encoding
  import opened Bits

  /** BLS_MODULUS, the order of the scalar field (Parameters section of EIP-4844). */
  const BLS_MODULUS: nat := 0x73eda753299d7d483339d80809a1d80553bda402fffe5bfeffffffff00000001

  type Scalar = s: int | 0 <= s < BLS_MODULUS

  const SCALAR_SAFE_BYTES: nat := 31

  type Blob = seq<Scalar>

  // ----- scalars -----

  /** The number with the given bytes, lowest first. */
  function LeValue(bytes: seq<Byte>): nat {
    if |bytes| == 0 then 0 else bytes[0] + 256 * LeValue(bytes[1..])
  }

  /** The k low bytes of n, lowest first. */
  function LeBytes(n: nat, k: nat): (r: seq<Byte>)
    ensures |r| == k
  {
    if k == 0 then [] else [n % 256] + LeBytes(n / 256, k - 1)
  }

  function Pow256(k: nat): nat {
    if k == 0 then 1 else 256 * Pow256(k - 1)
  }

  lemma {:induction false} LeRoundTrip(bytes: seq<Byte>)
    ensures LeBytes(LeValue(bytes), |bytes|) == bytes
    ensures LeValue(bytes) < Pow256(|bytes|)
  {
    if |bytes| > 0 {
      LeRoundTrip(bytes[1..]);
      var v := LeValue(bytes[1..]);
      assert (bytes[0] + 256 * v) / 256 == v && (bytes[0] + 256 * v) % 256 == bytes[0];
    }
  }

  lemma {:induction false} LeValueAppendZero(bytes: seq<Byte>)
    ensures LeValue(bytes + [0]) == LeValue(bytes)
  {
    if |bytes| == 0 {
      assert bytes + [0] == [0];
      assert [0][1..] == [];
    } else {
      LeValueAppendZero(bytes[1..]);
      assert (bytes + [0])[1..] == bytes[1..] + [0];
    }
  }

  lemma SafeBytesFit()
    ensures Pow256(31) < BLS_MODULUS
  {
    assert Pow256(8) == 0x1_0000_0000_0000_0000;
    assert Pow256(16) == 0x1_0000_0000_0000_0000_0000_0000_0000_0000;
    assert Pow256(24) == 0x1_0000_0000_0000_0000_0000_0000_0000_0000_0000_0000_0000_0000;
  }

  /** `BlsScalar::try_from` of 32 bytes: refuses numbers that are not below the modulus. */
  function ScalarFromBytes(bytes: seq<Byte>): Result<Scalar>
    requires |bytes| == 32
  {
    if LeValue(bytes) < BLS_MODULUS then Ok(LeValue(bytes)) else Err("Invalid scalar")
  }

  /** `try_from_bytes_safe`: 31 bytes and a zero byte. */
  function ScalarFromSafeBytes(bytes: seq<Byte>): Result<Scalar>
    requires |bytes| == SCALAR_SAFE_BYTES
  {
    ScalarFromBytes(bytes + [0])
  }

  /** `to_bytes_safe`: the first 31 of the 32 bytes. */
  function ScalarToSafeBytes(s: Scalar): (r: seq<Byte>)
    ensures |r| == SCALAR_SAFE_BYTES
  {
    LeBytes(s, 32)[..SCALAR_SAFE_BYTES]
  }

  /** 31 bytes always make a scalar, and it gives them back. */
  lemma SafeBytesRoundTrip(bytes: seq<Byte>)
    requires |bytes| == SCALAR_SAFE_BYTES
    ensures ScalarFromSafeBytes(bytes).Ok? && ScalarToSafeBytes(ScalarFromSafeBytes(bytes).value) == bytes
  {
    LeRoundTrip(bytes);
    SafeBytesFit();
    LeValueAppendZero(bytes);
    LeRoundTrip(bytes + [0]);
    assert (bytes + [0])[..31] == bytes;
  }

  // ----- blobs -----

  /** `Blob::from_bytes`: chunk by chunk; a short last chunk fails. */
  function BlobFromBytes(bytes: seq<Byte>): Result<Blob>
    decreases |bytes|
  {
    if |bytes| == 0 then Ok([])
    else if |bytes| < SCALAR_SAFE_BYTES then Err("Chunked into incorrect number of bytes")
    else
      var head :- ScalarFromSafeBytes(bytes[..SCALAR_SAFE_BYTES]);
      var tail :- BlobFromBytes(bytes[SCALAR_SAFE_BYTES..]);
      Ok([head] + tail)
  }

  /** `Blob::to_bytes` */
  function BlobToBytes(blob: Blob): seq<Byte> {
    if |blob| == 0 then [] else ScalarToSafeBytes(blob[0]) + BlobToBytes(blob[1..])
  }

  /** `try_from_bytes_pad`: fill up with zero bytes. */
  function BlobFromBytesPad(bytes: seq<Byte>, bytesPerBlob: nat): Result<Blob> {
    if |bytes| > bytesPerBlob then Err("Invalid byte length")
    else BlobFromBytes(bytes + seq(bytesPerBlob - |bytes|, _ => 0))
  }

  /** Bytes that fill whole scalars make a blob that gives them back. */
  lemma {:induction false} BlobRoundTrip(bytes: seq<Byte>, n: nat)
    requires |bytes| == SCALAR_SAFE_BYTES * n
    ensures BlobFromBytes(bytes).Ok? && |BlobFromBytes(bytes).value| == n
    ensures BlobToBytes(BlobFromBytes(bytes).value) == bytes
  {
    if n > 0 {
      SafeBytesRoundTrip(bytes[..SCALAR_SAFE_BYTES]);
      BlobRoundTrip(bytes[SCALAR_SAFE_BYTES..], n - 1);
      assert bytes == bytes[..SCALAR_SAFE_BYTES] + bytes[SCALAR_SAFE_BYTES..];
    }
  }

  /** Bytes that do not fill whole scalars do not make a blob. */
  lemma {:induction false} ShortChunkFails(bytes: seq<Byte>, n: nat, rest: nat)
    requires |bytes| == SCALAR_SAFE_BYTES * n + rest && 0 < rest < SCALAR_SAFE_BYTES
    ensures BlobFromBytes(bytes).Err?
  {
    if n > 0 {
      ShortChunkFails(bytes[SCALAR_SAFE_BYTES..], n - 1, rest);
    }
  }

  /** Bytes followed by zero bytes. */
  ghost predicate IsPadded(a: seq<Byte>, bytes: seq<Byte>) {
    |bytes| <= |a| && a[..|bytes|] == bytes && forall i :: |bytes| <= i < |a| ==> a[i] == 0
  }

  lemma PaddedRoundTrip(bytes: seq<Byte>, n: nat)
    requires |bytes| <= SCALAR_SAFE_BYTES * n
    ensures var r := BlobFromBytesPad(bytes, SCALAR_SAFE_BYTES * n);
      && r.Ok? && |r.value| == n && |BlobToBytes(r.value)| == SCALAR_SAFE_BYTES * n
      && IsPadded(BlobToBytes(r.value), bytes)
  {
    BlobRoundTrip(bytes + seq(SCALAR_SAFE_BYTES * n - |bytes|, _ => 0), n);
  }

  // ----- many blobs -----

  /** The blob of a chunk; the code expects the conversion to succeed. */
  function ExpectBlob(chunk: seq<Byte>, n: nat): Blob
    requires |chunk| <= SCALAR_SAFE_BYTES * n
  {
    PaddedRoundTrip(chunk, n);
    BlobFromBytesPad(chunk, SCALAR_SAFE_BYTES * n).value
  }

  function BlobsOfChunks(bytes: seq<Byte>, n: nat): seq<Blob>
    requires n > 0
    decreases |bytes|
  {
    var size := SCALAR_SAFE_BYTES * n;
    if |bytes| == 0 then []
    else if |bytes| <= size then [ExpectBlob(bytes, n)]
    else [ExpectBlob(bytes[..size], n)] + BlobsOfChunks(bytes[size..], n)
  }

  /** `bytes_to_blobs` */
  function BytesToBlobs(bytes: seq<Byte>, n: nat): Result<seq<Blob>> {
    if |bytes| == 0 then Err("bytes should not contain empty bytes; qed")
    else if !IsPow2(n) then Err("field_elements_per_blob should be a power of 2; qed")
    else Ok(BlobsOfChunks(bytes, n))
  }

  function BlobsToBytes(blobs: seq<Blob>): seq<Byte> {
    if |blobs| == 0 then [] else BlobToBytes(blobs[0]) + BlobsToBytes(blobs[1..])
  }

  /** `Blob::blob_count` */
  function BlobCount(bytesLen: nat, bytesPerBlob: nat): nat
    requires bytesPerBlob > 0
  {
    (bytesLen + bytesPerBlob - 1) / bytesPerBlob
  }

  lemma OneMore(len: nat, d: nat)
    requires d > 0 && len > d
    ensures BlobCount(len, d) == 1 + BlobCount(len - d, d)
  {
    var x := len - 1;
    var q := x / d;
    DivModUnique(x + d, d, q + 1, x % d);
  }

  lemma OneBlob(len: nat, d: nat)
    requires 0 < len <= d
    ensures BlobCount(len, d) == 1
  {
    DivModUnique(len + d - 1, d, 1, len - 1);
  }

  lemma {:induction false} BlobsCounted(bytes: seq<Byte>, n: nat)
    requires n > 0 && |bytes| > 0
    ensures |BlobsOfChunks(bytes, n)| == BlobCount(|bytes|, SCALAR_SAFE_BYTES * n)
    decreases |bytes|
  {
    var size := SCALAR_SAFE_BYTES * n;
    if |bytes| <= size {
      OneBlob(|bytes|, size);
    } else {
      BlobsCounted(bytes[size..], n);
      OneMore(|bytes|, size);
    }
  }

  lemma PaddedConcat(head: seq<Byte>, tail: seq<Byte>, bytes: seq<Byte>)
    requires |head| <= |bytes| && head == bytes[..|head|] && IsPadded(tail, bytes[|head|..])
    ensures IsPadded(head + tail, bytes)
  {
    assert (head + tail)[..|bytes|] == head + tail[..|bytes| - |head|];
    assert bytes == bytes[..|head|] + bytes[|head|..];
  }

  /** The blobs of all bytes have n scalars each, and their bytes are the original ones followed by zeros. */
  lemma {:induction false} BlobsRoundTrip(bytes: seq<Byte>, n: nat)
    requires n > 0
    ensures forall b :: b in BlobsOfChunks(bytes, n) ==> |b| == n
    ensures IsPadded(BlobsToBytes(BlobsOfChunks(bytes, n)), bytes)
    decreases |bytes|
  {
    var size := SCALAR_SAFE_BYTES * n;
    var blobs := BlobsOfChunks(bytes, n);
    if 0 < |bytes| <= size {
      PaddedRoundTrip(bytes, n);
      assert blobs[1..] == [];
      assert BlobsToBytes(blobs) == BlobToBytes(blobs[0]);
    } else if |bytes| > size {
      PaddedRoundTrip(bytes[..size], n);
      BlobsRoundTrip(bytes[size..], n);
      assert blobs[1..] == BlobsOfChunks(bytes[size..], n);
      PaddedConcat(BlobToBytes(blobs[0]), BlobsToBytes(blobs[1..]), bytes);
    }
  }

  /**
   `bytes_to_blobs` succeeds exactly on nonempty bytes and a power of two n: it makes ceil(len / 31n)
   blobs of n scalars, and the bytes of the blobs are the input followed by zeros.
   */
  lemma BytesToBlobsCorrect(bytes: seq<Byte>, n: nat)
    ensures BytesToBlobs(bytes, n).Ok? <==> |bytes| > 0 && IsPow2(n)
    ensures BytesToBlobs(bytes, n).Ok? ==>
              var blobs := BytesToBlobs(bytes, n).value;
              && |blobs| == BlobCount(|bytes|, SCALAR_SAFE_BYTES * n)
              && (forall b :: b in blobs ==> |b| == n)
              && IsPadded(BlobsToBytes(blobs), bytes)
  {
    if BytesToBlobs(bytes, n).Ok? {
      BlobsCounted(bytes, n);
      BlobsRoundTrip(bytes, n);
    }
  }
}
