/**
 How a farmer picks piece indexes from a hash, and how a solution's index is checked against one
 (crates/proof-of-space/src/utils.rs).
 */
module IndexSelection {
  import opened Encoding
  import opened Bits

  /** Bit j of a number, the lowest being bit 0. */
  predicate Bit(b: nat, j: nat) {
    if j == 0 then b % 2 == 1 else Bit(b / 2, j - 1)
  }

  /** Bit i of a hash as a bit vector reads it: each byte from its highest bit down. */
  predicate VectorBit(hash: seq<Byte>, i: nat)
    requires i < 8 * |hash|
  {
    Bit(hash[i / 8], 7 - i % 8)
  }

  /** n set bits from index i on, going round at the end of the vector. */
  ghost predicate SetRun(hash: seq<Byte>, i: nat, n: nat)
    requires |hash| > 0
  {
    forall j: nat :: j < n ==> VectorBit(hash, Around(i, j, 8 * |hash|))
  }

  function Around(i: nat, j: nat, len: nat): (r: nat)
    requires len > 0
    ensures r < len
  {
    (i + j) % len
  }

  /** `select_indices`: exactly the indexes of the range that start a run of n set bits, in order. */
  method SelectIndices(hash: seq<Byte>, start: nat, end: nat, n: nat) returns (indices: seq<nat>)
    requires |hash| == 32
    ensures forall i: nat :: i in indices <==> 0 < n <= 256 && start <= i < end <= 256 && SetRun(hash, i, n)
    ensures forall j, k :: 0 <= j < k < |indices| ==> indices[j] < indices[k]
  {
    indices := [];
    if n == 0 || n > 256 || start >= end || end > 256 {
      return;
    }
    for i := start to end
      invariant forall k: nat :: k in indices <==> start <= k < i && SetRun(hash, k, n)
      invariant forall j, k :: 0 <= j < k < |indices| ==> indices[j] < indices[k]
    {
      var allOnes := true;
      var j := 0;
      while j < n && allOnes
        invariant j <= n
        invariant allOnes ==> SetRun(hash, i, j)
        invariant !allOnes ==> !SetRun(hash, i, n)
      {
        allOnes := VectorBit(hash, Around(i, j, 256));
        j := j + 1;
      }
      if allOnes {
        forall k | 0 <= k < |indices| ensures indices[k] < i {
          assert indices[k] in indices;
        }
        indices := indices + [i];
      }
    }
  }

  /** The bit the check reads at an offset: each byte from its lowest bit up; false past the end of the hash. */
  predicate CheckedBit(hash: seq<Byte>, index: nat, offset: nat) {
    var bit := index % 8 + offset;
    var byte := index / 8 + bit / 8;
    byte < |hash| && Bit(hash[byte], bit % 8)
  }

  /** `is_index_valid`: n set bits from the index on, all below the bound. */
  predicate IsIndexValid(hash: seq<Byte>, index: nat, maxIndex: nat, n: nat) {
    && |hash| >= 32
    && index < maxIndex * 8
    && index + n <= maxIndex * 8
    && forall offset: nat :: offset < n ==> CheckedBit(hash, index, offset)
  }

  /** The hash with the bits of each byte in the opposite order. */
  function Mirrored(hash: seq<Byte>): (r: seq<Byte>)
    ensures |r| == |hash|
  {
    seq(|hash|, (k: nat) requires k < |hash| => MirrorByte(hash[k]))
  }

  function MirrorByte(b: Byte): (r: Byte) {
    assert Pow2(8) == 256 by { Pow2Eight(); }
    BitRev(8, b)
  }

  lemma Pow2Eight()
    ensures Pow2(8) == 256
  {
    assert Pow2(4) == 16;
  }

  /** A bit placed above m lower bits. */
  lemma {:induction false} BitAbove(m: nat, x: nat, y: nat, j: nat)
    requires y < Pow2(m) && j <= m
    ensures Bit(LowBit(x, Pow2(m)) + y, j) == if j == m then x % 2 == 1 else Bit(y, j)
  {
    if m > 0 {
      DropLowBit(x, Pow2(m - 1), Pow2(m), y);
      if j > 0 {
        BitAbove(m - 1, x, y / 2, j - 1);
      }
    }
  }

  /** Reversing k bits moves bit j to bit k - 1 - j. */
  lemma {:induction false} BitRevBit(k: nat, b: nat, j: nat)
    requires j < k
    ensures Bit(BitRev(k, b), j) == Bit(b, k - 1 - j)
  {
    BitAbove(k - 1, b, BitRev(k - 1, b / 2), j);
    if j < k - 1 {
      BitRevBit(k - 1, b / 2, j);
    }
  }

  /** Bit by bit, the check on the mirrored hash reads what the selection reads, up to the end of the hash. */
  lemma CheckedIsVectorBit(hash: seq<Byte>, i: nat, j: nat)
    requires i + j < 8 * |hash|
    ensures CheckedBit(Mirrored(hash), i, j) == VectorBit(hash, i + j)
  {
    var at := i + j;
    assert at == 8 * (i / 8) + (i % 8 + j);
    BitRevBit(8, hash[at / 8], at % 8);
  }

  lemma NothingPastTheEnd(hash: seq<Byte>, i: nat, j: nat)
    requires i + j >= 8 * |hash|
    ensures !CheckedBit(hash, i, j)
  {
    assert i + j == 8 * (i / 8) + (i % 8 + j);
  }

  /**
   Selection against check: on the mirrored hash `is_index_valid` accepts an index that
   `select_indices` picks exactly when its run of bits does not go round the end, and accepts no other.
   */
  lemma SelectionMatchesCheck(hash: seq<Byte>, i: nat, n: nat)
    requires |hash| == 32 && n >= 1 && i < 256
    ensures IsIndexValid(Mirrored(hash), i, 32, n) <==> SetRun(hash, i, n) && i + n <= 256
  {
    if i + n <= 256 {
      if SetRun(hash, i, n) {
        SelectedIsValid(hash, i, n);
      }
      if IsIndexValid(Mirrored(hash), i, 32, n) {
        ValidIsSelected(hash, i, n);
      }
    }
  }

  lemma SelectedIsValid(hash: seq<Byte>, i: nat, n: nat)
    requires |hash| == 32 && 1 <= n && i + n <= 256
    requires SetRun(hash, i, n)
    ensures IsIndexValid(Mirrored(hash), i, 32, n)
  {
    forall j: nat | j < n ensures CheckedBit(Mirrored(hash), i, j) {
      assert VectorBit(hash, Around(i, j, 8 * |hash|));
      assert Around(i, j, 8 * |hash|) == i + j;
      CheckedIsVectorBit(hash, i, j);
    }
  }

  lemma AroundBelow(i: nat, j: nat)
    requires i + j < 256
    ensures Around(i, j, 256) == i + j
  {
  }

  lemma ValidIsSelected(hash: seq<Byte>, i: nat, n: nat)
    requires |hash| == 32 && 1 <= n && i + n <= 256
    requires IsIndexValid(Mirrored(hash), i, 32, n)
    ensures SetRun(hash, i, n)
  {
    forall j: nat | j < n ensures VectorBit(hash, Around(i, j, 8 * |hash|)) {
      assert CheckedBit(Mirrored(hash), i, j);
      AroundBelow(i, j);
      CheckedIsVectorBit(hash, i, j);
    }
  }

  /** No bound on the index makes the check accept a run that goes past the end of a 32-byte hash. */
  lemma CheckNeverWraps(hash: seq<Byte>, i: nat, maxIndex: nat, n: nat)
    requires |hash| == 32 && n >= 1 && i + n > 256
    ensures !IsIndexValid(hash, i, maxIndex, n)
  {
    NothingPastTheEnd(hash, i, n - 1);
  }

  /** A run that goes round the end is selected: the last bit and the first. */
  lemma WrappingSelected(hash: seq<Byte>)
    requires |hash| == 32 && Bit(hash[0], 7) && Bit(hash[31], 0)
    ensures SetRun(hash, 255, 2) && !IsIndexValid(Mirrored(hash), 255, 32, 2)
  {
    CheckNeverWraps(Mirrored(hash), 255, 32, 2);
    assert VectorBit(hash, 255) && VectorBit(hash, 0);
    forall j: nat | j < 2 ensures VectorBit(hash, Around(255, j, 256)) {
      assert Around(255, j, 256) == if j == 0 then 255 else 0;
    }
  }

  /** Without the mirroring the two disagree: of a byte with only its highest bit set they read opposite ends. */
  lemma BitOrdersDiffer()
    ensures var hash: seq<Byte> := seq(32, (k: nat) => 128);
      SetRun(hash, 0, 1) && !IsIndexValid(hash, 0, 32, 1) && IsIndexValid(hash, 7, 32, 1) && !SetRun(hash, 7, 1)
  {
    var hash: seq<Byte> := seq(32, (k: nat) => 128);
    HighestBit();
    assert VectorBit(hash, Around(0, 0, 256)) && !VectorBit(hash, Around(7, 0, 256));
    assert CheckedBit(hash, 7, 0) && !CheckedBit(hash, 0, 0);
  }

  lemma HighestBit()
    ensures Bit(128, 7) && !Bit(128, 0)
  {
    assert Bit(2, 1);
    assert Bit(8, 3);
    assert Bit(32, 5);
  }
}
