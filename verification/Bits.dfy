/** Powers of two, bit reversal of indexes, and the reordering of buffers by bit-reversed index. */
module Bits {

  function Pow2(k: nat): (r: nat)
    ensures r >= 1
  {
    if k == 0 then 1 else 2 * Pow2(k - 1)
  }

  /** `usize::is_power_of_two`; zero is not one. */
  predicate IsPow2(n: nat) {
    n == 1 || (n > 1 && n % 2 == 0 && IsPow2(n / 2))
  }

  function Log2(n: nat): (k: nat)
    requires IsPow2(n)
    ensures Pow2(k) == n
  {
    if n == 1 then 0 else 1 + Log2(n / 2)
  }

  /** The number with b zero bits below it. */
  function ShiftLeft(i: nat, b: nat): nat {
    if b == 0 then i else 2 * ShiftLeft(i, b - 1)
  }

  /** The number without its b low bits. */
  function ShiftRight(i: nat, b: nat): nat {
    if b == 0 then i else ShiftRight(i / 2, b - 1)
  }

  lemma TwiceProduct(i: nat, p: nat, twice: nat)
    requires twice == 2 * p
    ensures i * twice == 2 * (i * p)
  {
  }

  lemma {:induction false} ShiftIsProduct(i: nat, b: nat)
    ensures ShiftLeft(i, b) == i * Pow2(b)
  {
    if b > 0 {
      ShiftIsProduct(i, b - 1);
      TwiceProduct(i, Pow2(b - 1), Pow2(b));
    }
  }

  lemma {:induction false} ShiftAdd(i: nat, j: nat, b: nat)
    ensures ShiftLeft(i + j, b) == ShiftLeft(i, b) + ShiftLeft(j, b)
  {
    if b > 0 {
      ShiftAdd(i, j, b - 1);
    }
  }

  lemma {:induction false} ShiftPow2(a: nat, b: nat)
    ensures ShiftLeft(Pow2(a), b) == Pow2(a + b) && ShiftLeft(0, b) == 0
  {
    if b > 0 {
      ShiftPow2(a, b - 1);
    }
  }

  lemma Pow2Add(a: nat, b: nat)
    ensures Pow2(a + b) == Pow2(a) * Pow2(b)
  {
    ShiftPow2(a, b);
    ShiftIsProduct(Pow2(a), b);
  }

  lemma {:induction false} ShiftedOut(i: nat, b: nat)
    ensures ShiftRight(i, b) == 0 <==> i < Pow2(b)
    decreases b
  {
    if b > 0 {
      ShiftedOut(i / 2, b - 1);
    }
  }

  lemma {:induction false} ShiftBelow(i: nat, a: nat, b: nat)
    requires i < Pow2(a + b)
    ensures ShiftRight(i, b) < Pow2(a)
    decreases b
  {
    if b > 0 {
      ShiftBelow(i / 2, a, b - 1);
    }
  }

  /** A number shifted left and added to a smaller one comes back when it is shifted right. */
  lemma {:induction false} ShiftBack(hi: nat, lo: nat, b: nat)
    requires lo < Pow2(b)
    ensures ShiftRight(ShiftLeft(hi, b) + lo, b) == hi
    decreases b
  {
    if b > 0 {
      ShiftBack(hi, lo / 2, b - 1);
      assert (ShiftLeft(hi, b) + lo) / 2 == ShiftLeft(hi, b - 1) + lo / 2;
    }
  }

  lemma {:induction false} Pow2IsPow2(k: nat)
    ensures IsPow2(Pow2(k)) && Log2(Pow2(k)) == k
  {
    if k > 0 {
      Pow2IsPow2(k - 1);
      assert Pow2(k) / 2 == Pow2(k - 1);
    }
  }

  lemma {:induction false} Pow2Monotone(a: nat, b: nat)
    requires a <= b
    ensures Pow2(a) <= Pow2(b)
  {
    if a < b {
      Pow2Monotone(a, b - 1);
    }
  }

  lemma {:induction false} Log2Monotone(a: nat, b: nat)
    requires IsPow2(a) && IsPow2(b) && a <= b
    ensures Log2(a) <= Log2(b)
  {
    if Log2(b) < Log2(a) {
      Pow2Monotone(Log2(b) + 1, Log2(a));
    }
  }

  /** A smaller power of two divides a larger one, and the quotient is a power of two. */
  lemma {:induction false} Pow2Divides(n: nat, w: nat)
    requires IsPow2(n) && IsPow2(w) && n <= w
    ensures n > 0 && w % n == 0 && (w / n) * n == w && w / n >= 1 && IsPow2(w / n)
    ensures Log2(w) == Log2(w / n) + Log2(n)
  {
    Log2Monotone(n, w);
    var k := Log2(w) - Log2(n);
    Pow2Add(k, Log2(n));
    assert w == Pow2(k) * n;
    MulDiv(Pow2(k), n);
    Pow2IsPow2(k);
  }

  lemma {:induction false} Pow2Mul(a: nat, b: nat)
    requires IsPow2(a) && IsPow2(b)
    ensures IsPow2(a * b) && Log2(a * b) == Log2(a) + Log2(b)
  {
    var k := Log2(a) + Log2(b);
    Pow2Add(Log2(a), Log2(b));
    Pow2IsPow2(k);
    assert Pow2(k) == a * b;
  }

  lemma MulDiv(q: nat, n: nat)
    requires n > 0
    ensures (q * n) / n == q && (q * n) % n == 0
  {
    DivModUnique(q * n, n, q, 0);
  }

  lemma {:induction false} Pow2Div(k: nat, a: nat)
    requires a <= k
    ensures Divided(Pow2(k), Pow2(a)) == Pow2(k - a)
  {
    Pow2Add(k - a, a);
    MulDiv(Pow2(k - a), Pow2(a));
    DividedIsQuotient(Pow2(k), Pow2(a));
  }

  lemma PositiveProduct(a: nat, b: nat)
    requires a > 0 && b > 0
    ensures a * b > 0
  {
  }

  /** The product, as repeated addition: proofs about rows of equal size need no more. */
  function Times(a: nat, b: nat): nat {
    if a == 0 then 0 else b + Times(a - 1, b)
  }

  lemma {:induction false} TimesIsProduct(a: nat, b: nat)
    ensures Times(a, b) == a * b
  {
    if a > 0 {
      TimesIsProduct(a - 1, b);
      assert a * b == b + (a - 1) * b;
    }
  }

  /** The quotient rounded down, as repeated subtraction. */
  function Divided(a: nat, d: nat): nat
    requires d > 0
  {
    if a < d then 0 else 1 + Divided(a - d, d)
  }

  lemma {:induction false} DividedIsQuotient(a: nat, d: nat)
    requires d > 0
    ensures Divided(a, d) == a / d
  {
    if a < d {
      DivModUnique(a, d, 0, a);
    } else {
      DividedIsQuotient(a - d, d);
      DivModUnique(a, d, (a - d) / d + 1, (a - d) % d);
    }
  }

  lemma {:induction false} TimesMonotone(a: nat, b: nat, c: nat)
    requires a <= b
    ensures Times(a, c) <= Times(b, c)
    ensures a < b ==> Times(a, c) + c <= Times(b, c)
  {
    if a < b {
      TimesMonotone(a, b - 1, c);
    }
  }

  lemma {:induction false} TimesTwice(a: nat, b: nat)
    ensures Times(2 * a, b) == 2 * Times(a, b)
  {
    if a > 0 {
      TimesTwice(a - 1, b);
      assert Times(2 * a, b) == b + Times(2 * a - 1, b);
    }
  }

  lemma MulFloor(d: int, n: int)
    requires n > 0
    ensures d > 0 ==> d * n >= n
    ensures d < 0 ==> d * n <= -n
  {
  }

  lemma DivModUnique(x: int, n: int, q: int, r: int)
    requires n > 0 && x == q * n + r && 0 <= r < n
    ensures x / n == q && x % n == r
  {
    var d := x / n - q;
    assert x == (x / n) * n + x % n;
    assert d * n == (x / n) * n - q * n;
    MulFloor(d, n);
  }

  // ----- bit reversal -----

  /** The k low bits of i in the opposite order. */
  function BitRev(k: nat, i: nat): (r: nat)
    ensures r < Pow2(k)
  {
    if k == 0 then 0 else LowBit(i, Pow2(k - 1)) + BitRev(k - 1, i / 2)
  }

  /** The place value if the number is odd. */
  function LowBit(i: nat, place: nat): nat {
    if i % 2 == 1 then place else 0
  }

  lemma {:induction false} BitRevZero(k: nat)
    ensures BitRev(k, 0) == 0
  {
    if k > 0 {
      BitRevZero(k - 1);
    }
  }

  lemma DropLowBit(bit: nat, p: nat, twice: nat, lo: nat)
    requires twice == 2 * p
    ensures (LowBit(bit, twice) + lo) % 2 == lo % 2
    ensures (LowBit(bit, twice) + lo) / 2 == LowBit(bit, p) + lo / 2
    ensures LowBit(lo, twice) == 2 * LowBit(lo, p)
  {
  }

  /** The top one of k bits becomes the lowest. */
  lemma {:induction false} TopBit(k: nat, bit: nat, lo: nat)
    requires k > 0 && bit < 2 && lo < Pow2(k - 1)
    ensures BitRev(k, LowBit(bit, Pow2(k - 1)) + lo) == 2 * BitRev(k - 1, lo) + bit
  {
    if k == 1 {
      assert Pow2(0) == 1;
    } else {
      var v := LowBit(bit, Pow2(k - 1)) + lo;
      DropLowBit(bit, Pow2(k - 2), Pow2(k - 1), lo);
      assert BitRev(k, v) == LowBit(lo, Pow2(k - 1)) + BitRev(k - 1, v / 2);
      TopBit(k - 1, bit, lo / 2);
    }
  }

  lemma {:induction false} BitRevInvolution(k: nat, i: nat)
    requires i < Pow2(k)
    ensures BitRev(k, BitRev(k, i)) == i
  {
    if k > 0 {
      BitRevInvolution(k - 1, i / 2);
      TopBit(k, i % 2, BitRev(k - 1, i / 2));
    }
  }

  /** Reversing a + b bits puts the reversal of the b low ones above that of the a others. */
  lemma {:induction false} BitRevShifts(a: nat, b: nat, i: nat)
    ensures BitRev(a + b, i) == ShiftLeft(BitRev(b, i), a) + BitRev(a, ShiftRight(i, b))
    decreases b
  {
    if b == 0 {
      ShiftPow2(0, a);
    } else {
      BitRevShifts(a, b - 1, i / 2);
      assert BitRev(a + b, i) == LowBit(i, Pow2(a + b - 1)) + BitRev(a + b - 1, i / 2);
      ShiftAdd(LowBit(i, Pow2(b - 1)), BitRev(b - 1, i / 2), a);
      ShiftPow2(b - 1, a);
    }
  }

  lemma BitRevCut(a: nat, b: nat, i: nat)
    ensures BitRev(a + b, i) == BitRev(b, i) * Pow2(a) + BitRev(a, ShiftRight(i, b))
  {
    BitRevShifts(a, b, i);
    ShiftIsProduct(BitRev(b, i), a);
  }

  lemma {:induction false} BitsAbove(b: nat, hi: nat, lo: nat)
    ensures BitRev(b, ShiftLeft(hi, b) + lo) == BitRev(b, lo)
    decreases b
  {
    if b > 0 {
      BitsAbove(b - 1, hi, lo / 2);
      assert (ShiftLeft(hi, b) + lo) / 2 == ShiftLeft(hi, b - 1) + lo / 2;
    }
  }

  /** Reversing a block of high bits above a block of low bits swaps the blocks and reverses each. */
  lemma BitRevSplit(a: nat, b: nat, hi: nat, lo: nat)
    requires lo < Pow2(b)
    ensures BitRev(a + b, hi * Pow2(b) + lo) == BitRev(b, lo) * Pow2(a) + BitRev(a, hi)
  {
    ShiftIsProduct(hi, b);
    BitRevCut(a, b, ShiftLeft(hi, b) + lo);
    BitsAbove(b, hi, lo);
    ShiftBack(hi, lo, b);
  }

  lemma BitRevUpper(z: nat, c: nat, value: nat)
    requires value < Pow2(c)
    ensures BitRev(z + c, value) == BitRev(c, value) * Pow2(z)
  {
    BitRevCut(z, c, value);
    ShiftedOut(value, c);
    BitRevZero(z);
  }

  /** The sequence reordered by bit-reversed index. */
  function Reordered<T>(s: seq<T>): (r: seq<T>)
    requires IsPow2(|s|)
    ensures |r| == |s|
  {
    seq(|s|, i requires 0 <= i < |s| => s[BitRev(Log2(|s|), i)])
  }

  lemma {:induction false} ReorderedTwice<T>(s: seq<T>)
    requires IsPow2(|s|)
    ensures Reordered(Reordered(s)) == s
  {
    forall i | 0 <= i < |s| ensures Reordered(Reordered(s))[i] == s[i] {
      BitRevInvolution(Log2(|s|), i);
    }
  }

  /** `reverse_bit_order`: swap every index with its reversal, once. */
  method ReverseBitOrder<T>(a: array<T>)
    requires IsPow2(a.Length)
    modifies a
    ensures a[..] == Reordered(old(a[..]))
  {
    var k := Log2(a.Length);
    ghost var was := a[..];
    for i := 0 to a.Length
      invariant forall j {:trigger a[j]} :: 0 <= j < a.Length ==>
        a[j] == if j < i || BitRev(k, j) < i then was[BitRev(k, j)] else was[j]
    {
      var r := BitRev(k, i);
      BitRevInvolution(k, i);
      forall j | 0 <= j < a.Length ensures BitRev(k, BitRev(k, j)) == j {
        BitRevInvolution(k, j);
      }
      if r > i {
        a[i], a[r] := a[r], a[i];
      }
    }
  }

  // ----- machine words of any width: `usize` is 32 bits in the runtime and 64 bits in the node -----

  /** `usize::leading_zeros` of a power of two. */
  function LeadingZeros(word: nat, n: nat): nat
    requires IsPow2(n) && Log2(n) < word
  {
    word - 1 - Log2(n)
  }

  /** `KZG::reverse_bits_limited`: reverse all bits of the word, then drop the unused low ones. */
  function ReverseBitsLimited(word: nat, length: nat, value: nat): nat
    requires IsPow2(length) && Log2(length) < word
  {
    ShiftRight(BitRev(word, value), LeadingZeros(word, length))
  }

  /** Whatever the chunk index, this is the reversal of its low bits, one more than `length` has. */
  lemma ReverseBitsLimitedCorrect(word: nat, length: nat, value: nat)
    requires IsPow2(length) && Log2(length) < word
    ensures ReverseBitsLimited(word, length, value) == BitRev(Log2(length) + 1, value)
  {
    var c, z := Log2(length) + 1, LeadingZeros(word, length);
    assert word == z + c;
    BitRevShifts(z, c, value);
    ShiftBack(BitRev(c, value), BitRev(z, ShiftRight(value, c)), z);
  }
}
