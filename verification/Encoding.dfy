/** Bytes, and the fixed-width encodings of numbers that database and network keys are made of. */
module Encoding {

  type Byte = x: int | 0 <= x < 256
  type Key = seq<Byte>

  const U32_SIZE: nat := 0x1_0000_0000

  /** Four bytes, lowest first; of a larger number the low 32 bits. */
  function Le4(n: nat): (r: seq<Byte>)
    ensures |r| == 4
  {
    var q := n / 256;
    var r := q / 256;
    [n % 256, q % 256, r % 256, r / 256 % 256]
  }

  /** Four bytes, highest first. */
  function Be4(n: nat): (r: seq<Byte>)
    ensures |r| == 4
  {
    var l := Le4(n);
    [l[3], l[2], l[1], l[0]]
  }

  lemma Le4Injective(a: nat, b: nat)
    requires a < U32_SIZE && b < U32_SIZE
    ensures Le4(a) == Le4(b) <==> a == b
  {
    if Le4(a) == Le4(b) {
      var q, p := a / 256, b / 256;
      var r, s := q / 256, p / 256;
      assert Le4(a)[3] == Le4(b)[3] && Le4(a)[2] == Le4(b)[2];
      assert r == s;
      assert Le4(a)[1] == Le4(b)[1];
      assert q == p;
      assert Le4(a)[0] == Le4(b)[0];
    }
  }

  lemma Be4Injective(a: nat, b: nat)
    requires a < U32_SIZE && b < U32_SIZE
    ensures Be4(a) == Be4(b) <==> a == b
  {
    Le4Injective(a, b);
    if Be4(a) == Be4(b) {
      assert forall i :: 0 <= i < 4 ==> Le4(a)[i] == Be4(a)[3 - i] && Le4(b)[i] == Be4(b)[3 - i];
      assert Le4(a) == Le4(b);
    }
  }

  /** Concatenations with equally long first parts agree exactly if both parts do. */
  lemma SplitEqual<T>(a: seq<T>, b: seq<T>, c: seq<T>, d: seq<T>)
    requires |a| == |c|
    ensures a + b == c + d <==> a == c && b == d
  {
    if a + b == c + d {
      assert a == (a + b)[..|a|] && c == (c + d)[..|a|];
      assert b == (a + b)[|a|..] && d == (c + d)[|a|..];
    }
  }
}
