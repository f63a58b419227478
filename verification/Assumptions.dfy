/**
 The assumptions of the model can be met. A field with a root of unity: the integers modulo 5, in
 which 2 has order 4. And for every field with a root of unity, a recovery call that does what the
 library promises.
 */
module Assumptions {
  import opened Wrappers
  import opened Bits
  import opened Algebra
  import opened Polynomials
  import opened Dft
  import opened ErasureCoding
  import opened Kzg
  import opened Segments

  type Mod5 = x: int | 0 <= x < 5

  function Add(x: Mod5, y: Mod5): Mod5 { if x + y < 5 then x + y else x + y - 5 }
  function Neg(x: Mod5): Mod5 { if x == 0 then 0 else 5 - x }
  function Mul(x: Mod5, y: Mod5): Mod5 { x * y % 5 }
  function Inv(x: Mod5): Mod5 { if x == 2 then 3 else if x == 3 then 2 else x }

  function Integers(): Field<Mod5> {
    Field(0, 1, Add, Neg, Mul, Inv)
  }

  /** A remainder may be taken before multiplying. */
  lemma ModMul(a: nat, b: nat)
    ensures (a % 5) * b % 5 == a * b % 5
  {
    var q, r := a / 5, a % 5;
    FiveMore(q * b, r * b);
    assert a == 5 * q + r;
    Expand(q, r, b);
  }

  lemma Expand(q: nat, r: nat, b: nat)
    ensures (5 * q + r) * b == 5 * (q * b) + r * b
  {
  }

  lemma FiveMore(t: nat, u: nat)
    ensures (5 * t + u) % 5 == u % 5
  {
  }

  lemma Rotate(x: nat, y: nat, z: nat)
    ensures x * y * z == y * z * x
  {
  }

  lemma Commute(x: nat, y: nat)
    ensures x * y == y * x
  {
  }

  lemma MulAssoc5(x: Mod5, y: Mod5, z: Mod5)
    ensures Mul(Mul(x, y), z) == Mul(x, Mul(y, z))
  {
    calc {
      Mul(Mul(x, y), z);
    == { ModMul(x * y, z); }
      x * y * z % 5;
    == { Rotate(x, y, z); }
      y * z * x % 5;
    == { ModMul(y * z, x); }
      (y * z % 5) * x % 5;
    == { Commute(y * z % 5, x); }
      Mul(x, Mul(y, z));
    }
  }

  lemma Distrib5(x: Mod5, y: Mod5, z: Mod5)
    ensures Mul(x, Add(y, z)) == Add(Mul(x, y), Mul(x, z))
  {
    calc {
      Mul(x, Add(y, z));
    == { Commute(x, Add(y, z)); }
      Add(y, z) * x % 5;
    == { SumMod(y, z); }
      ((y + z) % 5) * x % 5;
    == { ModMul(y + z, x); }
      (y + z) * x % 5;
    == { Spread(x, y, z); }
      (x * y + x * z) % 5;
    == { ModAdd(x * y, x * z); }
      Add(Mul(x, y), Mul(x, z));
    }
  }

  lemma Spread(x: nat, y: nat, z: nat)
    ensures (y + z) * x == x * y + x * z
  {
  }

  lemma SumMod(y: Mod5, z: Mod5)
    ensures Add(y, z) == (y + z) % 5
  {
  }

  lemma ModAdd(t: nat, u: nat)
    ensures Add(t % 5, u % 5) == (t + u) % 5
  {
  }

  lemma Inverses5(x: Mod5)
    requires x != 0
    ensures Mul(x, Inv(x)) == 1
  {
    assert x == 1 || x == 2 || x == 3 || x == 4;
  }

  lemma AddAssoc5(x: Mod5, y: Mod5, z: Mod5)
    ensures Add(Add(x, y), z) == Add(x, Add(y, z))
  {
  }

  lemma LawsOfThree(f: Field<Mod5>, x: Mod5, y: Mod5, z: Mod5)
    requires f == Integers()
    ensures f.add(f.add(x, y), z) == f.add(x, f.add(y, z))
    ensures f.mul(f.mul(x, y), z) == f.mul(x, f.mul(y, z))
    ensures f.mul(x, f.add(y, z)) == f.add(f.mul(x, y), f.mul(x, z))
  {
    MulAssoc5(x, y, z);
    AddAssoc5(x, y, z);
    Distrib5(x, y, z);
  }

  lemma LawsOfTwo(f: Field<Mod5>, x: Mod5, y: Mod5)
    requires f == Integers()
    ensures f.add(x, y) == f.add(y, x)
    ensures f.mul(x, y) == f.mul(y, x)
  {
    Commute(x, y);
  }

  lemma LawsOfOne(f: Field<Mod5>, x: Mod5)
    requires f == Integers()
    ensures f.add(x, f.zero) == x && f.add(x, f.neg(x)) == f.zero && f.mul(x, f.one) == x
    ensures x != f.zero ==> f.mul(x, f.inv(x)) == f.one
  {
    assert Mul(x, 1) == x;
    if x != 0 {
      Inverses5(x);
    }
  }

  lemma IntegersModulo5(f: Field<Mod5>)
    requires f == Integers()
    ensures IsField(f)
  {
    forall x: Mod5, y: Mod5, z: Mod5
      ensures f.add(f.add(x, y), z) == f.add(x, f.add(y, z))
      ensures f.mul(f.mul(x, y), z) == f.mul(x, f.mul(y, z))
      ensures f.mul(x, f.add(y, z)) == f.add(f.mul(x, y), f.mul(x, z))
    {
      LawsOfThree(f, x, y, z);
    }
    forall x: Mod5, y: Mod5 ensures f.add(x, y) == f.add(y, x) && f.mul(x, y) == f.mul(y, x) {
      LawsOfTwo(f, x, y);
    }
    forall x: Mod5
      ensures f.add(x, f.zero) == x && f.add(x, f.neg(x)) == f.zero && f.mul(x, f.one) == x
      ensures x != f.zero ==> f.mul(x, f.inv(x)) == f.one
    {
      LawsOfOne(f, x);
    }
  }

  /** Transforms of up to four elements. */
  lemma SettingsExist()
    ensures ValidSettings(FftSettings(Integers(), 2, 4))
  {
    var f := Integers();
    IntegersModulo5(f);
    assert Pow(f, 2, 1) == 2;
    assert Pow(f, 2, 2) == 4;
    assert Pow(f, 2, 3) == 3;
    assert Pow(f, 2, 4) == 1;
    assert IsPow2(4);
  }

  // ----- the recovery call -----

  ghost predicate Explains<F>(fs: FftSettings<F>, p: seq<F>, samples: seq<Option<F>>) {
    0 < 2 * |p| == |samples| && Agrees(fs, p, samples)
  }

  /** Recovery by search: any polynomial of half the length that agrees with the samples. */
  ghost function BySearch<F(!new)>(fs: FftSettings<F>, samples: seq<Option<F>>): Result<seq<F>> {
    if p: seq<F> :| Explains(fs, p, samples) then Ok(p + Zeros(Scalars(fs.field), |p|)) else Err("no polynomial")
  }

  lemma SearchRecovers<F(!new)>(fs: FftSettings<F>, samples: seq<Option<F>>, p: seq<F>)
    requires IsField(fs.field) && Explains(fs, p, samples)
    ensures BySearch(fs, samples).Ok?
    ensures var c := BySearch(fs, samples).value;
      IsLowDegree(fs.field, c, |samples|) && Agrees(fs, c, samples)
  {
    ScalarsIsModule(fs.field);
    var c := BySearch(fs, samples).value;
    var q :| Explains(fs, q, samples) && c == q + Zeros(Scalars(fs.field), |q|);
    forall i | 0 <= i < |samples| && samples[i].Some?
      ensures samples[i].value == Eval(Scalars(fs.field), c, Pow(fs.field, Root(fs, |samples|), i))
    {
      EvalPad(fs.field, Scalars(fs.field), q, |q|, Pow(fs.field, Root(fs, |samples|), i));
    }
  }

  lemma KzgExists<F(!new), P>(fs: FftSettings<F>, word: nat, prove: (seq<F>, F,
      nat) -> Result<P>) returns (kzg: KZG<F, P>)
    requires ValidSettings(fs)
    ensures ValidKZG(kzg) && kzg.fs == fs && kzg.word == word && kzg.proveCoset == prove
  {
    kzg := KZG(fs, word, samples => BySearch(fs, samples), prove);
    forall samples: seq<Option<F>>, p: seq<F> | IsPow2(|samples|) && 2 * |p| == |samples| && Agrees(fs, p, samples)
      ensures kzg.recover(samples).Ok?
      ensures IsLowDegree(fs.field, kzg.recover(samples).value, |samples|) && Agrees(fs, kzg.recover(samples).value, samples)
    {
      SearchRecovers(fs, samples, p);
    }
  }

  // ----- the proofs of all segments of a row -----

  ghost predicate ProvesEverything<F(!new), P>(kzg: KZG<F, P>) {
    forall poly, g, size :: kzg.proveCoset(poly, g, size).Ok?
  }

  /** The proofs of the chunks, one by one. */
  ghost function OneByOne<F(!new), P>(kzg: KZG<F, P>, poly: seq<F>, size: nat): Result<seq<P>>
    requires ProvesEverything(kzg)
  {
    if !IsPow2(|poly|) || !IsPow2(size) || size > |poly| then Err("row cannot be cut") else
    var chunks := 2 * |poly| / size;
    if !IsPow2(chunks) then Err("row cannot be cut") else
    Ok(seq(chunks, (i: nat) requires i < chunks =>
      kzg.proveCoset(poly, CosetPoint(kzg.fs, |poly|, chunks, i), size).value))
  }

  lemma CutInChunks(n: nat, size: nat)
    requires IsPow2(n) && IsPow2(size) && size <= n
    ensures IsPow2(2 * n / size) && Times(2 * n / size, size) == 2 * n
  {
    LogTwice(n);
    Pow2Divides(size, 2 * n);
    TimesIsProduct(2 * n / size, size);
  }

  lemma OneByOneProves<F(!new), P>(kzg: KZG<F, P>, poly: seq<F>, size: nat)
    requires ProvesEverything(kzg)
    ensures OneByOne(kzg, poly, size).Ok? <==> IsPow2(|poly|) && IsPow2(size) && size <= |poly|
    ensures OneByOne(kzg, poly, size).Ok? ==> RowProofs(kzg, poly, size, OneByOne(kzg, poly, size).value)
  {
    if IsPow2(|poly|) && IsPow2(size) && size <= |poly| {
      CutInChunks(|poly|, size);
      ChunkProofs(kzg, poly, size, 2 * |poly| / size);
    }
  }

  lemma ChunkProofs<F(!new), P>(kzg: KZG<F, P>, poly: seq<F>, size: nat, chunks: nat)
    requires ProvesEverything(kzg) && IsPow2(chunks) && 0 < size <= |poly| && Times(chunks, size) == 2 * |poly|
    ensures RowProofs(kzg, poly, size, seq(chunks, (i: nat) requires i < chunks =>
              kzg.proveCoset(poly, CosetPoint(kzg.fs, |poly|, chunks, i), size).value))
  {
  }

  /** What the proofs for all segments are assumed to be can be had if single proofs can. */
  lemma ProverExists<F(!new), P>(kzg: KZG<F, P>) returns (prove: (seq<F>, nat) -> Result<seq<P>>)
    requires ProvesEverything(kzg)
    ensures ProvesAll(kzg, prove)
    ensures forall poly: seq<F>, size: nat ::
              prove(poly, size).Ok? <==> IsPow2(|poly|) && IsPow2(size) && size <= |poly|
  {
    prove := (poly: seq<F>, size: nat) => OneByOne(kzg, poly, size);
    forall poly: seq<F>, size: nat
      ensures prove(poly, size).Ok? <==> IsPow2(|poly|) && IsPow2(size) && size <= |poly|
      ensures prove(poly, size).Ok? ==> RowProofs(kzg, poly, size, prove(poly, size).value)
    {
      OneByOneProves(kzg, poly, size);
    }
  }
}
