/**
 The algebra under the erasure code: a field of scalars and a vector space over it.

 The scalars of a blob form a field. KZG commitments and proofs are points of the group G1, which
 the scalars multiply, so they form a module over that field; so do the scalars themselves. The
 operations are values of function type, so that every result below holds for every such field
 and group.
 */
module Algebra {

  datatype Field<!F> = Field(zero: F, one: F, add: (F, F) -> F, neg: F -> F, mul: (F, F) -> F, inv: F -> F)

  datatype Module<!F, !G> = Module(zero: G, add: (G, G) -> G, smul: (F, G) -> G)

  // The laws below are quantified over all elements. They are instantiated only at elements that
  // a proof names with one of these predicates, which keeps the solver from rewriting sums forever.
  predicate Use1<S>(x: S) { true }
  predicate Use2<S, T>(x: S, y: T) { true }
  predicate Use3<S, T, U>(x: S, y: T, z: U) { true }

  ghost predicate IsField<F(!new)>(f: Field<F>) {
    && f.zero != f.one
    && (forall x, y {:trigger Use2(x, y)} :: Use2(x, y) ==> f.add(x, y) == f.add(y, x))
    && (forall x, y, z {:trigger Use3(x, y, z)} :: Use3(x, y, z) ==> f.add(f.add(x, y), z) == f.add(x, f.add(y, z)))
    && (forall x {:trigger Use1(x)} :: Use1(x) ==> f.add(x, f.zero) == x)
    && (forall x {:trigger Use1(x)} :: Use1(x) ==> f.add(x, f.neg(x)) == f.zero)
    && (forall x, y {:trigger Use2(x, y)} :: Use2(x, y) ==> f.mul(x, y) == f.mul(y, x))
    && (forall x, y, z {:trigger Use3(x, y, z)} :: Use3(x, y, z) ==> f.mul(f.mul(x, y), z) == f.mul(x, f.mul(y, z)))
    && (forall x {:trigger Use1(x)} :: Use1(x) ==> f.mul(x, f.one) == x)
    && (forall x {:trigger Use1(x)} :: Use1(x) && x != f.zero ==> f.mul(x, f.inv(x)) == f.one)
    && (forall x, y, z {:trigger Use3(x, y, z)} :: Use3(x, y, z) ==> f.mul(x, f.add(y, z)) == f.add(f.mul(x, y), f.mul(x, z)))
  }

  ghost predicate IsModule<F(!new), G(!new)>(f: Field<F>, m: Module<F, G>) {
    && IsField(f)
    && (forall g, h {:trigger Use2(g, h)} :: Use2(g, h) ==> m.add(g, h) == m.add(h, g))
    && (forall g, h, k {:trigger Use3(g, h, k)} :: Use3(g, h, k) ==> m.add(m.add(g, h), k) == m.add(g, m.add(h, k)))
    && (forall g {:trigger Use1(g)} :: Use1(g) ==> m.add(g, m.zero) == g)
    && (forall g {:trigger Use1(g)} :: Use1(g) ==> m.smul(f.one, g) == g)
    && (forall g {:trigger Use1(g)} :: Use1(g) ==> m.smul(f.zero, g) == m.zero)
    && (forall a, g, h {:trigger Use3(a, g, h)} :: Use3(a, g, h) ==> m.smul(a, m.add(g, h)) == m.add(m.smul(a, g), m.smul(a, h)))
    && (forall a, b, g {:trigger Use3(a, b, g)} :: Use3(a, b, g) ==> m.smul(f.add(a, b), g) == m.add(m.smul(a, g), m.smul(b, g)))
    && (forall a, b, g {:trigger Use3(a, b, g)} :: Use3(a, b, g) ==> m.smul(f.mul(a, b), g) == m.smul(a, m.smul(b, g)))
  }

  /** The scalars as a module over themselves. */
  function Scalars<F>(f: Field<F>): Module<F, F> {
    Module(f.zero, f.add, f.mul)
  }

  function Pow<F>(f: Field<F>, x: F, n: nat): F {
    if n == 0 then f.one else f.mul(x, Pow(f, x, n - 1))
  }

  /** The scalar n = 1 + ... + 1. */
  function FromNat<F>(f: Field<F>, n: nat): F {
    if n == 0 then f.zero else f.add(f.one, FromNat(f, n - 1))
  }

  // ----- the field -----

  lemma AddComm<F(!new)>(f: Field<F>, x: F, y: F)
    requires IsField(f)
    ensures f.add(x, y) == f.add(y, x)
  {
    assert Use2(x, y);
  }

  lemma AddAssoc<F(!new)>(f: Field<F>, x: F, y: F, z: F)
    requires IsField(f)
    ensures f.add(f.add(x, y), z) == f.add(x, f.add(y, z))
  {
    assert Use3(x, y, z);
  }

  lemma AddZero<F(!new)>(f: Field<F>, x: F)
    requires IsField(f)
    ensures f.add(x, f.zero) == x == f.add(f.zero, x)
  {
    assert Use1(x);
    AddComm(f, x, f.zero);
  }

  lemma MulComm<F(!new)>(f: Field<F>, x: F, y: F)
    requires IsField(f)
    ensures f.mul(x, y) == f.mul(y, x)
  {
    assert Use2(x, y);
  }

  lemma MulAssoc<F(!new)>(f: Field<F>, x: F, y: F, z: F)
    requires IsField(f)
    ensures f.mul(f.mul(x, y), z) == f.mul(x, f.mul(y, z))
  {
    assert Use3(x, y, z);
  }

  lemma MulOne<F(!new)>(f: Field<F>, x: F)
    requires IsField(f)
    ensures f.mul(x, f.one) == x == f.mul(f.one, x)
  {
    assert Use1(x);
    MulComm(f, x, f.one);
  }

  lemma Distrib<F(!new)>(f: Field<F>, x: F, y: F, z: F)
    requires IsField(f)
    ensures f.mul(x, f.add(y, z)) == f.add(f.mul(x, y), f.mul(x, z))
    ensures f.mul(f.add(y, z), x) == f.add(f.mul(y, x), f.mul(z, x))
  {
    assert Use3(x, y, z);
    MulComm(f, x, f.add(y, z));
    MulComm(f, x, y);
    MulComm(f, x, z);
  }

  lemma AddCancel<F(!new)>(f: Field<F>, x: F, y: F, z: F)
    requires IsField(f)
    requires f.add(x, z) == f.add(y, z)
    ensures x == y
  {
    assert Use1(z) && Use1(x) && Use1(y);
    AddAssoc(f, x, z, f.neg(z));
    AddAssoc(f, y, z, f.neg(z));
  }

  lemma MulZero<F(!new)>(f: Field<F>, x: F)
    requires IsField(f)
    ensures f.mul(x, f.zero) == f.zero == f.mul(f.zero, x)
  {
    var a := f.mul(x, f.zero);
    AddZero(f, f.zero);
    Distrib(f, x, f.zero, f.zero);
    AddZero(f, a);
    AddCancel(f, a, f.zero, a);
    MulComm(f, x, f.zero);
  }

  lemma NoZeroDivisors<F(!new)>(f: Field<F>, x: F, y: F)
    requires IsField(f)
    requires f.mul(x, y) == f.zero
    ensures x == f.zero || y == f.zero
  {
    if x != f.zero {
      assert Use1(x);
      MulAssoc(f, f.inv(x), x, y);
      MulComm(f, f.inv(x), x);
      MulZero(f, f.inv(x));
      MulOne(f, y);
    }
  }

  lemma NegMul<F(!new)>(f: Field<F>, x: F, y: F)
    requires IsField(f)
    ensures f.mul(f.neg(x), y) == f.neg(f.mul(x, y))
  {
    assert Use1(x) && Use1(f.mul(x, y));
    Distrib(f, y, x, f.neg(x));
    MulZero(f, y);
    AddComm(f, f.mul(x, y), f.mul(f.neg(x), y));
    AddComm(f, f.mul(x, y), f.neg(f.mul(x, y)));
    AddCancel(f, f.mul(f.neg(x), y), f.neg(f.mul(x, y)), f.mul(x, y));
  }

  lemma NonzeroDifference<F(!new)>(f: Field<F>, x: F, y: F)
    requires IsField(f)
    requires x != y
    ensures f.add(x, f.neg(y)) != f.zero
  {
    if f.add(x, f.neg(y)) == f.zero {
      assert Use1(y);
      AddCancel(f, x, y, f.neg(y));
    }
  }

  /** (a + b) + (c + d) == (a + c) + (b + d) */
  lemma AddSwap<F(!new)>(f: Field<F>, a: F, b: F, c: F, d: F)
    requires IsField(f)
    ensures f.add(f.add(a, b), f.add(c, d)) == f.add(f.add(a, c), f.add(b, d))
  {
    AddAssoc(f, a, b, f.add(c, d));
    AddAssoc(f, b, c, d);
    AddComm(f, b, c);
    AddAssoc(f, c, b, d);
    AddAssoc(f, a, c, f.add(b, d));
  }

  // ----- powers -----

  lemma PowAdd<F(!new)>(f: Field<F>, x: F, a: nat, b: nat)
    requires IsField(f)
    ensures Pow(f, x, a + b) == f.mul(Pow(f, x, a), Pow(f, x, b))
    decreases a
  {
    if a == 0 {
      MulOne(f, Pow(f, x, b));
    } else {
      PowAdd(f, x, a - 1, b);
      MulAssoc(f, x, Pow(f, x, a - 1), Pow(f, x, b));
    }
  }

  lemma PowOne<F(!new)>(f: Field<F>, n: nat)
    requires IsField(f)
    ensures Pow(f, f.one, n) == f.one
  {
    if n > 0 {
      PowOne(f, n - 1);
      MulOne(f, f.one);
    }
  }

  lemma PowMul<F(!new)>(f: Field<F>, x: F, y: F, n: nat)
    requires IsField(f)
    ensures Pow(f, f.mul(x, y), n) == f.mul(Pow(f, x, n), Pow(f, y, n))
  {
    if n == 0 {
      MulOne(f, f.one);
    } else {
      PowMul(f, x, y, n - 1);
      var p, q := Pow(f, x, n - 1), Pow(f, y, n - 1);
      MulAssoc(f, x, y, f.mul(p, q));
      MulAssoc(f, y, p, q);
      MulComm(f, y, p);
      MulAssoc(f, p, y, q);
      MulAssoc(f, x, p, f.mul(y, q));
    }
  }

  lemma PowPow<F(!new)>(f: Field<F>, x: F, a: nat, b: nat)
    requires IsField(f)
    ensures Pow(f, Pow(f, x, a), b) == Pow(f, x, a * b)
    decreases b
  {
    if b > 0 {
      PowPow(f, x, a, b - 1);
      assert a * b == a + a * (b - 1);
      PowAdd(f, x, a, a * (b - 1));
    }
  }

  // ----- the module -----

  lemma ScalarsIsModule<F(!new)>(f: Field<F>)
    requires IsField(f)
    ensures IsModule(f, Scalars(f))
  {
    var m := Scalars(f);
    forall g | Use1(g) ensures m.smul(f.one, g) == g && m.smul(f.zero, g) == m.zero {
      MulOne(f, g);
      MulZero(f, g);
    }
    forall a, b, g | Use3(a, b, g) ensures m.smul(f.add(a, b), g) == m.add(m.smul(a, g), m.smul(b, g)) {
      Distrib(f, g, a, b);
    }
  }

  lemma MAddZero<F(!new), G(!new)>(f: Field<F>, m: Module<F, G>, g: G)
    requires IsModule(f, m)
    ensures m.add(g, m.zero) == g == m.add(m.zero, g)
  {
    assert Use1(g);
    assert Use2(g, m.zero);
  }

  lemma MAddSwap<F(!new), G(!new)>(f: Field<F>, m: Module<F, G>, a: G, b: G, c: G, d: G)
    requires IsModule(f, m)
    ensures m.add(m.add(a, b), m.add(c, d)) == m.add(m.add(a, c), m.add(b, d))
  {
    assert Use3(a, b, m.add(c, d));
    assert Use3(b, c, d);
    assert Use2(b, c);
    assert Use3(c, b, d);
    assert Use3(a, c, m.add(b, d));
  }

  lemma SmulAdd<F(!new), G(!new)>(f: Field<F>, m: Module<F, G>, a: F, g: G, h: G)
    requires IsModule(f, m)
    ensures m.smul(a, m.add(g, h)) == m.add(m.smul(a, g), m.smul(a, h))
  {
    assert Use3(a, g, h);
  }

  lemma SmulAddLeft<F(!new), G(!new)>(f: Field<F>, m: Module<F, G>, a: F, b: F, g: G)
    requires IsModule(f, m)
    ensures m.smul(f.add(a, b), g) == m.add(m.smul(a, g), m.smul(b, g))
  {
    assert Use3(a, b, g);
  }

  lemma SmulMul<F(!new), G(!new)>(f: Field<F>, m: Module<F, G>, a: F, b: F, g: G)
    requires IsModule(f, m)
    ensures m.smul(f.mul(a, b), g) == m.smul(a, m.smul(b, g)) == m.smul(b, m.smul(a, g))
  {
    assert Use3(a, b, g);
    assert Use3(b, a, g);
    MulComm(f, a, b);
  }

  lemma SmulZero<F(!new), G(!new)>(f: Field<F>, m: Module<F, G>, a: F)
    requires IsModule(f, m)
    ensures m.smul(a, m.zero) == m.zero
  {
    assert Use1(m.zero);
    SmulMul(f, m, a, f.zero, m.zero);
    MulZero(f, a);
  }

  lemma SmulOne<F(!new), G(!new)>(f: Field<F>, m: Module<F, G>, g: G)
    requires IsModule(f, m)
    ensures m.smul(f.one, g) == g
    ensures m.smul(f.zero, g) == m.zero
  {
    assert Use1(g);
  }
}
