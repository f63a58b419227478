/**
 Polynomials as coefficient vectors, lowest degree first, and their values at scalars.

 Coefficients may be scalars or elements of a module. A blob is a vector of scalar coefficients;
 a vector of commitments is turned into module coefficients by the inverse transform.
 */
module Polynomials {
  import opened Sequences
  import opened Algebra

  function Eval<F, G>(m: Module<F, G>, cs: seq<G>, x: F): G {
    if |cs| == 0 then m.zero else m.add(cs[0], m.smul(x, Eval(m, cs[1..], x)))
  }

  function Zeros<F, G>(m: Module<F, G>, n: nat): (r: seq<G>)
    ensures |r| == n
  {
    seq(n, _ => m.zero)
  }

  function VecAdd<F, G>(m: Module<F, G>, a: seq<G>, b: seq<G>): (r: seq<G>)
    requires |a| == |b|
    ensures |r| == |a|
  {
    seq(|a|, i requires 0 <= i < |a| => m.add(a[i], b[i]))
  }

  function VecScale<F, G>(m: Module<F, G>, c: F, a: seq<G>): (r: seq<G>)
    ensures |r| == |a|
  {
    seq(|a|, i requires 0 <= i < |a| => m.smul(c, a[i]))
  }

  /** Every scalar of `a` multiplied into the one element g. */
  function VecTimes<F, G>(m: Module<F, G>, a: seq<F>, g: G): (r: seq<G>)
    ensures |r| == |a|
  {
    seq(|a|, i requires 0 <= i < |a| => m.smul(a[i], g))
  }

  // ----- evaluation is linear in the coefficients -----

  lemma {:induction false} EvalAdd<F(!new), G(!new)>(f: Field<F>, m: Module<F, G>, a: seq<G>, b: seq<G>, x: F)
    requires IsModule(f, m)
    requires |a| == |b|
    ensures Eval(m, VecAdd(m, a, b), x) == m.add(Eval(m, a, x), Eval(m, b, x))
  {
    if |a| == 0 {
      MAddZero(f, m, m.zero);
    } else {
      EvalAdd(f, m, a[1..], b[1..], x);
      assert VecAdd(m, a, b)[1..] == VecAdd(m, a[1..], b[1..]);
      var p, q := Eval(m, a[1..], x), Eval(m, b[1..], x);
      SmulAdd(f, m, x, p, q);
      MAddSwap(f, m, a[0], b[0], m.smul(x, p), m.smul(x, q));
    }
  }

  lemma {:induction false} EvalScale<F(!new), G(!new)>(f: Field<F>, m: Module<F, G>, c: F, a: seq<G>, x: F)
    requires IsModule(f, m)
    ensures Eval(m, VecScale(m, c, a), x) == m.smul(c, Eval(m, a, x))
  {
    if |a| == 0 {
      SmulZero(f, m, c);
    } else {
      EvalScale(f, m, c, a[1..], x);
      assert VecScale(m, c, a)[1..] == VecScale(m, c, a[1..]);
      var p := Eval(m, a[1..], x);
      SmulMul(f, m, x, c, p);
      SmulAdd(f, m, c, a[0], m.smul(x, p));
    }
  }

  lemma {:induction false} EvalTimes<F(!new), G(!new)>(f: Field<F>, m: Module<F, G>, a: seq<F>, g: G, x: F)
    requires IsModule(f, m)
    ensures Eval(m, VecTimes(m, a, g), x) == m.smul(Eval(Scalars(f), a, x), g)
  {
    if |a| == 0 {
      SmulOne(f, m, g);
    } else {
      EvalTimes(f, m, a[1..], g, x);
      assert VecTimes(m, a, g)[1..] == VecTimes(m, a[1..], g);
      var p := Eval(Scalars(f), a[1..], x);
      SmulMul(f, m, x, p, g);
      SmulAddLeft(f, m, a[0], f.mul(x, p), g);
    }
  }

  lemma {:induction false} EvalZeros<F(!new), G(!new)>(f: Field<F>, m: Module<F, G>, n: nat, x: F)
    requires IsModule(f, m)
    ensures Eval(m, Zeros(m, n), x) == m.zero
  {
    if n > 0 {
      EvalZeros(f, m, n - 1, x);
      assert Zeros(m, n)[1..] == Zeros(m, n - 1);
      SmulZero(f, m, x);
      MAddZero(f, m, m.zero);
    }
  }

  /** Padding with zero coefficients does not change the polynomial. */
  lemma {:induction false} EvalPad<F(!new), G(!new)>(f: Field<F>, m: Module<F, G>, a: seq<G>, n: nat, x: F)
    requires IsModule(f, m)
    ensures Eval(m, a + Zeros(m, n), x) == Eval(m, a, x)
  {
    if |a| == 0 {
      EvalZeros(f, m, n, x);
      assert a + Zeros(m, n) == Zeros(m, n);
    } else {
      EvalPad(f, m, a[1..], n, x);
      assert (a + Zeros(m, n))[1..] == a[1..] + Zeros(m, n);
    }
  }

  lemma {:induction false} EvalSnoc<F(!new), G(!new)>(f: Field<F>, m: Module<F, G>, a: seq<G>, g: G, x: F)
    requires IsModule(f, m)
    ensures Eval(m, a + [g], x) == m.add(Eval(m, a, x), m.smul(Pow(f, x, |a|), g))
  {
    if |a| == 0 {
      assert a + [g] == [g];
      assert [g][1..] == [];
      assert Eval(m, [g], x) == m.add(g, m.smul(x, m.zero));
      SmulZero(f, m, x);
      MAddZero(f, m, g);
      SmulOne(f, m, g);
    } else {
      EvalSnoc(f, m, a[1..], g, x);
      assert (a + [g])[1..] == a[1..] + [g];
      var p, q := Eval(m, a[1..], x), m.smul(Pow(f, x, |a| - 1), g);
      SmulAdd(f, m, x, p, q);
      SmulMul(f, m, x, Pow(f, x, |a| - 1), g);
      assert Use3(a[0], m.smul(x, p), m.smul(x, q));
    }
  }

  // ----- a polynomial of degree below d is determined by d values -----

  ghost predicate AllZero<F>(f: Field<F>, p: seq<F>) {
    forall i :: 0 <= i < |p| ==> p[i] == f.zero
  }

  /** The quotient of p - p(a) by X - a. */
  function Quotient<F>(f: Field<F>, p: seq<F>, a: F): (r: seq<F>)
    ensures |r| == if |p| == 0 then 0 else |p| - 1
  {
    if |p| <= 1 then [] else [Eval(Scalars(f), p[1..], a)] + Quotient(f, p[1..], a)
  }

  /** p(x) == p(a) + (x - a) * Quotient(p, a)(x) */
  lemma {:induction false} QuotientCorrect<F(!new)>(f: Field<F>, p: seq<F>, a: F, x: F)
    requires IsField(f)
    ensures Eval(Scalars(f), p, x)
         == f.add(Eval(Scalars(f), p, a), f.mul(f.add(x, f.neg(a)), Eval(Scalars(f), Quotient(f, p, a), x)))
  {
    var m := Scalars(f);
    var d := f.add(x, f.neg(a));
    if |p| == 0 {
      MulZero(f, d);
      AddZero(f, f.zero);
    } else if |p| == 1 {
      MulZero(f, d);
      MulZero(f, x);
      MulZero(f, a);
      AddZero(f, f.add(p[0], f.zero));
    } else {
      var t := p[1..];
      var ta, tx, q := Eval(m, t, a), Eval(m, t, x), Eval(m, Quotient(f, t, a), x);
      QuotientCorrect(f, t, a, x);
      assert Quotient(f, p, a)[1..] == Quotient(f, t, a);
      assert Eval(m, Quotient(f, p, a), x) == f.add(ta, f.mul(x, q));
      // x * tx == x * ta + x * (d * q)
      Distrib(f, x, ta, f.mul(d, q));
      // d * (ta + x * q) == d * ta + d * (x * q)
      Distrib(f, d, ta, f.mul(x, q));
      MulAssoc(f, x, d, q);
      MulComm(f, x, d);
      MulAssoc(f, d, x, q);
      // a * ta + d * ta == x * ta
      Distrib(f, ta, a, d);
      AddAssoc(f, x, f.neg(a), a);
      AddComm(f, a, d);
      AddComm(f, f.neg(a), a);
      assert Use1(a) && Use1(x);
      assert f.add(a, d) == x;
      AddAssoc(f, f.mul(a, ta), f.mul(d, ta), f.mul(d, f.mul(x, q)));
      AddAssoc(f, p[0], f.mul(a, ta), f.add(f.mul(d, ta), f.mul(d, f.mul(x, q))));
    }
  }

  lemma {:induction false} ZeroQuotient<F(!new)>(f: Field<F>, p: seq<F>, a: F)
    requires IsField(f)
    requires AllZero(f, Quotient(f, p, a))
    requires Eval(Scalars(f), p, a) == f.zero
    ensures AllZero(f, p)
  {
    if |p| > 0 {
      var t := p[1..];
      if |p| > 1 {
        assert Quotient(f, p, a)[0] == f.zero;
        assert AllZero(f, Quotient(f, t, a)) by {
          forall i | 0 <= i < |Quotient(f, t, a)| ensures Quotient(f, t, a)[i] == f.zero {
            assert Quotient(f, t, a)[i] == Quotient(f, p, a)[i + 1];
          }
        }
        ZeroQuotient(f, t, a);
      }
      assert Eval(Scalars(f), t, a) == f.zero;
      MulZero(f, a);
      AddZero(f, p[0]);
      assert forall i :: 0 < i < |p| ==> p[i] == t[i - 1];
    }
  }

  /** A polynomial with at least as many distinct roots as coefficients is zero. */
  lemma {:induction false} RootBound<F(!new)>(f: Field<F>, p: seq<F>, xs: seq<F>)
    requires IsField(f)
    requires Distinct(xs) && |p| <= |xs|
    requires forall i :: 0 <= i < |xs| ==> Eval(Scalars(f), p, xs[i]) == f.zero
    ensures AllZero(f, p)
    decreases |xs|
  {
    if |p| > 0 {
      var a, rest := xs[0], xs[1..];
      var q := Quotient(f, p, a);
      forall i | 0 <= i < |rest| ensures Eval(Scalars(f), q, rest[i]) == f.zero {
        assert rest[i] == xs[i + 1] != a;
        QuotientCorrect(f, p, a, rest[i]);
        var d, v := f.add(rest[i], f.neg(a)), Eval(Scalars(f), q, rest[i]);
        AddZero(f, f.mul(d, v));
        NonzeroDifference(f, rest[i], a);
        NoZeroDivisors(f, d, v);
      }
      RootBound(f, q, rest);
      ZeroQuotient(f, p, a);
    }
  }

  /** Two polynomials of degree below |p| that agree at |p| distinct points are equal. */
  lemma UniqueInterpolant<F(!new)>(f: Field<F>, p: seq<F>, q: seq<F>, xs: seq<F>)
    requires IsField(f)
    requires |p| == |q| <= |xs| && Distinct(xs)
    requires forall i :: 0 <= i < |xs| ==> Eval(Scalars(f), p, xs[i]) == Eval(Scalars(f), q, xs[i])
    ensures p == q
  {
    var m := Scalars(f);
    ScalarsIsModule(f);
    var minus := f.neg(f.one);
    var d := VecAdd(m, p, VecScale(m, minus, q));
    forall i | 0 <= i < |xs| ensures Eval(m, d, xs[i]) == f.zero {
      EvalAdd(f, m, p, VecScale(m, minus, q), xs[i]);
      EvalScale(f, m, minus, q, xs[i]);
      MinusOne(f, Eval(m, q, xs[i]));
    }
    RootBound(f, d, xs);
    forall i | 0 <= i < |p| ensures p[i] == q[i] {
      assert d[i] == f.zero;
      MinusOne(f, q[i]);
      AddCancel(f, p[i], q[i], f.mul(minus, q[i]));
    }
  }

  lemma MinusOne<F(!new)>(f: Field<F>, x: F)
    requires IsField(f)
    ensures f.add(x, f.mul(f.neg(f.one), x)) == f.zero
  {
    NegMul(f, f.one, x);
    MulOne(f, x);
    assert Use1(x);
  }
}
