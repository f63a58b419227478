/**
 Extension is linear, so it commutes with every linear function of the coefficients: evaluation,
 commitment, and the computation of a proof.
 */
module Linearity {
  import opened Algebra
  import opened Polynomials
  import opened Dft
  import opened ErasureCoding

  /**
   The linear function of the coefficients with the given weights. With the powers of the secret
   as weights it is the commitment to the polynomial; the proof of a segment is one as well.
   */
  function Combine<F, G>(m: Module<F, G>, weights: seq<G>, p: seq<F>): G
    requires |p| <= |weights|
  {
    if |p| == 0 then m.zero else m.add(m.smul(p[0], weights[0]), Combine(m, weights[1..], p[1..]))
  }

  lemma CoefficientsAdd<F(!new), G(!new)>(fs: FftSettings<F>, m: Module<F, G>, a: seq<G>, b: seq<G>)
    requires IsModule(fs.field, m)
    requires |a| == |b| > 0
    ensures Coefficients(fs, m, VecAdd(m, a, b)) == VecAdd(m, Coefficients(fs, m, a), Coefficients(fs, m, b))
  {
    var f, n := fs.field, |a|;
    forall j | 0 <= j < n
      ensures Coefficients(fs, m, VecAdd(m, a, b))[j] == VecAdd(m, Coefficients(fs, m, a), Coefficients(fs, m, b))[j]
    {
      var x := Pow(f, InverseRoot(fs, n), j);
      EvalAdd(f, m, a, b, x);
      SmulAdd(f, m, f.inv(FromNat(f, n)), Eval(m, a, x), Eval(m, b, x));
    }
  }

  lemma CoefficientsScale<F(!new), G(!new)>(fs: FftSettings<F>, m: Module<F, G>, c: F, a: seq<G>)
    requires IsModule(fs.field, m)
    requires |a| > 0
    ensures Coefficients(fs, m, VecScale(m, c, a)) == VecScale(m, c, Coefficients(fs, m, a))
  {
    var f, n := fs.field, |a|;
    forall j | 0 <= j < n
      ensures Coefficients(fs, m, VecScale(m, c, a))[j] == VecScale(m, c, Coefficients(fs, m, a))[j]
    {
      var x := Pow(f, InverseRoot(fs, n), j);
      EvalScale(f, m, c, a, x);
      SmulMul(f, m, f.inv(FromNat(f, n)), c, Eval(m, a, x));
    }
  }

  lemma CoefficientsTimes<F(!new), G(!new)>(fs: FftSettings<F>, m: Module<F, G>, a: seq<F>, g: G)
    requires IsModule(fs.field, m)
    requires |a| > 0
    ensures Coefficients(fs, m, VecTimes(m, a, g)) == VecTimes(m, Coefficients(fs, Scalars(fs.field), a), g)
  {
    var f, n := fs.field, |a|;
    forall j | 0 <= j < n
      ensures Coefficients(fs, m, VecTimes(m, a, g))[j] == VecTimes(m, Coefficients(fs, Scalars(f), a), g)[j]
    {
      var x := Pow(f, InverseRoot(fs, n), j);
      EvalTimes(f, m, a, g, x);
      SmulMul(f, m, f.inv(FromNat(f, n)), Eval(Scalars(f), a, x), g);
    }
  }

  lemma ParityAdd<F(!new), G(!new)>(fs: FftSettings<F>, m: Module<F, G>, a: seq<G>, b: seq<G>, i: nat)
    requires IsModule(fs.field, m)
    requires |a| == |b| && i < |a|
    ensures Parity(fs, m, VecAdd(m, a, b))[i] == m.add(Parity(fs, m, a)[i], Parity(fs, m, b)[i])
  {
    CoefficientsAdd(fs, m, a, b);
    EvalAdd(fs.field, m, Coefficients(fs, m, a), Coefficients(fs, m, b), Pow(fs.field, Root(fs, 2 * |a|), 2 * i + 1));
  }

  lemma ParityScale<F(!new), G(!new)>(fs: FftSettings<F>, m: Module<F, G>, c: F, a: seq<G>, i: nat)
    requires IsModule(fs.field, m)
    requires i < |a|
    ensures Parity(fs, m, VecScale(m, c, a))[i] == m.smul(c, Parity(fs, m, a)[i])
  {
    CoefficientsScale(fs, m, c, a);
    EvalScale(fs.field, m, c, Coefficients(fs, m, a), Pow(fs.field, Root(fs, 2 * |a|), 2 * i + 1));
  }

  lemma ParityTimes<F(!new), G(!new)>(fs: FftSettings<F>, m: Module<F, G>, a: seq<F>, g: G, i: nat)
    requires IsModule(fs.field, m)
    requires i < |a|
    ensures Parity(fs, m, VecTimes(m, a, g))[i] == m.smul(Parity(fs, Scalars(fs.field), a)[i], g)
  {
    CoefficientsTimes(fs, m, a, g);
    EvalTimes(fs.field, m, Coefficients(fs, Scalars(fs.field), a), g, Pow(fs.field, Root(fs, 2 * |a|), 2 * i + 1));
  }

  lemma ParityZeros<F(!new), G(!new)>(fs: FftSettings<F>, m: Module<F, G>, k: nat, i: nat)
    requires IsModule(fs.field, m)
    requires i < k
    ensures Parity(fs, m, Zeros(m, k))[i] == m.zero
  {
    SmulZero(fs.field, m, fs.field.zero);
    assert VecScale(m, fs.field.zero, Zeros(m, k)) == Zeros(m, k);
    ParityScale(fs, m, fs.field.zero, Zeros(m, k), i);
    SmulOne(fs.field, m, Parity(fs, m, Zeros(m, k))[i]);
  }

  // ----- the polynomial of a parity row -----

  /** k polynomials with n coefficients each. */
  ghost predicate Rectangular<F>(ps: seq<seq<F>>, n: nat) {
    forall r :: 0 <= r < |ps| ==> |ps[r]| == n
  }

  function Column<F>(ps: seq<seq<F>>, n: nat, t: nat): (c: seq<F>)
    requires Rectangular(ps, n) && t < n
    ensures |c| == |ps|
  {
    seq(|ps|, r requires 0 <= r < |ps| => ps[r][t])
  }

  function Tails<F>(ps: seq<seq<F>>, n: nat): (r: seq<seq<F>>)
    requires Rectangular(ps, n) && n > 0
    ensures |r| == |ps| && Rectangular(r, n - 1)
  {
    seq(|ps|, r requires 0 <= r < |ps| => ps[r][1..])
  }

  /** The polynomial of parity row i: the coefficients are the parities of the rows' coefficients. */
  function ParityPoly<F>(fs: FftSettings<F>, ps: seq<seq<F>>, n: nat, i: nat): (q: seq<F>)
    requires Rectangular(ps, n) && i < |ps|
    ensures |q| == n
  {
    seq(n, (t: nat) requires t < n => Parity(fs, Scalars(fs.field), Column(ps, n, t))[i])
  }

  lemma ParityPolyTail<F>(fs: FftSettings<F>, ps: seq<seq<F>>, n: nat, i: nat)
    requires Rectangular(ps, n) && i < |ps| && n > 0
    ensures ParityPoly(fs, ps, n, i)[1..] == ParityPoly(fs, Tails(ps, n), n - 1, i)
  {
    var tail := ParityPoly(fs, ps, n, i)[1..];
    forall t: nat | t < n - 1 ensures tail[t] == ParityPoly(fs, Tails(ps, n), n - 1, i)[t] {
      assert Column(ps, n, t + 1) == Column(Tails(ps, n), n - 1, t);
    }
  }

  function EvalAll<F>(f: Field<F>, ps: seq<seq<F>>, x: F): (r: seq<F>)
    ensures |r| == |ps|
  {
    seq(|ps|, r requires 0 <= r < |ps| => Eval(Scalars(f), ps[r], x))
  }

  function CombineAll<F, G>(m: Module<F, G>, weights: seq<G>, ps: seq<seq<F>>, n: nat): (r: seq<G>)
    requires Rectangular(ps, n) && n <= |weights|
    ensures |r| == |ps|
  {
    seq(|ps|, r requires 0 <= r < |ps| => Combine(m, weights, ps[r]))
  }

  /** The parity of the values of the rows at x is the value of the parity row's polynomial at x. */
  lemma {:induction false} ParityOfValues<F(!new)>(fs: FftSettings<F>, ps: seq<seq<F>>, n: nat, x: F, i: nat)
    requires IsField(fs.field)
    requires Rectangular(ps, n) && i < |ps|
    ensures Parity(fs, Scalars(fs.field), EvalAll(fs.field, ps, x))[i] == Eval(Scalars(fs.field), ParityPoly(fs, ps, n, i), x)
    decreases n
  {
    var f, m := fs.field, Scalars(fs.field);
    ScalarsIsModule(f);
    if n == 0 {
      assert EvalAll(f, ps, x) == Zeros(m, |ps|);
      ParityZeros(fs, m, |ps|, i);
    } else {
      var tails := Tails(ps, n);
      var scaled := VecScale(m, x, EvalAll(f, tails, x));
      assert EvalAll(f, ps, x) == VecAdd(m, Column(ps, n, 0), scaled);
      ParityAdd(fs, m, Column(ps, n, 0), scaled, i);
      ParityScale(fs, m, x, EvalAll(f, tails, x), i);
      ParityOfValues(fs, tails, n - 1, x, i);
      ParityPolyTail(fs, ps, n, i);
    }
  }

  /** The parity of commitments (or proofs) is the commitment (or proof) of the parity row's polynomial. */
  lemma {:induction false} ParityOfCombinations<F(!new), G(!new)>(fs: FftSettings<F>, m: Module<F, G>, weights: seq<G>,
      ps: seq<seq<F>>, n: nat, i: nat)
    requires IsModule(fs.field, m)
    requires Rectangular(ps, n) && n <= |weights| && i < |ps|
    ensures Parity(fs, m, CombineAll(m, weights, ps, n))[i] == Combine(m, weights, ParityPoly(fs, ps, n, i))
    decreases n
  {
    if n == 0 {
      assert CombineAll(m, weights, ps, n) == Zeros(m, |ps|);
      ParityZeros(fs, m, |ps|, i);
    } else {
      var tails := Tails(ps, n);
      var heads := VecTimes(m, Column(ps, n, 0), weights[0]);
      var rest := CombineAll(m, weights[1..], tails, n - 1);
      assert CombineAll(m, weights, ps, n) == VecAdd(m, heads, rest);
      ParityAdd(fs, m, heads, rest, i);
      ParityTimes(fs, m, Column(ps, n, 0), weights[0], i);
      ParityOfCombinations(fs, m, weights[1..], tails, n - 1, i);
      ParityPolyTail(fs, ps, n, i);
    }
  }
}
