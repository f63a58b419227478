/**
 The fast Fourier transforms of the KZG library, given by what they compute: the values of a
 polynomial at the powers of a root of unity, and the coefficients of the polynomial with given
 values there.
 */
module Dft {
  import opened Wrappers
  import opened Algebra
  import opened Polynomials
  import opened Bits

  /** `FsFFTSettings`: a root of unity of order `maxWidth`. */
  datatype FftSettings<!F> = FftSettings(field: Field<F>, root: F, maxWidth: nat)

  ghost predicate Primitive<F>(f: Field<F>, w: F, n: nat) {
    && Pow(f, w, n) == f.one
    && forall d :: 0 < d < n ==> Pow(f, w, d) != f.one
  }

  ghost predicate ValidSettings<F(!new)>(fs: FftSettings<F>) {
    && IsField(fs.field)
    && IsPow2(fs.maxWidth)
    && Primitive(fs.field, fs.root, fs.maxWidth)
  }

  /** The settings together with a group they act on: scalars, or G1. */
  ghost predicate Valid<F(!new), G(!new)>(fs: FftSettings<F>, m: Module<F, G>) {
    ValidSettings(fs) && IsModule(fs.field, m)
  }

  /** `expanded_roots_of_unity[i]` */
  function RootAt<F>(fs: FftSettings<F>, i: nat): F {
    Pow(fs.field, fs.root, i)
  }

  /** The root of order n. */
  function Root<F>(fs: FftSettings<F>, n: nat): F
    requires n > 0
  {
    RootAt(fs, Divided(fs.maxWidth, n))
  }

  function InverseRoot<F>(fs: FftSettings<F>, n: nat): F
    requires n > 0
  {
    Pow(fs.field, Root(fs, n), n - 1)
  }

  /** The values of the polynomial at the first n powers of the root of order n. */
  function Values<F, G>(fs: FftSettings<F>, m: Module<F, G>, cs: seq<G>, n: nat): (r: seq<G>)
    requires n > 0
    ensures |r| == n
  {
    seq(n, (i: nat) => Eval(m, cs, Pow(fs.field, Root(fs, n), i)))
  }

  function Coefficients<F, G>(fs: FftSettings<F>, m: Module<F, G>, vs: seq<G>): (r: seq<G>)
    requires |vs| > 0
    ensures |r| == |vs|
  {
    var n := |vs|;
    seq(n, (j: nat) => m.smul(fs.field.inv(FromNat(fs.field, n)), Eval(m, vs, Pow(fs.field, InverseRoot(fs, n), j))))
  }

  /** `fft_fr` and `fft_g1` */
  function Fft<F, G>(fs: FftSettings<F>, m: Module<F, G>, data: seq<G>, inverse: bool): Result<seq<G>> {
    if |data| > fs.maxWidth then Err("supplied list is longer than the available max width")
    else if !IsPow2(|data|) then Err("a list with power-of-two length expected")
    else if inverse then Ok(Coefficients(fs, m, data))
    else Ok(Values(fs, m, data, |data|))
  }

  // ----- roots of unity -----

  lemma RootPrimitive<F(!new)>(fs: FftSettings<F>, n: nat)
    requires ValidSettings(fs)
    requires IsPow2(n) && n <= fs.maxWidth
    ensures Primitive(fs.field, Root(fs, n), n)
  {
    var f, q := fs.field, fs.maxWidth / n;
    Pow2Divides(n, fs.maxWidth);
    DividedIsQuotient(fs.maxWidth, n);
    PowPow(f, fs.root, q, n);
    forall d | 0 < d < n ensures Pow(f, Root(fs, n), d) != f.one {
      PowPow(f, fs.root, q, d);
      ScaledBelow(q, d, n);
    }
  }

  lemma ScaledBelow(q: nat, d: nat, n: nat)
    requires q > 0 && 0 < d < n
    ensures 0 < q * d < q * n
  {
  }

  lemma InverseRootCorrect<F(!new)>(fs: FftSettings<F>, n: nat)
    requires ValidSettings(fs)
    requires IsPow2(n) && n <= fs.maxWidth
    ensures fs.field.mul(Root(fs, n), InverseRoot(fs, n)) == fs.field.one
  {
    RootPrimitive(fs, n);
  }

  /** The root of order n is the square of the root of order 2n. */
  lemma RootSquared<F(!new)>(fs: FftSettings<F>, n: nat)
    requires ValidSettings(fs)
    requires IsPow2(n) && 2 * n <= fs.maxWidth
    ensures Root(fs, n) == Pow(fs.field, Root(fs, 2 * n), 2)
  {
    assert (2 * n) / 2 == n;
    Pow2Divides(2 * n, fs.maxWidth);
    HalfStride(n, fs.maxWidth);
    DividedIsQuotient(fs.maxWidth, n);
    DividedIsQuotient(fs.maxWidth, 2 * n);
    PowPow(fs.field, fs.root, Divided(fs.maxWidth, 2 * n), 2);
  }

  lemma HalfStride(n: nat, w: nat)
    requires n > 0 && (w / (2 * n)) * (2 * n) == w
    ensures w / n == w / (2 * n) * 2
  {
    var q := w / (2 * n);
    assert q * (2 * n) == (q * 2) * n;
    MulDiv(q * 2, n);
  }

  lemma TwoNonzero<F(!new)>(f: Field<F>, y: F)
    requires IsField(f)
    requires f.mul(y, y) == f.one && y != f.one
    ensures f.add(f.one, f.one) != f.zero
  {
    if f.add(f.one, f.one) == f.zero {
      // (y + 1) * (y + 1) == y * y + (y + y) + 1 == 0, so y == -1 == 1
      var s := f.add(y, f.one);
      Distrib(f, s, y, f.one);
      Distrib(f, y, y, f.one);
      MulOne(f, y);
      MulOne(f, s);
      AddSwap(f, f.one, y, f.one, y);
      AddComm(f, f.one, y);
      Distrib(f, y, f.one, f.one);
      MulZero(f, y);
      AddZero(f, f.zero);
      NoZeroDivisors(f, s, s);
      AddCancel(f, y, f.one, f.one);
    }
  }

  lemma {:induction false} FromNatAdd<F(!new)>(f: Field<F>, a: nat, b: nat)
    requires IsField(f)
    ensures FromNat(f, a + b) == f.add(FromNat(f, a), FromNat(f, b))
  {
    if a == 0 {
      AddZero(f, FromNat(f, b));
    } else {
      FromNatAdd(f, a - 1, b);
      AddAssoc(f, f.one, FromNat(f, a - 1), FromNat(f, b));
    }
  }

  lemma {:induction false} FromPow2Nonzero<F(!new)>(f: Field<F>, n: nat)
    requires IsField(f)
    requires IsPow2(n) && (n > 1 ==> f.add(f.one, f.one) != f.zero)
    ensures FromNat(f, n) != f.zero
  {
    if n == 1 {
      AddZero(f, f.one);
    } else {
      var h := n / 2;
      FromPow2Nonzero(f, h);
      FromNatAdd(f, h, h);
      Distrib(f, FromNat(f, h), f.one, f.one);
      MulOne(f, FromNat(f, h));
      if FromNat(f, n) == f.zero {
        NoZeroDivisors(f, FromNat(f, h), f.add(f.one, f.one));
      }
    }
  }

  lemma SizeInvertible<F(!new)>(fs: FftSettings<F>, n: nat)
    requires ValidSettings(fs)
    requires IsPow2(n) && n <= fs.maxWidth
    ensures fs.field.mul(fs.field.inv(FromNat(fs.field, n)), FromNat(fs.field, n)) == fs.field.one
  {
    var f := fs.field;
    if n > 1 {
      var y := Pow(f, fs.root, fs.maxWidth / 2);
      PowAdd(f, fs.root, fs.maxWidth / 2, fs.maxWidth / 2);
      TwoNonzero(f, y);
    }
    FromPow2Nonzero(f, n);
    assert Use1(FromNat(f, n));
    MulComm(f, f.inv(FromNat(f, n)), FromNat(f, n));
  }

  /** Distinct exponents below the order give distinct roots. */
  lemma RootsDistinct<F(!new)>(f: Field<F>, w: F, n: nat, i: nat, j: nat)
    requires IsField(f) && Primitive(f, w, n)
    requires i < j < n
    ensures Pow(f, w, i) != Pow(f, w, j)
  {
    if Pow(f, w, i) == Pow(f, w, j) {
      PowAdd(f, w, i, n - i);
      PowAdd(f, w, j, n - i);
      PowAdd(f, w, j - i, n);
      MulOne(f, Pow(f, w, j - i));
      assert j + (n - i) == (j - i) + n;
    }
  }

  // ----- the geometric series -----

  /** 1 + z + ... + z^(n-1) */
  function Geometric<F>(f: Field<F>, z: F, n: nat): F {
    if n == 0 then f.zero else f.add(f.one, f.mul(z, Geometric(f, z, n - 1)))
  }

  lemma {:induction false} GeometricTelescopes<F(!new)>(f: Field<F>, z: F, n: nat)
    requires IsField(f)
    ensures f.add(f.mul(z, Geometric(f, z, n)), f.one) == f.add(Geometric(f, z, n), Pow(f, z, n))
  {
    if n == 0 {
      MulZero(f, z);
    } else {
      var g := Geometric(f, z, n - 1);
      var zg := f.mul(z, g);
      GeometricTelescopes(f, z, n - 1);
      // z * (z * g + 1) == z * g + z^n
      Distrib(f, z, g, Pow(f, z, n - 1));
      AddComm(f, zg, f.one);
      AddComm(f, f.add(zg, Pow(f, z, n)), f.one);
      AddAssoc(f, f.one, zg, Pow(f, z, n));
    }
  }

  lemma GeometricVanishes<F(!new)>(f: Field<F>, z: F, n: nat)
    requires IsField(f)
    requires Pow(f, z, n) == f.one && z != f.one
    ensures Geometric(f, z, n) == f.zero
  {
    var g := Geometric(f, z, n);
    GeometricTelescopes(f, z, n);
    AddCancel(f, f.mul(z, g), g, f.one);
    Distrib(f, g, z, f.neg(f.one));
    NegMul(f, f.one, g);
    MulOne(f, g);
    assert Use1(g);
    NonzeroDifference(f, z, f.one);
    NoZeroDivisors(f, f.add(z, f.neg(f.one)), g);
  }

  lemma {:induction false} GeometricOfOne<F(!new)>(f: Field<F>, n: nat)
    requires IsField(f)
    ensures Geometric(f, f.one, n) == FromNat(f, n)
  {
    if n > 0 {
      GeometricOfOne(f, n - 1);
      MulOne(f, FromNat(f, n - 1));
    }
  }

  function Powers<F>(f: Field<F>, y: F, n: nat): (r: seq<F>)
    ensures |r| == n
  {
    seq(n, (j: nat) => Pow(f, y, j))
  }

  lemma {:induction false} EvalPowers<F(!new)>(f: Field<F>, y: F, n: nat, x: F)
    requires IsField(f)
    ensures Eval(Scalars(f), Powers(f, y, n), x) == Geometric(f, f.mul(x, y), n)
  {
    if n > 0 {
      ScalarsIsModule(f);
      EvalPowers(f, y, n - 1, x);
      assert Powers(f, y, n)[1..] == VecScale(Scalars(f), y, Powers(f, y, n - 1));
      EvalScale(f, Scalars(f), y, Powers(f, y, n - 1), x);
      MulAssoc(f, x, y, Geometric(f, f.mul(x, y), n - 1));
    }
  }

  // ----- inversion -----

  /** w has order n, v is its inverse, c the inverse of n. */
  ghost predicate Inverses<F(!new)>(f: Field<F>, w: F, v: F, n: nat, c: F) {
    && IsField(f)
    && Primitive(f, w, n)
    && f.mul(w, v) == f.one
    && f.mul(c, FromNat(f, n)) == f.one
  }

  /** w^i * v^l is 1 if i == l and a different n-th root of unity otherwise. */
  lemma RatioOfRoots<F(!new)>(f: Field<F>, w: F, v: F, n: nat, c: F, i: nat, l: nat)
    requires Inverses(f, w, v, n, c)
    requires i < n && l < n
    ensures var z := f.mul(Pow(f, w, i), Pow(f, v, l));
            Pow(f, z, n) == f.one && (z == f.one <==> i == l)
  {
    var z := f.mul(Pow(f, w, i), Pow(f, v, l));
    PowMul(f, w, v, l);
    PowOne(f, l);
    PowMul(f, w, v, i);
    PowOne(f, i);
    // z^n == 1
    PowMul(f, Pow(f, w, i), Pow(f, v, l), n);
    PowRoot(f, w, n, i);
    PowMul(f, w, v, n);
    PowOne(f, n);
    MulOne(f, Pow(f, v, n));
    PowRoot(f, v, n, l);
    MulOne(f, f.one);
    // z * w^l == w^i
    MulAssoc(f, Pow(f, w, i), Pow(f, v, l), Pow(f, w, l));
    MulComm(f, Pow(f, v, l), Pow(f, w, l));
    MulOne(f, Pow(f, w, i));
    assert f.mul(z, Pow(f, w, l)) == Pow(f, w, i);
    if z == f.one {
      MulOne(f, Pow(f, w, l));
      if i < l {
        RootsDistinct(f, w, n, i, l);
      } else if l < i {
        RootsDistinct(f, w, n, l, i);
      }
    }
  }

  lemma PowRoot<F(!new)>(f: Field<F>, w: F, n: nat, i: nat)
    requires IsField(f)
    requires Pow(f, w, n) == f.one
    ensures Pow(f, Pow(f, w, i), n) == f.one
  {
    PowPow(f, w, i, n);
    PowPow(f, w, n, i);
    PowOne(f, i);
    assert i * n == n * i;
  }

  /** The coefficients that the first l of the values contribute. */
  function PartialCoefficients<F, G>(f: Field<F>, m: Module<F, G>, v: F, n: nat, c: F, vs: seq<G>, l: nat): (r: seq<G>)
    requires l <= |vs|
    ensures |r| == n
  {
    seq(n, (j: nat) => m.smul(c, Eval(m, vs[..l], Pow(f, v, j))))
  }

  /** What value l alone contributes, evaluated at w^i, is that value if i == l and nothing otherwise. */
  lemma Contribution<F(!new), G(!new)>(f: Field<F>, m: Module<F, G>, w: F, v: F, n: nat, c: F, g: G, i: nat, l: nat)
    requires IsModule(f, m) && Inverses(f, w, v, n, c)
    requires i < n && l < n
    ensures Eval(m, VecTimes(m, VecScale(Scalars(f), c, Powers(f, Pow(f, v, l), n)), g), Pow(f, w, i))
         == if i == l then g else m.zero
  {
    var s := Scalars(f);
    ScalarsIsModule(f);
    var y, x := Pow(f, v, l), Pow(f, w, i);
    var z := f.mul(x, y);
    EvalTimes(f, m, VecScale(s, c, Powers(f, y, n)), g, x);
    EvalScale(f, s, c, Powers(f, y, n), x);
    EvalPowers(f, y, n, x);
    RatioOfRoots(f, w, v, n, c, i, l);
    SmulOne(f, m, g);
    if i == l {
      GeometricOfOne(f, n);
    } else {
      GeometricVanishes(f, z, n);
      MulZero(f, c);
    }
  }

  /** The values are one more in the l-th step than in the one before. */
  lemma PartialStepAt<F(!new), G(!new)>(f: Field<F>, m: Module<F, G>, v: F, n: nat, c: F, vs: seq<G>, l: nat, j: nat)
    requires IsModule(f, m) && IsField(f) && l < |vs| && j < n
    ensures PartialCoefficients(f, m, v, n, c, vs, l + 1)[j] ==
      m.add(PartialCoefficients(f, m, v, n, c, vs, l)[j],
            VecTimes(m, VecScale(Scalars(f), c, Powers(f, Pow(f, v, l), n)), vs[l])[j])
  {
    var y, g := Pow(f, v, j), vs[l];
    assert vs[..l + 1] == vs[..l] + [g];
    EvalSnoc(f, m, vs[..l], g, y);
    SmulAdd(f, m, c, Eval(m, vs[..l], y), m.smul(Pow(f, y, l), g));
    SmulMul(f, m, c, Pow(f, y, l), g);
    PowPow(f, v, j, l);
    PowPow(f, v, l, j);
    assert j * l == l * j;
  }

  lemma PartialStep<F(!new), G(!new)>(f: Field<F>, m: Module<F, G>, v: F, n: nat, c: F, vs: seq<G>, l: nat)
    requires IsModule(f, m) && IsField(f) && l < |vs|
    ensures PartialCoefficients(f, m, v, n, c, vs, l + 1) ==
      VecAdd(m, PartialCoefficients(f, m, v, n, c, vs, l),
                VecTimes(m, VecScale(Scalars(f), c, Powers(f, Pow(f, v, l), n)), vs[l]))
  {
    var p, q := PartialCoefficients(f, m, v, n, c, vs, l + 1), PartialCoefficients(f, m, v, n, c, vs, l);
    var t := VecTimes(m, VecScale(Scalars(f), c, Powers(f, Pow(f, v, l), n)), vs[l]);
    forall j: nat | j < n ensures p[j] == m.add(q[j], t[j]) {
      PartialStepAt(f, m, v, n, c, vs, l, j);
    }
  }

  lemma PartialNone<F(!new), G(!new)>(f: Field<F>, m: Module<F, G>, v: F, n: nat, c: F, vs: seq<G>)
    requires IsModule(f, m)
    ensures PartialCoefficients(f, m, v, n, c, vs, 0) == Zeros(m, n)
  {
    SmulZero(f, m, c);
    var p := PartialCoefficients(f, m, v, n, c, vs, 0);
    assert forall j: nat :: j < n ==> p[j] == m.smul(c, Eval(m, vs[..0], Pow(f, v, j)));
  }

  lemma PartialSum<F(!new), G(!new)>(f: Field<F>, m: Module<F, G>, w: F, v: F, n: nat, c: F, vs: seq<G>,
      l: nat, i: nat, q: seq<G>, t: seq<G>)
    requires IsModule(f, m) && Inverses(f, w, v, n, c)
    requires |vs| == n && l < n && i < n && |q| == |t|
    requires t == VecTimes(m, VecScale(Scalars(f), c, Powers(f, Pow(f, v, l), n)), vs[l])
    requires Eval(m, q, Pow(f, w, i)) == if i < l then vs[i] else m.zero
    ensures Eval(m, VecAdd(m, q, t), Pow(f, w, i)) == if i < l + 1 then vs[i] else m.zero
  {
    EvalAdd(f, m, q, t, Pow(f, w, i));
    Contribution(f, m, w, v, n, c, vs[l], i, l);
    MAddZero(f, m, if i < l then vs[i] else m.zero);
    MAddZero(f, m, vs[l]);
  }

  lemma PartialInversionStep<F(!new), G(!new)>(f: Field<F>, m: Module<F, G>, w: F, v: F, n: nat, c: F, vs: seq<G>,
      l: nat, i: nat)
    requires IsModule(f, m) && Inverses(f, w, v, n, c)
    requires |vs| == n && l < n && i < n
    requires Eval(m, PartialCoefficients(f, m, v, n, c, vs, l), Pow(f, w, i)) == if i < l then vs[i] else m.zero
    ensures Eval(m, PartialCoefficients(f, m, v, n, c, vs, l + 1), Pow(f, w, i)) == if i < l + 1 then vs[i] else m.zero
  {
    PartialStep(f, m, v, n, c, vs, l);
    PartialSum(f, m, w, v, n, c, vs, l, i, PartialCoefficients(f, m, v, n, c, vs, l),
               VecTimes(m, VecScale(Scalars(f), c, Powers(f, Pow(f, v, l), n)), vs[l]));
  }

  lemma PartialInversionStart<F(!new), G(!new)>(f: Field<F>, m: Module<F, G>, v: F, n: nat, c: F, vs: seq<G>, x: F)
    requires IsModule(f, m)
    ensures Eval(m, PartialCoefficients(f, m, v, n, c, vs, 0), x) == m.zero
  {
    PartialNone(f, m, v, n, c, vs);
    EvalZeros(f, m, n, x);
  }

  lemma {:induction false} PartialInversion<F(!new), G(!new)>(f: Field<F>, m: Module<F, G>, w: F, v: F, n: nat, c: F,
      vs: seq<G>, l: nat, i: nat)
    requires IsModule(f, m) && Inverses(f, w, v, n, c)
    requires |vs| == n && l <= n && i < n
    ensures Eval(m, PartialCoefficients(f, m, v, n, c, vs, l), Pow(f, w, i)) == if i < l then vs[i] else m.zero
    decreases l
  {
    if l == 0 {
      PartialInversionStart(f, m, v, n, c, vs, Pow(f, w, i));
    } else {
      PartialInversion(f, m, w, v, n, c, vs, l - 1, i);
      PartialInversionStep(f, m, w, v, n, c, vs, l - 1, i);
    }
  }

  /** The settings' roots of order n satisfy `Inverses` in both roles. */
  lemma SettingsInverses<F(!new)>(fs: FftSettings<F>, n: nat)
    requires ValidSettings(fs)
    requires IsPow2(n) && n <= fs.maxWidth
    ensures Inverses(fs.field, Root(fs, n), InverseRoot(fs, n), n, fs.field.inv(FromNat(fs.field, n)))
    ensures Inverses(fs.field, InverseRoot(fs, n), Root(fs, n), n, fs.field.inv(FromNat(fs.field, n)))
  {
    var f, w, v := fs.field, Root(fs, n), InverseRoot(fs, n);
    RootPrimitive(fs, n);
    InverseRootCorrect(fs, n);
    SizeInvertible(fs, n);
    MulComm(f, w, v);
    PowRoot(f, w, n, n - 1);
    forall d | 0 < d < n ensures Pow(f, v, d) != f.one {
      PowMul(f, w, v, d);
      PowOne(f, d);
      MulOne(f, Pow(f, w, d));
    }
  }

  /** The interpolated polynomial takes the given values. */
  lemma ValuesOfCoefficients<F(!new), G(!new)>(fs: FftSettings<F>, m: Module<F, G>, vs: seq<G>, i: nat)
    requires Valid(fs, m)
    requires IsPow2(|vs|) && |vs| <= fs.maxWidth && i < |vs|
    ensures Eval(m, Coefficients(fs, m, vs), Pow(fs.field, Root(fs, |vs|), i)) == vs[i]
  {
    var n := |vs|;
    var c := fs.field.inv(FromNat(fs.field, n));
    SettingsInverses(fs, n);
    PartialInversion(fs.field, m, Root(fs, n), InverseRoot(fs, n), n, c, vs, n, i);
    assert vs[..n] == vs;
    assert PartialCoefficients(fs.field, m, InverseRoot(fs, n), n, c, vs, n) == Coefficients(fs, m, vs);
  }

  /** Interpolating the values of a polynomial gives its coefficients back. */
  lemma CoefficientsOfValues<F(!new), G(!new)>(fs: FftSettings<F>, m: Module<F, G>, cs: seq<G>)
    requires Valid(fs, m)
    requires IsPow2(|cs|) && |cs| <= fs.maxWidth
    ensures Coefficients(fs, m, Values(fs, m, cs, |cs|)) == cs
  {
    var f, n := fs.field, |cs|;
    var c, w, v := f.inv(FromNat(f, n)), Root(fs, n), InverseRoot(fs, n);
    var vs := Values(fs, m, cs, n);
    SettingsInverses(fs, n);
    assert cs[..n] == cs;
    assert PartialCoefficients(f, m, w, n, c, cs, n) == VecScale(m, c, vs);
    forall j | 0 <= j < n ensures Coefficients(fs, m, vs)[j] == cs[j] {
      PartialInversion(f, m, v, w, n, c, cs, n, j);
      EvalScale(f, m, c, vs, Pow(f, v, j));
    }
  }
}
