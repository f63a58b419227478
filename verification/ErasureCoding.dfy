/** `melo-erasure-coding/src/erasure_coding.rs`: extension of rows and commitments, recovery of rows. */
module ErasureCoding {
  import opened Sequences
  import opened Wrappers
  import opened Algebra
  import opened Polynomials
  import opened Bits
  import opened Dft

  // ----- extension -----

  /**
   The values at the odd powers of the root of order 2n of the polynomial of degree below n whose
   values at the powers of the root of order n are `vs`.
   */
  function Parity<F, G>(fs: FftSettings<F>, m: Module<F, G>, vs: seq<G>): (r: seq<G>)
    requires |vs| > 0
    ensures |r| == |vs|
  {
    var cs := Coefficients(fs, m, vs);
    seq(|vs|, (i: nat) => Eval(m, cs, Pow(fs.field, Root(fs, 2 * |vs|), 2 * i + 1)))
  }

  /** `extend`, that is `das_fft_extension`: only the parity values. */
  function Extend<F>(fs: FftSettings<F>, source: seq<F>): Result<seq<F>> {
    if |source| == 0 then Err("a non-zero list expected")
    else if !IsPow2(|source|) then Err("a list with power-of-two length expected")
    else if 2 * |source| > fs.maxWidth then Err("supplied list is longer than the available max width")
    else Ok(Parity(fs, Scalars(fs.field), source))
  }

  /** `extend_fs_g1`: interpolate, pad the coefficients to twice the length, evaluate. */
  function ExtendFsG1<F, G>(fs: FftSettings<F>, m: Module<F, G>, source: seq<G>): Result<seq<G>> {
    var coeffs :- Fft(fs, m, source, true);
    Fft(fs, m, coeffs + Zeros(m, |coeffs|), false)
  }

  function Evens<T>(s: seq<T>): (r: seq<T>)
    ensures |r| == (|s| + 1) / 2
  {
    seq((|s| + 1) / 2, (i: nat) requires i < (|s| + 1) / 2 => s[2 * i])
  }

  function Odds<T>(s: seq<T>): (r: seq<T>)
    ensures |r| == |s| / 2
  {
    seq(|s| / 2, (i: nat) requires i < |s| / 2 => s[2 * i + 1])
  }

  /** `extend_and_reorder_elements`: the even entries, then the odd ones. */
  function ExtendAndReorder<F, G>(fs: FftSettings<F>, m: Module<F, G>, elements: seq<G>): Result<seq<G>> {
    var extended :- ExtendFsG1(fs, m, elements);
    Ok(Evens(extended) + Odds(extended))
  }

  /** The padded coefficients of the source, evaluated at the powers of the root of twice the order. */
  lemma ExtensionAt<F(!new), G(!new)>(fs: FftSettings<F>, m: Module<F, G>, source: seq<G>, i: nat)
    requires Valid(fs, m)
    requires IsPow2(|source|) && 2 * |source| <= fs.maxWidth && i < |source|
    ensures var cs, w := Coefficients(fs, m, source), Root(fs, 2 * |source|);
      && Eval(m, cs + Zeros(m, |source|), Pow(fs.field, w, 2 * i)) == source[i]
      && Eval(m, cs + Zeros(m, |source|), Pow(fs.field, w, 2 * i + 1)) == Parity(fs, m, source)[i]
  {
    var n := |source|;
    var cs, w := Coefficients(fs, m, source), Root(fs, 2 * n);
    EvalPad(fs.field, m, cs, n, Pow(fs.field, w, 2 * i));
    EvalPad(fs.field, m, cs, n, Pow(fs.field, w, 2 * i + 1));
    RootSquared(fs, n);
    PowPow(fs.field, w, 2, i);
    ValuesOfCoefficients(fs, m, source, i);
  }

  lemma ExtendFsG1Unfolds<F, G>(fs: FftSettings<F>, m: Module<F, G>, source: seq<G>, n: nat)
    requires n == |source|
    ensures ExtendFsG1(fs, m, source).Ok? <==> IsPow2(n) && 2 * n <= fs.maxWidth
    ensures ExtendFsG1(fs, m, source).Ok? ==>
              ExtendFsG1(fs, m, source).value == Values(fs, m, Coefficients(fs, m, source) + Zeros(m, n), 2 * n)
  {
    if n > 0 {
      assert (2 * n) / 2 == n && (2 * n) % 2 == 0;
      assert IsPow2(2 * n) == IsPow2(n);
      assert |Coefficients(fs, m, source) + Zeros(m, n)| == 2 * n;
    }
  }

  lemma ValueAt<F, G>(fs: FftSettings<F>, m: Module<F, G>, cs: seq<G>, n: nat, i: nat)
    requires i < n
    ensures Values(fs, m, cs, n)[i] == Eval(m, cs, Pow(fs.field, Root(fs, n), i))
  {
  }

  lemma ValuePair<F, G>(fs: FftSettings<F>, m: Module<F, G>, cs: seq<G>, n: nat, i: nat)
    requires i < n
    ensures var vs, w := Values(fs, m, cs, 2 * n), Root(fs, 2 * n);
      && vs[2 * i] == Eval(m, cs, Pow(fs.field, w, 2 * i))
      && vs[2 * i + 1] == Eval(m, cs, Pow(fs.field, w, 2 * i + 1))
  {
    ValueAt(fs, m, cs, 2 * n, 2 * i);
    ValueAt(fs, m, cs, 2 * n, 2 * i + 1);
  }

  lemma InterleavedAt<F(!new), G(!new)>(fs: FftSettings<F>, m: Module<F, G>, source: seq<G>, i: nat)
    requires Valid(fs, m) && i < |source| && ExtendFsG1(fs, m, source).Ok?
    ensures |ExtendFsG1(fs, m, source).value| == 2 * |source|
    ensures ExtendFsG1(fs, m, source).value[2 * i] == source[i]
    ensures ExtendFsG1(fs, m, source).value[2 * i + 1] == Parity(fs, m, source)[i]
  {
    var n := |source|;
    ExtendFsG1Unfolds(fs, m, source, n);
    ValuePair(fs, m, Coefficients(fs, m, source) + Zeros(m, n), n, i);
    ExtensionAt(fs, m, source, i);
  }

  lemma Interleaves<T>(e: seq<T>, a: seq<T>, b: seq<T>)
    requires |e| == 2 * |a| && |a| == |b|
    requires forall i :: 0 <= i < |a| ==> e[2 * i] == a[i]
    requires forall i :: 0 <= i < |b| ==> e[2 * i + 1] == b[i]
    ensures Evens(e) == a && Odds(e) == b
  {
  }

  /** `extend_fs_g1` keeps the source at the even indexes and puts the parity at the odd ones. */
  lemma ExtendFsG1Interleaves<F(!new), G(!new)>(fs: FftSettings<F>, m: Module<F, G>, source: seq<G>)
    requires Valid(fs, m)
    ensures ExtendFsG1(fs, m, source).Ok? <==> IsPow2(|source|) && 2 * |source| <= fs.maxWidth
    ensures ExtendFsG1(fs, m, source).Ok? ==>
              var e := ExtendFsG1(fs, m, source).value;
              |e| == 2 * |source| && Evens(e) == source && Odds(e) == Parity(fs, m, source)
  {
    var extended := ExtendFsG1(fs, m, source);
    ExtendFsG1Unfolds(fs, m, source, |source|);
    if extended.Ok? {
      var e, parity := extended.value, Parity(fs, m, source);
      forall i | 0 <= i < |source| ensures e[2 * i] == source[i] && e[2 * i + 1] == parity[i] {
        InterleavedAt(fs, m, source, i);
      }
      Interleaves(e, source, parity);
    }
  }

  /** `extend_and_reorder_elements` is the input followed by its parity. */
  lemma ExtendAndReorderCorrect<F(!new), G(!new)>(fs: FftSettings<F>, m: Module<F, G>, elements: seq<G>)
    requires Valid(fs, m)
    ensures ExtendAndReorder(fs, m, elements).Ok? <==> IsPow2(|elements|) && 2 * |elements| <= fs.maxWidth
    ensures ExtendAndReorder(fs, m, elements).Ok? ==>
              ExtendAndReorder(fs, m, elements).value == elements + Parity(fs, m, elements)
  {
    ExtendFsG1Interleaves(fs, m, elements);
  }

  /** The row of a polynomial: its values on a domain of twice the size, in bit-reversed order. */
  function ExtendedRow<F>(fs: FftSettings<F>, poly: seq<F>): (r: seq<F>)
    requires IsPow2(|poly|)
    ensures |r| == 2 * |poly|
  {
    assert (2 * |poly|) / 2 == |poly|;
    Reordered(Values(fs, Scalars(fs.field), poly, 2 * |poly|))
  }

  /** `extend_poly`: errors exactly when the transform does, and otherwise returns the row. */
  method ExtendPoly<F(!new)>(fs: FftSettings<F>, poly: seq<F>) returns (r: Result<seq<F>>)
    requires ValidSettings(fs)
    ensures r == ExtendPolySpec(fs, poly)
  {
    var m := Scalars(fs.field);
    var coeffs := poly;
    coeffs := coeffs + Zeros(m, |coeffs|);
    assert |poly| > 0 ==> (2 * |poly|) / 2 == |poly|;
    var transformed := Fft(fs, m, coeffs, false);
    if transformed.Err? {
      return transformed;
    }
    var buffer := new F[|coeffs|](i requires 0 <= i < |coeffs| => transformed.value[i]);
    assert buffer[..] == transformed.value;
    ReverseBitOrder(buffer);
    if |poly| > 0 {
      ExtendPolyValues(fs, poly);
    }
    r := Ok(buffer[..]);
  }

  function ExtendPolySpec<F>(fs: FftSettings<F>, poly: seq<F>): Result<seq<F>> {
    if 2 * |poly| > fs.maxWidth then Err("supplied list is longer than the available max width")
    else if !IsPow2(|poly|) then Err("a list with power-of-two length expected")
    else Ok(ExtendedRow(fs, poly))
  }

  lemma ExtendPolyValues<F(!new)>(fs: FftSettings<F>, poly: seq<F>)
    requires ValidSettings(fs) && |poly| > 0
    ensures var m := Scalars(fs.field);
            Values(fs, m, poly + Zeros(m, |poly|), 2 * |poly|) == Values(fs, m, poly, 2 * |poly|)
  {
    var f, m, n := fs.field, Scalars(fs.field), |poly|;
    ScalarsIsModule(f);
    forall i | 0 <= i < 2 * n
      ensures Values(fs, m, poly + Zeros(m, n), 2 * n)[i] == Values(fs, m, poly, 2 * n)[i]
    {
      EvalPad(f, m, poly, n, Pow(f, Root(fs, 2 * n), i));
    }
  }

  // ----- recovery -----

  /** The samples known at i are the values of p at the powers of the root of order |samples|. */
  ghost predicate Agrees<F>(fs: FftSettings<F>, p: seq<F>, samples: seq<Option<F>>)
    requires |samples| > 0
  {
    forall i :: 0 <= i < |samples| && samples[i].Some? ==>
      samples[i].value == Eval(Scalars(fs.field), p, Pow(fs.field, Root(fs, |samples|), i))
  }

  ghost function Known<T>(s: seq<Option<T>>): set<nat> {
    set i: nat | i < |s| && s[i].Some?
  }

  /**
   What the library promises of `recover_poly_coeffs_from_samples`: if at least half of the samples
   are known and they come from some polynomial of degree below half the length, it returns a
   polynomial of that degree, padded to full length, that agrees with them.
   */
  ghost predicate RecoversCoefficients<F(!new)>(fs: FftSettings<F>, recover: seq<Option<F>> -> Result<seq<F>>) {
    forall samples: seq<Option<F>>, p: seq<F> ::
      IsPow2(|samples|) && |samples| <= fs.maxWidth && |samples| <= 2 * |Known(samples)|
      && 2 * |p| == |samples| && Agrees(fs, p, samples)
      ==> recover(samples).Ok?
          && IsLowDegree(fs.field, recover(samples).value, |samples|)
          && Agrees(fs, recover(samples).value, samples)
  }

  ghost predicate IsLowDegree<F>(f: Field<F>, c: seq<F>, n: nat) {
    |c| == n && forall i :: n / 2 <= i < n ==> c[i] == f.zero
  }

  /**
   `recover_poly`. If nothing is missing the code transforms directly and panics when the
   transform fails, so it asks for a transformable length then.
   */
  function RecoverPoly<F(==)>(fs: FftSettings<F>, recover: seq<Option<F>> -> Result<seq<F>>,
      shards: seq<Option<F>>): Result<seq<F>>
    requires None !in shards ==> IsPow2(|shards|) && |shards| <= fs.maxWidth
  {
    if None in shards then
      if !IsPow2(|shards|) then Err("samples must have a length that is a power of two") else
      var c :- recover(Reordered(shards));
      Ok(c[..|c| / 2])
    else
      var c := Coefficients(fs, Scalars(fs.field), Unwrapped(Reordered(shards)));
      Ok(c[..|c| / 2])
  }

  function Unwrapped<T>(s: seq<Option<T>>): (r: seq<T>)
    requires forall i :: 0 <= i < |s| ==> s[i].Some?
    ensures |r| == |s|
  {
    seq(|s|, i requires 0 <= i < |s| => s[i].value)
  }

  /** `recover_poly` as the code runs it: reorder a copied buffer, recover, keep the left half. */
  method RecoverPolyInPlace<F(==)>(fs: FftSettings<F>, recover: seq<Option<F>> -> Result<seq<F>>,
      shards: seq<Option<F>>)
    returns (r: Result<seq<F>>)
    requires None !in shards ==> IsPow2(|shards|) && |shards| <= fs.maxWidth
    ensures r == RecoverPoly(fs, recover, shards)
  {
    if !IsPow2(|shards|) {
      return Err("samples must have a length that is a power of two");
    }
    var buffer := new Option<F>[|shards|](i requires 0 <= i < |shards| => shards[i]);
    assert buffer[..] == shards;
    ReverseBitOrder(buffer);
    var coeffs: seq<F>;
    if None in shards {
      var recovered := recover(buffer[..]);
      if recovered.Err? {
        return recovered;
      }
      coeffs := recovered.value;
    } else {
      var data := Unwrapped(buffer[..]);
      coeffs := Fft(fs, Scalars(fs.field), data, true).value;
    }
    coeffs := coeffs[..|coeffs| / 2];
    r := Ok(coeffs);
  }

  // ----- the row determines its polynomial -----

  ghost function Image(k: nat, s: set<nat>): set<nat> {
    set i | i in s :: BitRev(k, i)
  }

  lemma {:induction false} ImageSize(k: nat, s: set<nat>)
    requires forall i :: i in s ==> i < Pow2(k)
    ensures |Image(k, s)| == |s|
    decreases s
  {
    if s == {} {
      assert Image(k, s) == {};
    } else {
      var x :| x in s;
      var t := s - {x};
      ImageSize(k, t);
      forall y | y in t ensures BitRev(k, y) != BitRev(k, x) {
        BitRevInvolution(k, x);
        BitRevInvolution(k, y);
      }
      assert Image(k, s) == Image(k, t) + {BitRev(k, x)};
    }
  }

  lemma ReorderedKnown<T>(s: seq<Option<T>>)
    requires IsPow2(|s|)
    ensures |Known(Reordered(s))| == |Known(s)|
  {
    var k := Log2(|s|);
    ImageSize(k, Known(s));
    forall j ensures j in Known(Reordered(s)) <==> j in Image(k, Known(s)) {
      if j in Known(Reordered(s)) {
        BitRevInvolution(k, j);
        assert BitRev(k, j) in Known(s);
      } else if j in Image(k, Known(s)) {
        var i :| i in Known(s) && BitRev(k, i) == j;
        BitRevInvolution(k, i);
      }
    }
    assert Known(Reordered(s)) == Image(k, Known(s));
  }

  ghost function Listed(s: set<nat>): (r: seq<nat>)
    ensures |r| == |s| && Distinct(r)
    ensures forall i :: 0 <= i < |r| ==> r[i] in s
  {
    if s == {} then [] else
    var x :| x in s;
    [x] + Listed(s - {x})
  }

  lemma DifferentRoots<F(!new)>(f: Field<F>, w: F, n: nat, i: nat, j: nat)
    requires IsField(f) && Primitive(f, w, n) && i < n && j < n && i != j
    ensures Pow(f, w, i) != Pow(f, w, j)
  {
    if i < j {
      RootsDistinct(f, w, n, i, j);
    } else {
      RootsDistinct(f, w, n, j, i);
    }
  }

  /** At most one polynomial of degree below half the length agrees with samples of which half are known. */
  lemma AtMostOnePolynomial<F(!new)>(fs: FftSettings<F>, p: seq<F>, q: seq<F>, samples: seq<Option<F>>)
    requires ValidSettings(fs)
    requires IsPow2(|samples|) && |samples| <= fs.maxWidth
    requires |p| == |q| <= |Known(samples)|
    requires Agrees(fs, p, samples) && Agrees(fs, q, samples)
    ensures p == q
  {
    var f, w := fs.field, Root(fs, |samples|);
    var ks := Listed(Known(samples));
    var xs := seq(|ks|, i requires 0 <= i < |ks| => Pow(f, w, ks[i]));
    RootPrimitive(fs, |samples|);
    forall i, j | 0 <= i < j < |xs| ensures xs[i] != xs[j] {
      DifferentRoots(f, w, |samples|, ks[i], ks[j]);
    }
    UniqueInterpolant(f, p, q, xs);
  }

  /** Every known shard is the entry of the row at its index. */
  ghost predicate Erasure<T>(row: seq<T>, shards: seq<Option<T>>) {
    && |shards| == |row|
    && forall i :: 0 <= i < |row| && shards[i].Some? ==> shards[i].value == row[i]
  }

  lemma ErasureAgrees<F(!new)>(fs: FftSettings<F>, p: seq<F>, shards: seq<Option<F>>)
    requires IsPow2(|p|)
    requires Erasure(ExtendedRow(fs, p), shards)
    ensures IsPow2(|shards|) && Agrees(fs, p, Reordered(shards))
  {
    assert (2 * |p|) / 2 == |p|;
    var n := 2 * |p|;
    var samples := Reordered(shards);
    forall i | 0 <= i < n && samples[i].Some?
      ensures samples[i].value == Eval(Scalars(fs.field), p, Pow(fs.field, Root(fs, n), i))
    {
      BitRevInvolution(Log2(n), i);
    }
  }

  lemma RecoverWithGaps<F(!new)>(fs: FftSettings<F>, recover: seq<Option<F>> -> Result<seq<F>>, p: seq<F>,
      samples: seq<Option<F>>)
    requires ValidSettings(fs) && RecoversCoefficients(fs, recover)
    requires IsPow2(|samples|) && |samples| == 2 * |p| <= fs.maxWidth
    requires |p| <= |Known(samples)| && Agrees(fs, p, samples)
    ensures recover(samples).Ok? && |recover(samples).value| == 2 * |p| && recover(samples).value[..|p|] == p
  {
    var f, m, n := fs.field, Scalars(fs.field), |p|;
    ScalarsIsModule(f);
    var c := recover(samples).value;
    assert c == c[..n] + Zeros(m, n);
    forall i | 0 <= i < 2 * n && samples[i].Some?
      ensures samples[i].value == Eval(m, c[..n], Pow(f, Root(fs, 2 * n), i))
    {
      EvalPad(f, m, c[..n], n, Pow(f, Root(fs, 2 * n), i));
    }
    AtMostOnePolynomial(fs, p, c[..n], samples);
  }

  lemma RecoverWithoutGaps<F(!new)>(fs: FftSettings<F>, p: seq<F>, samples: seq<Option<F>>)
    requires ValidSettings(fs)
    requires IsPow2(|samples|) && |samples| == 2 * |p| <= fs.maxWidth
    requires Agrees(fs, p, samples)
    requires forall i :: 0 <= i < |samples| ==> samples[i].Some?
    ensures Coefficients(fs, Scalars(fs.field), Unwrapped(samples))[..|p|] == p
  {
    var f, m, n := fs.field, Scalars(fs.field), |p|;
    ScalarsIsModule(f);
    var padded := p + Zeros(m, n);
    ExtendPolyValues(fs, p);
    assert Unwrapped(samples) == Values(fs, m, padded, 2 * n);
    CoefficientsOfValues(fs, m, padded);
  }

  /**
   Recovery: from any erasure of the row of a polynomial that leaves at least half of the row,
   `recover_poly` returns that polynomial.
   */
  lemma RecoverPolyGaps<F(!new)>(fs: FftSettings<F>, recover: seq<Option<F>> -> Result<seq<F>>, p: seq<F>,
      shards: seq<Option<F>>)
    requires ValidSettings(fs) && RecoversCoefficients(fs, recover)
    requires IsPow2(|p|) && 2 * |p| <= fs.maxWidth
    requires Erasure(ExtendedRow(fs, p), shards)
    requires |p| <= |Known(shards)| && None in shards
    ensures IsPow2(|shards|) && RecoverPoly(fs, recover, shards) == Ok(p)
  {
    ErasureAgrees(fs, p, shards);
    ReorderedKnown(shards);
    RecoverWithGaps(fs, recover, p, Reordered(shards));
  }

  lemma RecoverPolyFull<F(!new)>(fs: FftSettings<F>, recover: seq<Option<F>> -> Result<seq<F>>, p: seq<F>,
      shards: seq<Option<F>>)
    requires ValidSettings(fs)
    requires IsPow2(|p|) && 2 * |p| <= fs.maxWidth
    requires Erasure(ExtendedRow(fs, p), shards) && None !in shards
    ensures IsPow2(|shards|) && RecoverPoly(fs, recover, shards) == Ok(p)
  {
    ErasureAgrees(fs, p, shards);
    var samples := Reordered(shards);
    assert forall i :: 0 <= i < |samples| ==> samples[i].Some?;
    RecoverWithoutGaps(fs, p, samples);
  }

  lemma RecoverPolyCorrect<F(!new)>(fs: FftSettings<F>, recover: seq<Option<F>> -> Result<seq<F>>, p: seq<F>,
      shards: seq<Option<F>>)
    requires ValidSettings(fs) && RecoversCoefficients(fs, recover)
    requires IsPow2(|p|) && 2 * |p| <= fs.maxWidth
    requires Erasure(ExtendedRow(fs, p), shards)
    requires |p| <= |Known(shards)|
    ensures IsPow2(|shards|) && RecoverPoly(fs, recover, shards) == Ok(p)
  {
    if None in shards {
      RecoverPolyGaps(fs, recover, p, shards);
    } else {
      RecoverPolyFull(fs, recover, p, shards);
    }
  }
}
