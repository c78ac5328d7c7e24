/** The inverse transform undoes the forward transform, and the reference double loop. */
module DftInverse {
  import opened ComplexNumbers
  import opened NatBits
  import opened Dft
  import opened Fft

  /** The quadratic reference transform, for any length. w is the root of unity whose powers are the
      cosine and sine pairs of the double loop. */
  method NaiveDft(x: seq<Complex>, inverse: bool, w: Complex) returns (out: seq<Complex>)
    ensures |out| == |x| && (x != [] ==> out == Spectrum(x, inverse, w))
    ensures IsTransform(x, inverse, w, out)
  {
    hide Mul, Pow;
    var n := |x|;
    out := [];
    for k := 0 to n
      invariant |out| == k
      invariant forall j | 0 <= j < k :: out[j] == Spectrum(x, inverse, w)[j]
    {
      var sum := ZERO;
      for i := 0 to n
        invariant sum == DftTerms(x, w, k, i)
      {
        sum := Add(sum, Mul(x[i], Pow(w, k * i)));
      }
      var scale := if inverse then 1.0 / n as real else 1.0;
      out := out + [Stretch(sum, scale)];
    }
    if x != [] { SpectrumIsTransform(x, inverse, w); }
  }

  // ---------------------------------------------------------------- geometric sums

  /** 1 + z + ... + z^(n - 1) */
  function Geo(z: Complex, n: nat): Complex {
    if n == 0 then ZERO else Add(Geo(z, n - 1), Pow(z, n - 1))
  }

  lemma {:induction false} GeoSplit(z: Complex, a: nat, b: nat)
    ensures Geo(z, a + b) == Add(Geo(z, a), Mul(Pow(z, a), Geo(z, b)))
  {
    hide Mul, Pow;
    if b == 0 {
      MulUnits(Pow(z, a));
    } else {
      GeoSplit(z, a, b - 1);
      PowAdd(z, a, b - 1);
      MulLaws(Pow(z, a), Geo(z, b - 1), Pow(z, b - 1));
    }
  }

  lemma {:induction false} GeoOne(n: nat)
    ensures Geo(ONE, n) == Complex(n as real, 0.0)
  {
    hide Mul, Pow;
    if n > 0 {
      GeoOne(n - 1);
      PowOne(n - 1);
    }
  }

  lemma GeoHalves(z: Complex, h: nat)
    ensures Pow(z, h) == MINUS_ONE ==> Geo(z, h + h) == ZERO
    ensures Pow(z, h) == ONE && Geo(z, h) == ZERO ==> Geo(z, h + h) == ZERO
  {
    GeoSplit(z, h, h);
    var g, p := Geo(z, h), Pow(z, h);
    hide *;
    MulUnits(g);
    if p == MINUS_ONE { Cancels(g); }
    if p == ONE && g == ZERO { AddZero(); }
  }

  lemma Cancels(g: Complex)
    ensures Add(g, Sub(ZERO, g)) == ZERO
  {
  }

  lemma AddZero()
    ensures Add(ZERO, ZERO) == ZERO
  {
  }

  lemma {:induction false} SignPower(d: nat)
    ensures Pow(MINUS_ONE, d) == if d % 2 == 0 then ONE else MINUS_ONE
  {
    hide Mul;
    if d > 0 {
      SignPower(d - 1);
      MulUnits(MINUS_ONE);
    }
  }

  lemma PowSwap(w: Complex, d: nat, h: nat)
    ensures Pow(Pow(w, d), h) == Pow(Pow(w, h), d)
  {
    hide Pow;
    PowPow(w, d, h);
    PowPow(w, h, d);
    assert d * h == h * d;
  }

  /** The powers of a non-trivial root of unity of order 2^l add up to zero. */
  lemma {:induction false} GeoRoot(tw: seq<Complex>, m: nat, l: nat, d: nat)
    requires Twiddles(tw, m) && l <= m && 0 < d < Pow2(l)
    ensures Geo(Pow(tw[l], d), Pow2(l)) == ZERO
  {
    hide Mul, Pow, Geo;
    var h := Pow2(l - 1);
    HalfTurn(tw, m, l);
    PowSwap(tw[l], d, h);
    SignPower(d);
    GeoHalves(Pow(tw[l], d), h);
    if d % 2 == 0 {
      PowSquare(tw[l], d / 2);
      GeoRoot(tw, m, l - 1, d / 2);
    }
  }

  // ---------------------------------------------------------------- inversion

  /** The two directions use mutually inverse roots. */
  ghost predicate InversePair(fw: seq<Complex>, bw: seq<Complex>, m: nat) {
    Twiddles(fw, m) && Twiddles(bw, m) && Mul(fw[m], bw[m]) == ONE
  }

  /** u^i v^t is 1 when i = t, and otherwise a power of u or of v. */
  lemma MixedPower(u: Complex, v: Complex, i: nat, t: nat)
    requires Mul(u, v) == ONE
    ensures Mul(Pow(u, i), Pow(v, t)) == if i >= t then Pow(u, i - t) else Pow(v, t - i)
  {
    hide Mul, Pow;
    var c := if i >= t then t else i;
    PowProduct(u, v, c);
    PowOne(c);
    if i >= t {
      PowAdd(u, i - t, t);
      MulLaws(Pow(u, i - t), Pow(u, t), Pow(v, t));
      MulUnits(Pow(u, i - t));
    } else {
      PowAdd(v, i, t - i);
      MulLaws(Pow(u, i), Pow(v, i), Pow(v, t - i));
      MulUnits(Pow(v, t - i));
    }
  }

  /** Orthogonality of the columns of the transform. */
  lemma Orthogonal(fw: seq<Complex>, bw: seq<Complex>, m: nat, i: nat, t: nat)
    requires InversePair(fw, bw, m) && i < Pow2(m) && t < Pow2(m)
    ensures Geo(Mul(Pow(fw[m], i), Pow(bw[m], t)), Pow2(m)) == if i == t then Complex(Pow2(m) as real, 0.0) else ZERO
  {
    hide Mul, Pow, Geo, Pow2;
    MixedPower(fw[m], bw[m], i, t);
    if i == t {
      PowFirst(fw[m]);
      GeoOne(Pow2(m));
    } else if i > t {
      GeoRoot(fw, m, m, i - t);
    } else {
      GeoRoot(bw, m, m, t - i);
    }
  }

  lemma {:induction false} GeoIsSum(c: Complex, z: Complex, n: nat)
    ensures Sum((k: nat) => Mul(c, Pow(z, k)), n) == Mul(c, Geo(z, n))
  {
    hide Mul, Pow;
    if n == 0 {
      MulUnits(c);
    } else {
      GeoIsSum(c, z, n - 1);
      MulLaws(c, Geo(z, n - 1), Pow(z, n - 1));
    }
  }

  /** (x_i u^(k i)) v^(t k) = x_i (u^i v^t)^k */
  lemma Regroup(c: Complex, u: Complex, v: Complex, i: nat, t: nat, k: nat)
    ensures Mul(Mul(c, Pow(u, k * i)), Pow(v, t * k)) == Mul(c, Pow(Mul(Pow(u, i), Pow(v, t)), k))
  {
    hide Mul, Pow;
    assert k * i == i * k;
    PowPow(u, i, k);
    PowPow(v, t, k);
    PowProduct(Pow(u, i), Pow(v, t), k);
    MulLaws(c, Pow(u, k * i), Pow(v, t * k));
  }

  function Unscaled(x: seq<Complex>, w: Complex): (y: seq<Complex>)
    ensures |y| == |x|
  {
    seq(|x|, k requires 0 <= k < |x| => DftAt(x, w, k))
  }

  /** Output t of the second transform as one sum over the input. */
  lemma DoubleTransform(x: seq<Complex>, u: Complex, v: Complex, t: nat)
    ensures DftAt(Unscaled(x, u), v, t)
      == Sum((i: nat) => Mul(At(x, i), Geo(Mul(Pow(u, i), Pow(v, t)), |x|)), |x|)
  {
    hide Mul, Pow, DftTerms, Geo;
    var n, y := |x|, Unscaled(x, u);
    var f := (k: nat, i: nat) => Mul(At(x, i), Pow(Mul(Pow(u, i), Pow(v, t)), k));
    TermsAreSum(y, v, t, n);
    forall k: nat | k < n ensures Mul(At(y, k), Pow(v, t * k)) == Sum((i: nat) => f(k, i), n) {
      OuterTerm(x, u, v, t, k);
      SumEqual((i: nat) => Mul(At(x, i), Pow(Mul(Pow(u, i), Pow(v, t)), k)), (i: nat) => f(k, i), n);
    }
    SumEqual((k: nat) => Mul(At(y, k), Pow(v, t * k)), (k: nat) => Sum((i: nat) => f(k, i), n), n);
    SumSwap(f, n, n);
    forall i: nat | i < n ensures Sum((k: nat) => f(k, i), n) == Mul(At(x, i), Geo(Mul(Pow(u, i), Pow(v, t)), n)) {
      var z := Mul(Pow(u, i), Pow(v, t));
      SumEqual((k: nat) => f(k, i), (k: nat) => Mul(At(x, i), Pow(z, k)), n);
      GeoIsSum(At(x, i), z, n);
    }
    SumEqual((i: nat) => Sum((k: nat) => f(k, i), n),
             (i: nat) => Mul(At(x, i), Geo(Mul(Pow(u, i), Pow(v, t)), n)), n);
  }

  /** One term of the outer transform, expanded. */
  lemma OuterTerm(x: seq<Complex>, u: Complex, v: Complex, t: nat, k: nat)
    requires k < |x|
    ensures Mul(At(Unscaled(x, u), k), Pow(v, t * k))
      == Sum((i: nat) => Mul(At(x, i), Pow(Mul(Pow(u, i), Pow(v, t)), k)), |x|)
  {
    hide Mul, Pow, DftTerms;
    var n, p := |x|, Pow(v, t * k);
    var g := (i: nat) => Mul(At(x, i), Pow(u, k * i));
    TermsAreSum(x, u, k, n);
    SumEqual((i: nat) => Mul(At(x, i), Pow(u, k * i)), g, n);
    MulLaws(p, Sum(g, n), ONE);
    SumTimes(p, g, n);
    forall i: nat | i < n ensures Mul(p, g(i)) == Mul(At(x, i), Pow(Mul(Pow(u, i), Pow(v, t)), k)) {
      MulLaws(p, g(i), ONE);
      Regroup(At(x, i), u, v, i, t, k);
    }
    SumEqual((i: nat) => Mul(p, g(i)), (i: nat) => Mul(At(x, i), Pow(Mul(Pow(u, i), Pow(v, t)), k)), n);
  }

  /** Transforming forth and back multiplies by the length. */
  lemma ForthAndBack(x: seq<Complex>, fw: seq<Complex>, bw: seq<Complex>, m: nat, t: nat)
    requires InversePair(fw, bw, m) && |x| == Pow2(m) && t < |x|
    ensures DftAt(Unscaled(x, fw[m]), bw[m], t) == Stretch(x[t], |x| as real)
  {
    hide Mul, Pow, DftTerms, Geo, Pow2;
    var n, u, v := |x|, fw[m], bw[m];
    DoubleTransform(x, u, v, t);
    var f := (i: nat) => Mul(At(x, i), Geo(Mul(Pow(u, i), Pow(v, t)), n));
    SumEqual((i: nat) => Mul(At(x, i), Geo(Mul(Pow(u, i), Pow(v, t)), n)), f, n);
    forall i: nat | i < n ensures f(i) == if i == t then Stretch(x[t], n as real) else ZERO {
      Orthogonal(fw, bw, m, i, t);
      MulUnits(At(x, i));
      StretchIsMul(x[t], n as real);
    }
    SumSingle(f, n, t);
  }

  lemma StretchIsMul(c: Complex, r: real)
    ensures Mul(c, Complex(r, 0.0)) == Stretch(c, r)
  {
  }

  lemma {:induction false} TermsStretch(x: seq<Complex>, y: seq<Complex>, s: real, w: Complex, k: nat, n: nat)
    requires n <= |x| == |y| && forall i | 0 <= i < |x| :: y[i] == Stretch(x[i], s)
    ensures DftTerms(y, w, k, n) == Stretch(DftTerms(x, w, k, n), s)
  {
    hide Pow;
    if n > 0 {
      TermsStretch(x, y, s, w, k, n - 1);
      StretchMul(x[n - 1], Pow(w, k * (n - 1)), s);
      StretchAdd(DftTerms(x, w, k, n - 1), Mul(x[n - 1], Pow(w, k * (n - 1))), s);
    }
  }

  lemma StretchMul(a: Complex, b: Complex, s: real)
    ensures Mul(Stretch(a, s), b) == Stretch(Mul(a, b), s)
  {
  }

  lemma StretchAdd(a: Complex, b: Complex, s: real)
    ensures Add(Stretch(a, s), Stretch(b, s)) == Stretch(Add(a, b), s)
  {
  }

  lemma StretchBack(a: Complex, n: nat)
    requires n > 0
    ensures Stretch(Stretch(a, n as real), 1.0 / n as real) == a
  {
    var s := n as real;
    assert s * (1.0 / s) == 1.0;
    assert a.re * s * (1.0 / s) == a.re * (s * (1.0 / s));
    assert a.im * s * (1.0 / s) == a.im * (s * (1.0 / s));
  }

  /** Forward then inverse, and inverse then forward, both give back the input. */
  lemma TransformsInvert(x: seq<Complex>, fw: seq<Complex>, bw: seq<Complex>, m: nat)
    requires InversePair(fw, bw, m) && |x| == Pow2(m)
    ensures Spectrum(Spectrum(x, false, fw[m]), true, bw[m]) == x
    ensures Spectrum(Spectrum(x, true, bw[m]), false, fw[m]) == x
  {
    hide Mul, Pow, Pow2, DftTerms;
    var n := |x|;
    var s := 1.0 / n as real;
    MulLaws(fw[m], bw[m], ONE);
    assert Spectrum(x, false, fw[m]) == Unscaled(x, fw[m]);
    forall t | 0 <= t < n
      ensures Spectrum(Spectrum(x, false, fw[m]), true, bw[m])[t] == x[t]
      ensures Spectrum(Spectrum(x, true, bw[m]), false, fw[m])[t] == x[t]
    {
      StretchBack(x[t], n);
      ForthAndBack(x, fw, bw, m, t);
      ForthAndBack(x, bw, fw, m, t);
      TermsStretch(Unscaled(x, bw[m]), Spectrum(x, true, bw[m]), s, fw[m], t, n);
    }
  }
}
