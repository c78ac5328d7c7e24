/** The discrete Fourier transform as its defining sum: decimation in time and inversion. */
module Dft {
  import opened ComplexNumbers
  import opened NatBits

  /** Twiddle factors: tw[l] is the primitive root used at length 2^l. Any values with these two
      properties will do; those of the program are cos and sin of -2 pi / 2^l, or of 2 pi / 2^l for
      the inverse transform. */
  ghost predicate Twiddles(tw: seq<Complex>, m: nat) {
    && |tw| > m
    && (m >= 1 ==> tw[1] == MINUS_ONE)
    && forall l | 2 <= l <= m :: Mul(tw[l], tw[l]) == tw[l - 1]
  }

  /** The first n terms of the k-th output: the sum of x[i] * w^(k i). */
  function DftTerms(x: seq<Complex>, w: Complex, k: nat, n: nat): Complex
    requires n <= |x|
  {
    if n == 0 then ZERO else Add(DftTerms(x, w, k, n - 1), Mul(x[n - 1], Pow(w, k * (n - 1))))
  }

  function DftAt(x: seq<Complex>, w: Complex, k: nat): Complex { DftTerms(x, w, k, |x|) }

  function At(x: seq<Complex>, i: nat): Complex { if i < |x| then x[i] else ZERO }

  lemma {:induction false} TermsAreSum(x: seq<Complex>, w: Complex, k: nat, n: nat)
    requires n <= |x|
    ensures DftTerms(x, w, k, n) == Sum((i: nat) => Mul(At(x, i), Pow(w, k * i)), n)
  {
    hide Mul, Pow;
    if n > 0 { TermsAreSum(x, w, k, n - 1); }
  }

  /** The sum over i of x[i] w^(ki). */
  function DefiningSum(x: seq<Complex>, w: Complex, k: nat): Complex {
    Sum((i: nat) => Mul(At(x, i), Pow(w, k * i)), |x|)
  }

  /** y is the transform of x with root w, by the defining sums: for every k, sum over i of x[i] w^(ki) is
      y[k], or N y[k] for the inverse. */
  ghost predicate IsTransform(x: seq<Complex>, inverse: bool, w: Complex, y: seq<Complex>) {
    && |y| == |x|
    && forall k: nat | k < |x| ::
      (if inverse then Stretch(y[k], |x| as real) else y[k]) == DefiningSum(x, w, k)
  }

  /** Every stride-th element, starting at off. */
  function Decimate(x: seq<Complex>, off: nat, stride: nat, len: nat): (y: seq<Complex>)
    requires stride > 0 && off < stride && |x| == stride * len
    ensures |y| == len
  {
    seq(len, i requires 0 <= i < len =>
      DecimateIndex(off, stride, len, i);
      x[off + stride * i])
  }

  lemma DecimateIndex(off: nat, stride: nat, len: nat, i: nat)
    requires off < stride && i < len
    ensures off + stride * i < stride * len
  {
    assert stride * (i + 1) <= stride * len;
    assert stride * (i + 1) == stride * i + stride;
  }

  /** The Danielson-Lanczos step for a partial sum: even and odd terms. */
  lemma {:induction false} SplitTerms(x: seq<Complex>, even: seq<Complex>, odd: seq<Complex>,
                                      w: Complex, k: nat, n: nat)
    requires |x| == 2 * |even| == 2 * |odd| && n <= |even|
    requires forall i | 0 <= i < |even| :: even[i] == x[2 * i] && odd[i] == x[2 * i + 1]
    ensures DftTerms(x, w, k, 2 * n)
      == Add(DftTerms(even, Mul(w, w), k, n), Mul(Pow(w, k), DftTerms(odd, Mul(w, w), k, n)))
  {
    hide Mul, Pow;
    var v := Mul(w, w);
    if n == 0 {
      MulUnits(Pow(w, k));
    } else {
      SplitTerms(x, even, odd, w, k, n - 1);
      var i := n - 1;
      var p := Pow(v, k * i);
      assert k * (2 * i) == 2 * (k * i) && k * (2 * i + 1) == k + 2 * (k * i) by { Exponents(k, i); }
      PowSquare(w, k * i);
      PowAdd(w, k, 2 * (k * i));
      assert Mul(x[2 * i + 1], Mul(Pow(w, k), p)) == Mul(Pow(w, k), Mul(odd[i], p)) by {
        MulLaws(odd[i], Pow(w, k), p);
        MulLaws(Pow(w, k), odd[i], p);
      }
      MulLaws(Pow(w, k), DftTerms(odd, v, k, i), Mul(odd[i], p));
      assert DftTerms(x, w, k, 2 * n) == Add(DftTerms(x, w, k, 2 * i + 1), Mul(x[2 * i + 1], Pow(w, k * (2 * i + 1))));
      assert DftTerms(x, w, k, 2 * i + 1) == Add(DftTerms(x, w, k, 2 * i), Mul(x[2 * i], Pow(w, k * (2 * i))));
    }
  }

  lemma Exponents(k: nat, i: nat)
    ensures k * (2 * i) == 2 * (k * i) && k * (2 * i + 1) == k + 2 * (k * i)
  {
  }

  /** Half a turn: tw[l] to the power 2^(l - 1) is -1. */
  lemma {:induction false} HalfTurn(tw: seq<Complex>, m: nat, l: nat)
    requires Twiddles(tw, m) && 1 <= l <= m
    ensures Pow(tw[l], Pow2(l - 1)) == MINUS_ONE
  {
    hide Mul, Pow;
    if l == 1 {
      PowFirst(tw[1]);
    } else {
      HalfTurn(tw, m, l - 1);
      PowSquare(tw[l], Pow2(l - 2));
    }
  }

  /** Half a turn further on, powers change sign. */
  lemma HalfTurnPower(tw: seq<Complex>, m: nat, l: nat, k: nat)
    requires Twiddles(tw, m) && 1 <= l <= m
    ensures Pow(tw[l], k + Pow2(l - 1)) == Sub(ZERO, Pow(tw[l], k))
  {
    hide Mul, Pow;
    HalfTurn(tw, m, l);
    PowAdd(tw[l], k, Pow2(l - 1));
    MulUnits(Pow(tw[l], k));
  }

  /** A full turn: tw[l] to the power 2^l is 1. */
  lemma FullTurn(tw: seq<Complex>, m: nat, l: nat)
    requires Twiddles(tw, m) && 1 <= l <= m
    ensures Pow(tw[l], Pow2(l)) == ONE
  {
    hide Mul, Pow;
    HalfTurn(tw, m, l);
    PowAdd(tw[l], Pow2(l - 1), Pow2(l - 1));
    MulUnits(MINUS_ONE);
  }

  /** A full turn further on, the half-length transform repeats. */
  lemma {:induction false} TermsPeriodic(tw: seq<Complex>, m: nat, l: nat, x: seq<Complex>, k: nat, n: nat)
    requires Twiddles(tw, m) && 1 <= l <= m && n <= |x|
    ensures DftTerms(x, tw[l], k + Pow2(l), n) == DftTerms(x, tw[l], k, n)
  {
    hide Mul, Pow;
    if n > 0 {
      TermsPeriodic(tw, m, l, x, k, n - 1);
      FullTurn(tw, m, l);
      assert (k + Pow2(l)) * (n - 1) == k * (n - 1) + Pow2(l) * (n - 1);
      PowTurns(tw[l], Pow2(l), k * (n - 1), n - 1);
    }
  }

  lemma PowTurns(w: Complex, p: nat, e: nat, i: nat)
    requires Pow(w, p) == ONE
    ensures Pow(w, e + p * i) == Pow(w, e)
  {
    hide Mul, Pow;
    PowAdd(w, e, p * i);
    PowPow(w, p, i);
    PowOne(i);
    MulUnits(Pow(w, e));
  }

  /** One butterfly: outputs k and k + 2^(l-1) of a transform of length 2^l from output k of the
      transforms of its even and odd elements. */
  lemma Butterfly(tw: seq<Complex>, m: nat, l: nat, x: seq<Complex>, even: seq<Complex>, odd: seq<Complex>, k: nat)
    requires Twiddles(tw, m) && 1 <= l <= m && k < Pow2(l - 1)
    requires |x| == Pow2(l) == 2 * |even| == 2 * |odd|
    requires forall i | 0 <= i < |even| :: even[i] == x[2 * i] && odd[i] == x[2 * i + 1]
    ensures var u, v := DftAt(even, tw[l - 1], k), Mul(DftAt(odd, tw[l - 1], k), Pow(tw[l], k));
      DftAt(x, tw[l], k) == Add(u, v) && DftAt(x, tw[l], k + Pow2(l - 1)) == Sub(u, v)
  {
    hide Mul, Pow;
    var h := Pow2(l - 1);
    var w := tw[l];
    SplitTerms(x, even, odd, w, k, h);
    SplitTerms(x, even, odd, w, k + h, h);
    HalfLength(tw, m, l, even, k);
    HalfLength(tw, m, l, odd, k);
    HalfTurnPower(tw, m, l, k);
    var o := DftAt(odd, tw[l - 1], k);
    MulLaws(o, Pow(w, k), ONE);
    MulLaws(o, ZERO, Pow(w, k));
    MulLaws(o, Sub(ZERO, Pow(w, k)), ONE);
    MulUnits(o);
  }

  /** The transforms of half length have root w^2 and period 2^(l-1). */
  lemma HalfLength(tw: seq<Complex>, m: nat, l: nat, y: seq<Complex>, k: nat)
    requires Twiddles(tw, m) && 1 <= l <= m && |y| == Pow2(l - 1)
    ensures DftAt(y, Mul(tw[l], tw[l]), k) == DftAt(y, tw[l - 1], k)
    ensures DftAt(y, Mul(tw[l], tw[l]), k + Pow2(l - 1)) == DftAt(y, tw[l - 1], k)
  {
    hide Mul, Pow;
    if l == 1 {
      OnlyTerm(y, Mul(tw[1], tw[1]), k);
      OnlyTerm(y, Mul(tw[1], tw[1]), k + 1);
      OnlyTerm(y, tw[0], k);
    } else {
      TermsPeriodic(tw, m, l - 1, y, k, |y|);
    }
  }

  lemma OnlyTerm(y: seq<Complex>, w: Complex, k: nat)
    requires |y| == 1
    ensures DftAt(y, w, k) == y[0]
  {
    hide Mul, Pow;
    PowFirst(w);
    MulUnits(y[0]);
    assert k * 0 == 0;
    assert DftTerms(y, w, k, 1) == Add(DftTerms(y, w, k, 0), Mul(y[0], Pow(w, k * 0)));
  }
}
