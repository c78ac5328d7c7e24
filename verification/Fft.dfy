/** The iterative radix-2 FFT, in place, proved equal to the defining sum. */
module Fft {
  import opened Common
  import opened ComplexNumbers
  import opened BitReversal
  import opened NatBits
  import opened Dft

  // ---------------------------------------------------------------- what each stage computes

  /** The value that a stage with blocks of length 2h leaves at position p. */
  function StageValue(a: seq<Complex>, w: Complex, h: nat, p: nat): Complex
    requires h > 0 && Rem(|a|, 2 * h) == 0 && p < |a|
  {
    var k := Rem(p, 2 * h);
    PartnerInRange(|a|, 2 * h, p);
    if k < h then Add(a[p], Mul(a[p + h], Pow(w, k))) else Sub(a[p - h], Mul(a[p], Pow(w, k - h)))
  }

  lemma PartnerInRange(n: nat, len: nat, p: nat)
    requires len > 0 && Rem(n, len) == 0 && p < n
    ensures p - Rem(p, len) + len <= n
  {
    hide Quot, Rem;
    QuotRem(p, len);
    QuotRem(n, len);
    var b, c := Quot(p, len), Quot(n, len);
    assert b * len < c * len;
    MulCancelLess(b, c, len);
    assert (b + 1) * len <= c * len;
    assert (b + 1) * len == b * len + len;
  }

  /** The decimated subsequence whose transform occupies block b before stage l + 1. */
  function Block(x: seq<Complex>, m: nat, l: nat, b: nat): (y: seq<Complex>)
    requires l <= m && |x| == Pow2(m) && b < Pow2(m - l)
    ensures |y| == Pow2(l)
  {
    Pow2Add(m - l, l);
    Decimate(x, Rev(m - l, b), Pow2(m - l), Pow2(l))
  }

  /** After l stages every block of length 2^l holds the transform of its decimated subsequence. */
  ghost predicate AtLevel(a: seq<Complex>, x: seq<Complex>, tw: seq<Complex>, m: nat, l: nat)
    requires l <= m && |x| == Pow2(m) && |tw| > m
  {
    |a| == |x| && forall p | 0 <= p < |a| :: HoldsLevel(a[p], x, tw, m, l, p)
  }

  ghost predicate HoldsLevel(v: Complex, x: seq<Complex>, tw: seq<Complex>, m: nat, l: nat, p: nat)
    requires l <= m && |x| == Pow2(m) && |tw| > m
  {
    && Quot(p, Pow2(l)) < Pow2(m - l)
    && v == DftAt(Block(x, m, l, Quot(p, Pow2(l))), tw[l], Rem(p, Pow2(l)))
  }

  /** The even elements of a block are the block of twice its number one level down, the odd elements
      the next one. */
  lemma BlockHalves(x: seq<Complex>, m: nat, l: nat, b: nat)
    requires l < m && |x| == Pow2(m) && b < Pow2(m - l - 1)
    ensures 2 * b + 1 < Pow2(m - l)
    ensures forall i | 0 <= i < Pow2(l) ::
      && Block(x, m, l, 2 * b)[i] == Block(x, m, l + 1, b)[2 * i]
      && Block(x, m, l, 2 * b + 1)[i] == Block(x, m, l + 1, b)[2 * i + 1]
  {
    var s, n, off := Pow2(m - l - 1), Pow2(l), Rev(m - l - 1, b);
    RevOfTwice(m - l, b);
    BlockSizes(m, l);
    hide Rev, Pow2, Decimate;
    DecimateHalves(x, off, s, n);
  }

  lemma RevOfTwice(m: nat, b: nat)
    requires 0 < m && b < Pow2(m - 1)
    ensures 2 * b + 1 < Pow2(m) == 2 * Pow2(m - 1)
    ensures Rev(m, 2 * b) == Rev(m - 1, b) && Rev(m, 2 * b + 1) == Rev(m - 1, b) + Pow2(m - 1)
  {
    hide Rev, Pow2;
    Pow2Half(m);
    RevUnfold(m, 2 * b);
    RevUnfold(m, 2 * b + 1);
    assert (2 * b + 1) / 2 == b;
  }

  lemma BlockSizes(m: nat, l: nat)
    requires l < m
    ensures Pow2(l + 1) == 2 * Pow2(l)
    ensures Pow2(m) == 2 * Pow2(m - l - 1) * Pow2(l) == Pow2(m - l - 1) * (2 * Pow2(l))
  {
    Pow2Half(m - l);
    Pow2Half(l + 1);
    hide Pow2;
    Pow2Add(m - l, l);
    Pow2Add(m - l - 1, l + 1);
  }

  /** Every stride-th element twice as far apart: the even and the odd ones. */
  lemma DecimateHalves(x: seq<Complex>, off: nat, s: nat, n: nat)
    requires off < s && |x| == 2 * s * n == s * (2 * n)
    ensures forall i | 0 <= i < n ::
      && Decimate(x, off, 2 * s, n)[i] == Decimate(x, off, s, 2 * n)[2 * i]
      && Decimate(x, off + s, 2 * s, n)[i] == Decimate(x, off, s, 2 * n)[2 * i + 1]
  {
    forall i | 0 <= i < n
      ensures Decimate(x, off, 2 * s, n)[i] == Decimate(x, off, s, 2 * n)[2 * i]
      ensures Decimate(x, off + s, 2 * s, n)[i] == Decimate(x, off, s, 2 * n)[2 * i + 1]
    {
      Offsets(off, s, i);
    }
  }

  lemma Offsets(off: nat, s: nat, i: nat)
    ensures off + 2 * s * i == off + s * (2 * i)
    ensures off + s + 2 * s * i == off + s * (2 * i + 1)
  {
  }

  /** Position k of block b at length 2h, seen at length h. */
  lemma PositionHalves(p: nat, h: nat, b: nat, k: nat)
    requires k < 2 * h && p == 2 * h * b + k
    ensures k < h ==> Quot(p, h) == 2 * b && Rem(p, h) == k && Quot(p + h, h) == 2 * b + 1 && Rem(p + h, h) == k
    ensures k >= h ==> p >= h && Quot(p, h) == 2 * b + 1 && Rem(p, h) == k - h
    ensures k >= h ==> Quot(p - h, h) == 2 * b && Rem(p - h, h) == k - h
  {
    hide Quot, Rem;
    assert 2 * h * b == h * (2 * b);
    assert h * (2 * b + 1) == h * (2 * b) + h;
    if k < h {
      QuotRemUnique(p, h, 2 * b, k);
      QuotRemUnique(p + h, h, 2 * b + 1, k);
    } else {
      QuotRemUnique(p, h, 2 * b + 1, k - h);
      QuotRemUnique(p - h, h, 2 * b, k - h);
    }
  }

  /** One stage takes level l to level l + 1. */
  lemma StageLevel(a: seq<Complex>, x: seq<Complex>, tw: seq<Complex>, m: nat, l: nat, p: nat)
    requires Twiddles(tw, m) && l < m && |x| == Pow2(m) && AtLevel(a, x, tw, m, l)
    requires p < |a| && Pow2(l + 1) == 2 * Pow2(l) && Rem(|a|, 2 * Pow2(l)) == 0
    ensures HoldsLevel(StageValue(a, tw[l + 1], Pow2(l), p), x, tw, m, l + 1, p)
  {
    hide Mul, Pow, Rev, DftAt, Quot, Rem, Pow2, Block;
    var h := Pow2(l);
    var b, k := Quot(p, 2 * h), Rem(p, 2 * h);
    QuotRem(p, 2 * h);
    BlockCount(m, l + 1, p);
    PositionHalves(p, h, b, k);
    PartnerInRange(|a|, 2 * h, p);
    BlockHalves(x, m, l, b);
    var k' := if k < h then k else k - h;
    var p' := if k < h then p else p - h;
    assert HoldsLevel(a[p'], x, tw, m, l, p') && HoldsLevel(a[p' + h], x, tw, m, l, p' + h);
    Butterfly(tw, m, l + 1, Block(x, m, l + 1, b), Block(x, m, l, 2 * b), Block(x, m, l, 2 * b + 1), k');
  }

  lemma BlockCount(m: nat, l: nat, p: nat)
    requires l <= m && p < Pow2(m)
    ensures Quot(p, Pow2(l)) < Pow2(m - l)
  {
    hide Quot, Rem, Pow2;
    Pow2Add(m - l, l);
    QuotRem(p, Pow2(l));
    MulCancelLess(Quot(p, Pow2(l)), Pow2(m - l), Pow2(l));
  }

  /** Before the first stage: single elements in bit-reversed order. */
  lemma LevelZero(a: seq<Complex>, x: seq<Complex>, tw: seq<Complex>, m: nat)
    requires |x| == Pow2(m) == |a| && |tw| > m
    requires forall p | 0 <= p < |a| :: a[p] == x[Rev(m, p)]
    ensures AtLevel(a, x, tw, m, 0)
  {
    hide Rev, Mul, Pow, DftAt;
    forall p | 0 <= p < |a| ensures HoldsLevel(a[p], x, tw, m, 0, p) {
      QuotRemUnique(p, 1, p, 0);
      OnlyTerm(Block(x, m, 0, p), tw[0], 0);
    }
  }

  /** After the last stage: the transform of the whole input. */
  lemma LevelTop(a: seq<Complex>, x: seq<Complex>, tw: seq<Complex>, m: nat)
    requires |x| == Pow2(m) && |tw| > m && AtLevel(a, x, tw, m, m)
    ensures |a| == |x| && forall k | 0 <= k < |x| :: a[k] == DftAt(x, tw[m], k)
  {
    hide DftAt, Quot, Rem;
    assert Block(x, m, m, 0) == x;
    forall k | 0 <= k < |x| ensures a[k] == DftAt(x, tw[m], k) {
      QuotRemUnique(k, Pow2(m), 0, k);
      assert HoldsLevel(a[k], x, tw, m, m, k);
    }
  }

  // ---------------------------------------------------------------- the loops

  /** The butterflies of the block of length 2h that starts at i. */
  method ButterflyBlock(a: array<Complex>, i: nat, h: nat, wlen: Complex)
    requires i + 2 * h <= a.Length
    modifies a
    ensures forall p | i <= p < i + h :: a[p] == Add(old(a[p]), Mul(old(a[p + h]), Pow(wlen, p - i)))
    ensures forall p | i + h <= p < i + 2 * h :: a[p] == Sub(old(a[p - h]), Mul(old(a[p]), Pow(wlen, p - h - i)))
    ensures forall p | 0 <= p < a.Length && !(i <= p < i + 2 * h) :: a[p] == old(a[p])
  {
    hide Mul, Add, Sub, Pow;
    var w := ONE;
    PowFirst(wlen);
    for j := 0 to h
      invariant w == Pow(wlen, j)
      invariant forall p | i <= p < i + j :: a[p] == Add(old(a[p]), Mul(old(a[p + h]), Pow(wlen, p - i)))
      invariant forall p | i + h <= p < i + h + j :: a[p] == Sub(old(a[p - h]), Mul(old(a[p]), Pow(wlen, p - h - i)))
      invariant forall p | 0 <= p < a.Length && !(i <= p < i + j) && !(i + h <= p < i + h + j) :: a[p] == old(a[p])
    {
      var u := a[i + j];
      var v := Mul(a[i + j + h], w);
      a[i + j] := Add(u, v);
      a[i + j + h] := Sub(u, v);
      w := Mul(w, wlen);
      PowNext(wlen, j);
    }
  }

  lemma PowNext(z: Complex, n: nat)
    ensures Mul(Pow(z, n), z) == Pow(z, n + 1)
  {
    hide Mul;
    MulLaws(z, Pow(z, n), ONE);
  }

  /** One stage over the whole array. */
  method Stage(a: array<Complex>, h: nat, wlen: Complex)
    requires h > 0 && Rem(a.Length, 2 * h) == 0
    modifies a
    ensures forall p | 0 <= p < a.Length :: a[p] == StageValue(old(a[..]), wlen, h, p)
  {
    hide Mul, Add, Sub, Pow, Rem, Quot;
    ghost var was := a[..];
    var len := 2 * h;
    var i := 0;
    ghost var b := 0;
    while i < a.Length
      invariant 0 <= i <= a.Length && i == len * b
      invariant forall p | 0 <= p < i :: a[p] == StageValue(was, wlen, h, p)
      invariant forall p | i <= p < a.Length :: a[p] == was[p]
    {
      QuotRemUnique(i, len, b, 0);
      PartnerInRange(a.Length, len, i);
      ButterflyBlock(a, i, h, wlen);
      forall p | i <= p < i + len ensures a[p] == StageValue(was, wlen, h, p) {
        QuotRemUnique(p, len, b, p - i);
      }
      assert len * (b + 1) == len * b + len;
      i := i + len;
      b := b + 1;
    }
  }

  /** Bit reversal followed by all the stages. */
  method Transform(a: array<Complex>, ghost x: seq<Complex>, ghost m: nat, tw: seq<Complex>)
    requires a.Length == Pow2(m) && x == a[..] && Twiddles(tw, m)
    modifies a
    ensures forall k | 0 <= k < |x| :: a[k] == DftAt(x, tw[m], k)
  {
    hide Mul, Pow, Rev, Rem, DftAt, Pow2, Twiddles, AtLevel;
    assert |tw| > m by { TwiddleCount(tw, m); }
    BitReversePermute(a, m);
    LevelZero(a[..], x, tw, m);
    var len, l := 2, 0;
    Pow2Half(0);
    Pow2Half(1);
    while len <= a.Length
      invariant l <= m && len == Pow2(l + 1) == 2 * Pow2(l)
      invariant AtLevel(a[..], x, tw, m, l)
      decreases a.Length - len
    {
      ghost var was := a[..];
      assert l < m by { StillSmaller(m, l); }
      assert Rem(a.Length, len) == 0 by { LengthDivides(m, l + 1); }
      Stage(a, len / 2, tw[l + 1]);
      NextLevel(was, a[..], x, tw, m, l);
      len := 2 * len;
      l := l + 1;
      Pow2Half(l + 1);
    }
    assert l == m by { if l < m { Pow2Grows(l + 1, m); } }
    LevelTop(a[..], x, tw, m);
  }

  lemma TwiddleCount(tw: seq<Complex>, m: nat)
    requires Twiddles(tw, m)
    ensures |tw| > m
  {
  }

  lemma StillSmaller(m: nat, l: nat)
    requires l <= m && Pow2(l + 1) <= Pow2(m)
    ensures l < m
  {
  }

  lemma LengthDivides(m: nat, l: nat)
    requires l <= m
    ensures Rem(Pow2(m), Pow2(l)) == 0
  {
    hide Pow2, Rem, Quot;
    Pow2Add(m - l, l);
    QuotRemUnique(Pow2(m), Pow2(l), Pow2(m - l), 0);
  }

  lemma NextLevel(a: seq<Complex>, a': seq<Complex>, x: seq<Complex>, tw: seq<Complex>, m: nat, l: nat)
    requires Twiddles(tw, m) && l < m && |x| == Pow2(m) && AtLevel(a, x, tw, m, l) && |a'| == |a|
    requires Pow2(l + 1) == 2 * Pow2(l) && Rem(|a|, 2 * Pow2(l)) == 0
    requires forall p | 0 <= p < |a| :: a'[p] == StageValue(a, tw[l + 1], Pow2(l), p)
    ensures AtLevel(a', x, tw, m, l + 1)
  {
    hide HoldsLevel, StageValue, Pow2, Rem;
    forall p | 0 <= p < |a'| ensures HoldsLevel(a'[p], x, tw, m, l + 1, p) { StageLevel(a, x, tw, m, l, p); }
  }

  /** What the transform of length 2^m returns at k: the defining sum, divided by N when inverse. */
  function Spectrum(x: seq<Complex>, inverse: bool, w: Complex): (y: seq<Complex>)
    requires x != []
    ensures |y| == |x|
  {
    seq(|x|, k requires 0 <= k < |x| =>
      if inverse then Stretch(DftAt(x, w, k), 1.0 / |x| as real) else DftAt(x, w, k))
  }

  lemma SpectrumIsTransform(x: seq<Complex>, inverse: bool, w: Complex)
    requires x != []
    ensures IsTransform(x, inverse, w, Spectrum(x, inverse, w))
  {
    hide Stretch, DftAt, DefiningSum;
    forall k: nat | k < |x|
      ensures var y := Spectrum(x, inverse, w)[k];
        (if inverse then Stretch(y, |x| as real) else y) == DefiningSum(x, w, k)
    {
      SumOfTerms(x, w, k);
      ScaledBack(DftAt(x, w, k), |x|);
    }
  }

  lemma SumOfTerms(x: seq<Complex>, w: Complex, k: nat)
    ensures DftAt(x, w, k) == DefiningSum(x, w, k)
  {
    hide Mul, Pow, DftTerms, Sum;
    TermsAreSum(x, w, k, |x|);
  }

  lemma ScaledBack(a: Complex, n: nat)
    requires n > 0
    ensures Stretch(Stretch(a, 1.0 / n as real), n as real) == a
  {
    var s := 1.0 / n as real;
    assert s * n as real == 1.0;
    assert a.re * s * n as real == a.re * (s * n as real);
    assert a.im * s * n as real == a.im * (s * n as real);
  }

  /** The whole function. tw holds the twiddle factors of the requested direction. */
  method FftRadix2(x: seq<Complex>, inverse: bool, tw: seq<Complex>) returns (r: Option<seq<Complex>>)
    requires forall m: nat | |x| == Pow2(m) :: Twiddles(tw, m)
    ensures r.Some? <==> exists m: nat :: |x| == Pow2(m)
    ensures forall m: nat | |x| == Pow2(m) :: |tw| > m && r == Some(Spectrum(x, inverse, tw[m]))
    ensures forall m: nat | |x| == Pow2(m) :: r.Some? && IsTransform(x, inverse, tw[m], r.value)
  {
    hide Twiddles, DftAt, Pow2;
    if !IsPowerOfTwo(|x|) {
      forall m: nat | |x| == Pow2(m) ensures false { Pow2IsPowerOfTwo(m); }
      return None;
    }
    ghost var m := PowerOfTwoLog(|x|);
    TwiddleCount(tw, m);
    forall m': nat | |x| == Pow2(m') ensures m' == m { Pow2Injective(m, m'); }
    var n := |x|;
    var a := new Complex[n](i requires 0 <= i < n => x[i]);
    assert a[..] == x;
    Transform(a, x, m, tw);
    if inverse {
      var inv := 1.0 / n as real;
      for i := 0 to n
        invariant forall k | 0 <= k < n ::
          a[k] == if k < i then Stretch(DftAt(x, tw[m], k), inv) else DftAt(x, tw[m], k)
      {
        a[i] := Stretch(a[i], inv);
      }
    }
    assert a[..] == Spectrum(x, inverse, tw[m]);
    SpectrumIsTransform(x, inverse, tw[m]);
    hide IsTransform;
    return Some(a[..]);
  }
}
