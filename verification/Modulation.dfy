/** Gray-mapped QAM: modulation, hard decisions and max-log soft decisions. */
module Modulation {
  import opened Common
  import opened Llr
  import opened NatBits
  import opened Gray
  import opened ComplexNumbers

  datatype ModulationOrder = QPSK | QAM16 | QAM64 | QAM256

  function BitsPerSymbol(order: ModulationOrder): (m: nat)
    ensures m == 2 * Half(order)
  {
    match order
    case QPSK => 2
    case QAM16 => 4
    case QAM64 => 6
    case QAM256 => 8
  }

  /** Bits per axis. */
  function Half(order: ModulationOrder): (h: nat)
    ensures h > 0
  {
    match order
    case QPSK => 1
    case QAM16 => 2
    case QAM64 => 3
    case QAM256 => 4
  }

  // ---------------------------------------------------------------- bit groups and amplitudes

  /** The number written by bits, most significant first. */
  function Value(bits: Bits): (v: nat)
    ensures v < Pow2(|bits|)
  {
    if bits == [] then 0 else 2 * Value(bits[..|bits| - 1]) + (if bits[|bits| - 1] then 1 else 0)
  }

  lemma {:induction false} LowOfValue(bits: Bits)
    ensures Low(Value(bits), |bits|) == bits
  {
    if bits != [] {
      var n := |bits| - 1;
      LowOfValue(bits[..n]);
      var v := Value(bits);
      assert v / 2 == Value(bits[..n]);
      assert Low(v, n + 1)[n] == BitAt(v, 0) == bits[n];
      forall i | 0 <= i < n ensures Low(v, n + 1)[i] == bits[i] {
        assert BitAt(v, n - i) == BitAt(v / 2, n - i - 1);
        assert Low(v / 2, n)[i] == bits[..n][i];
      }
    }
  }

  lemma ValueOfLow(x: nat, n: nat)
    requires x < Pow2(n)
    ensures Value(Low(x, n)) == x
  {
    LowOfValue(Low(x, n));
    forall k | 0 <= k < n ensures BitAt(Value(Low(x, n)), k) == BitAt(x, k) {
      assert Low(Value(Low(x, n)), n)[n - 1 - k] == Low(x, n)[n - 1 - k];
    }
    LowDetermines(Value(Low(x, n)), x, n);
  }

  /** The amplitude of level v out of 2^h: odd integers, the largest for level 0. */
  function Amplitude(v: int, h: nat): int { Pow2(h) - 1 - 2 * v }

  /** Amplitude of h Gray-coded bits. */
  function PamAmp(bits: Bits): int { Amplitude(GrayToBin(Value(bits)), |bits|) }

  method GrayPamAmp(bits: Bits, start: nat, h: nat) returns (amp: int)
    requires start + h <= |bits|
    ensures amp == PamAmp(bits[start..start + h])
  {
    var g: nat := 0;
    for i := 0 to h
      invariant g == Value(bits[start..start + i])
    {
      assert bits[start..start + i + 1][..i] == bits[start..start + i];
      g := 2 * g + (if bits[start + i] then 1 else 0);
    }
    var v := GrayToBinLoop(g);
    var levels: int := Pow2(h);
    amp := levels - 1 - 2 * v;
  }

  /** The h bits of the level with a given amplitude, clamped to the constellation. */
  function AmpBits(amp: int, h: nat): (b: Bits)
    ensures |b| == h
  {
    Low(BinToGray(ClampedLevel(amp, h)), h)
  }

  function ClampedLevel(amp: int, h: nat): (v: nat)
    ensures v < Pow2(h)
  {
    var v := TruncHalf(Pow2(h) - 1 - amp);
    if v < 0 then 0 else if v >= Pow2(h) then Pow2(h) - 1 else v
  }

  /** Division by two, rounding towards zero as in C++. */
  function TruncHalf(x: int): int { if x >= 0 then x / 2 else -((-x) / 2) }

  method GrayBitsFromAmp(amp: int, h: nat) returns (out: Bits)
    ensures out == AmpBits(amp, h)
  {
    hide BitAt;
    var g := BinToGray(ClampedLevel(amp, h));
    out := [];
    var i: int := h - 1;
    while i >= 0
      invariant -1 <= i < h && out == Low(g, h)[..h - 1 - i]
    {
      out := out + [BitAt(g, i)];
      i := i - 1;
    }
    assert Low(g, h)[..h] == Low(g, h);
  }

  /** Bits to amplitude and back. */
  lemma AmpRoundTrip(bits: Bits)
    ensures AmpBits(PamAmp(bits), |bits|) == bits
  {
    hide BinToGray, GrayToBin, BitAt;
    var h, g := |bits|, Value(bits);
    DecodeBelow(g, h);
    GrayRoundTrip(g);
    LowOfValue(bits);
  }

  /** Level to bits and back. */
  lemma LevelRoundTrip(v: nat, h: nat)
    requires v < Pow2(h)
    ensures ClampedLevel(Amplitude(v, h), h) == v
    ensures PamAmp(AmpBits(Amplitude(v, h), h)) == Amplitude(v, h)
  {
    hide BinToGray, GrayToBin, BitAt;
    CodeBelow(v, h);
    ValueOfLow(BinToGray(v), h);
    BinRoundTrip(v);
  }

  // ---------------------------------------------------------------- the constellations written out

  /** The factor 1 - 2b. */
  function Signed(b: bool, x: int): int { if b then -x else x }

  lemma {:induction false} ValueFront(b: bool, rest: Bits)
    ensures Value([b] + rest) == (if b then Pow2(|rest|) else 0) + Value(rest)
  {
    var bits := [b] + rest;
    if rest == [] {
      assert bits[..0] == [];
    } else {
      assert bits[..|bits| - 1] == [b] + rest[..|rest| - 1];
      ValueFront(b, rest[..|rest| - 1]);
    }
  }

  /** The first bit of an axis is the sign; the others count outwards from the middle of the half. */
  lemma PamReflects(b: bool, rest: Bits)
    ensures PamAmp([b] + rest) == Signed(b, Pow2(|rest|) + PamAmp(rest))
  {
    hide GrayToBin, Value, PamAmp;
    var p, v := Pow2(|rest|), Value(rest);
    assert Pow2(|rest| + 1) == 2 * p;
    hide Pow2;
    ValueFront(b, rest);
    DecodeReflects(v, |rest|);
    PamIs(rest);
    PamIs([b] + rest);
    assert |[b] + rest| == |rest| + 1;
  }

  lemma PamIs(bits: Bits)
    ensures PamAmp(bits) == Pow2(|bits|) - 1 - 2 * GrayToBin(Value(bits))
  {
  }

  lemma PamNone()
    ensures PamAmp([]) == 0
  {
    assert GrayToBin(0) == 0 && Value([]) == 0 && Pow2(0) == 1;
  }

  /** The amplitudes of all four orders: the all-zero label is the most positive level. */
  lemma PamFormula(bits: Bits)
    ensures |bits| == 1 ==> PamAmp(bits) == Signed(bits[0], 1)
    ensures |bits| == 2 ==> PamAmp(bits) == Signed(bits[0], 2 + Signed(bits[1], 1))
    ensures |bits| == 3 ==> PamAmp(bits) == Signed(bits[0], 4 + Signed(bits[1], 2 + Signed(bits[2], 1)))
    ensures |bits| == 4 ==>
      PamAmp(bits) == Signed(bits[0], 8 + Signed(bits[1], 4 + Signed(bits[2], 2 + Signed(bits[3], 1))))
  {
    hide PamAmp;
    if 1 <= |bits| <= 4 {
      PamStep(bits, 0);
      if |bits| > 1 { PamStep(bits, 1); }
      if |bits| > 2 { PamStep(bits, 2); }
      if |bits| > 3 { PamStep(bits, 3); }
      assert bits[0..] == bits && bits[|bits|..] == [];
      PamNone();
      assert Pow2(0) == 1 && Pow2(1) == 2 && Pow2(2) == 4 && Pow2(3) == 8;
    }
  }

  lemma PamStep(bits: Bits, k: nat)
    requires k < |bits|
    ensures PamAmp(bits[k..]) == Signed(bits[k], Pow2(|bits| - 1 - k) + PamAmp(bits[k + 1..]))
  {
    hide PamAmp, Signed, Pow2;
    PamReflects(bits[k], bits[k + 1..]);
    assert bits[k..] == [bits[k]] + bits[k + 1..];
  }

  /** A symbol has the first half of its bits on the real axis and the second half on the imaginary one. */
  lemma SymbolFormula(bits: Bits, order: ModulationOrder, s: real)
    requires |bits| == BitsPerSymbol(order)
    ensures |bits| == (match order case QPSK => 2 case QAM16 => 4 case QAM64 => 6 case QAM256 => 8)
    ensures var h := |bits| / 2;
      Symbol(bits, s) == Complex(s * PamAmp(bits[..h]) as real, s * PamAmp(bits[h..]) as real)
  {
    hide PamAmp;
  }

  // ---------------------------------------------------------------- modulation

  /** The coordinate of an integer amplitude; s is the scale of the constellation. */
  function Axis(s: real, amp: int): real { s * amp as real }

  function Symbol(bits: Bits, s: real): Complex
    requires |bits| % 2 == 0
  {
    var h := |bits| / 2;
    Complex(Axis(s, PamAmp(bits[..h])), Axis(s, PamAmp(bits[h..])))
  }

  /** One symbol per group of 2h bits. */
  function SymbolAll(bits: Bits, h: nat, s: real): seq<Complex>
    requires h > 0
    decreases |bits|
  {
    if |bits| < 2 * h then []
    else
      var n := |bits| - 2 * h;
      SymbolAll(bits[..n], h, s) + [Symbol(bits[n..], s)]
  }

  /** A partial group is rejected. */
  method Modulate(bits: Bits, order: ModulationOrder, s: real) returns (r: Option<seq<Complex>>)
    ensures r == if |bits| % BitsPerSymbol(order) == 0 then Some(SymbolAll(bits, Half(order), s)) else None
  {
    hide PamAmp, Axis, SymbolAll;
    var m := BitsPerSymbol(order);
    if |bits| % m != 0 { return None; }
    var half := m / 2;
    assert SymbolAll(bits[..0], half, s) == [] by { NoSymbols(bits[..0], half, s); }
    var out: seq<Complex> := [];
    var i := 0;
    while i < |bits|
      invariant i <= |bits| && (|bits| - i) % m == 0
      invariant out == SymbolAll(bits[..i], half, s)
    {
      assert i + m <= |bits| by { WholeGroup(|bits| - i, m); }
      var re := GrayPamAmp(bits, i, half);
      var im := GrayPamAmp(bits, i + half, half);
      out := out + [Complex(Axis(s, re), Axis(s, im))];
      NextSymbol(bits, i, half, s);
      WholeGroup(|bits| - i, m);
      i := i + m;
    }
    assert bits[..i] == bits;
    return Some(out);
  }

  lemma NoSymbols(bits: Bits, h: nat, s: real)
    requires |bits| < 2 * h
    ensures SymbolAll(bits, h, s) == []
  {
  }

  lemma NextSymbol(bits: Bits, i: nat, h: nat, s: real)
    requires h > 0 && i + 2 * h <= |bits|
    ensures SymbolAll(bits[..i + 2 * h], h, s) == SymbolAll(bits[..i], h, s)
      + [Complex(Axis(s, PamAmp(bits[i..i + h])), Axis(s, PamAmp(bits[i + h..i + h + h])))]
  {
    hide PamAmp, Axis;
    var group := bits[..i + 2 * h][i..];
    assert group[..h] == bits[i..i + h] && group[h..] == bits[i + h..i + h + h];
    assert bits[..i + 2 * h][..i] == bits[..i];
  }

  lemma WholeGroup(n: nat, m: nat)
    requires n > 0 && m > 0 && n % m == 0
    ensures n >= m && (n - m) % m == 0
  {
    if n < m { ModUnique(n, m, 0, n); }
    assert n == m * (n / m);
    assert m * (n / m - 1) == m * (n / m) - m;
    ModUnique(n - m, m, n / m - 1, 0);
  }

  // ---------------------------------------------------------------- hard decisions

  /** The k-th amplitude counted from the most negative one. */
  function LevelAmp(h: nat, k: int): int { 2 * k - (Pow2(h) - 1) }

  function Miss(x: real, s: real, amp: int): real { Abs(x - Axis(s, amp)) }

  /** The nearest of the first n levels from the most negative one; the first of several. */
  function NearestOf(x: real, s: real, h: nat, n: nat): (k: nat)
    requires n > 0
    ensures k < n
    ensures forall j | 0 <= j < n :: Miss(x, s, LevelAmp(h, k)) <= Miss(x, s, LevelAmp(h, j))
    ensures forall j | 0 <= j < k :: Miss(x, s, LevelAmp(h, k)) < Miss(x, s, LevelAmp(h, j))
  {
    if n == 1 then 0
    else
      var k := NearestOf(x, s, h, n - 1);
      if Miss(x, s, LevelAmp(h, n - 1)) < Miss(x, s, LevelAmp(h, k)) then n - 1 else k
  }

  /** The nearest amplitude. */
  function Nearest(x: real, s: real, h: nat): int { LevelAmp(h, NearestOf(x, s, h, Pow2(h))) }

  method NearestLoop(x: real, s: real, h: nat) returns (best: int)
    ensures best == Nearest(x, s, h)
  {
    hide Miss, Pow2;
    var levels: int := Pow2(h);
    best := -(levels - 1);
    var bestD: Option<real> := None;
    var a := -(levels - 1);
    ghost var n: nat := 0;
    while a <= levels - 1
      invariant a == LevelAmp(h, n) && n <= levels
      invariant n == 0 ==> bestD.None?
      invariant n > 0 ==> best == LevelAmp(h, NearestOf(x, s, h, n)) && bestD == Some(Miss(x, s, best))
      decreases levels - n
    {
      var d := Miss(x, s, a);
      if bestD.None? || d < bestD.value { bestD, best := Some(d), a; }
      a := a + 2;
      n := n + 1;
    }
    assert n == levels;
  }

  /** The bits decided for one received point. */
  function HardBits(z: Complex, h: nat, s: real): (b: Bits)
    ensures |b| == 2 * h
  {
    AmpBits(Nearest(z.re, s, h), h) + AmpBits(Nearest(z.im, s, h), h)
  }

  function HardAll(syms: seq<Complex>, h: nat, s: real): (b: Bits) {
    if syms == [] then [] else HardAll(syms[..|syms| - 1], h, s) + HardBits(syms[|syms| - 1], h, s)
  }

  method DemodulateHard(syms: seq<Complex>, order: ModulationOrder, s: real) returns (out: Bits)
    ensures out == HardAll(syms, Half(order), s)
  {
    hide Nearest, AmpBits;
    var m := BitsPerSymbol(order);
    var half := m / 2;
    out := [];
    for i := 0 to |syms|
      invariant out == HardAll(syms[..i], half, s)
    {
      assert syms[..i + 1][..i] == syms[..i];
      var re := NearestLoop(syms[i].re, s, half);
      var reBits := GrayBitsFromAmp(re, half);
      var im := NearestLoop(syms[i].im, s, half);
      var imBits := GrayBitsFromAmp(im, half);
      assert out + reBits + imBits == out + (reBits + imBits);
      out := out + reBits + imBits;
    }
    assert syms[..|syms|] == syms;
  }

  /** No point is within s of two amplitudes at least 2 apart. */
  lemma FarApart(x: real, s: real, a: int, b: int)
    requires s > 0.0 && a >= b + 2
    ensures Miss(x, s, a) >= s || Miss(x, s, b) >= s
  {
    var d := (a - b) as real;
    assert Axis(s, a) - Axis(s, b) == s * d;
    assert s * d >= s * 2.0;
    TwoMargins(x, Axis(s, a), Axis(s, b), s);
  }

  lemma TwoMargins(x: real, p: real, q: real, s: real)
    requires p - q >= s + s
    ensures Abs(x - p) >= s || Abs(x - q) >= s
  {
  }

  /** Under less than s of noise on an axis the transmitted level is the nearest. */
  lemma NearestUnderNoise(x: real, s: real, h: nat, k: nat)
    requires s > 0.0 && k < Pow2(h) && Miss(x, s, LevelAmp(h, k)) < s
    ensures NearestOf(x, s, h, Pow2(h)) == k
  {
    hide Pow2, Miss;
    var j := NearestOf(x, s, h, Pow2(h));
    assert Miss(x, s, LevelAmp(h, j)) <= Miss(x, s, LevelAmp(h, k));
    if j > k { FarApart(x, s, LevelAmp(h, j), LevelAmp(h, k)); }
    if j < k { FarApart(x, s, LevelAmp(h, k), LevelAmp(h, j)); }
  }

  /** z is within s of the symbol of the bits on each axis. */
  predicate Close(z: Complex, bits: Bits, s: real)
    requires |bits| % 2 == 0
  {
    var h := |bits| / 2;
    Miss(z.re, s, PamAmp(bits[..h])) < s && Miss(z.im, s, PamAmp(bits[h..])) < s
  }

  /** Less than s of noise on an axis leaves the bits of that axis readable. */
  lemma AxisRecovers(x: real, bits: Bits, s: real)
    requires s > 0.0 && Miss(x, s, PamAmp(bits)) < s
    ensures AmpBits(Nearest(x, s, |bits|), |bits|) == bits
  {
    hide Pow2, GrayToBin, NearestOf, AmpBits, Miss, Value;
    DecodeBelow(Value(bits), |bits|);
    var k := Pow2(|bits|) - 1 - GrayToBin(Value(bits));
    assert LevelAmp(|bits|, k) == PamAmp(bits);
    NearestUnderNoise(x, s, |bits|, k);
    AmpRoundTrip(bits);
  }

  /** Hard decisions recover the bits of every symbol received with less than s of noise per axis. */
  lemma HardRecovers(z: Complex, bits: Bits, h: nat, s: real)
    requires |bits| == 2 * h && s > 0.0 && Close(z, bits, s)
    ensures HardBits(z, h, s) == bits
  {
    hide Nearest, AmpBits, Miss, PamAmp;
    AxisRecovers(z.re, bits[..h], s);
    AxisRecovers(z.im, bits[h..], s);
  }

  /** Each received point is close to the symbol of its group of 2h bits. */
  predicate AllClose(syms: seq<Complex>, bits: Bits, h: nat, s: real) {
    if syms == [] then bits == []
    else
      && |bits| >= 2 * h
      && Close(syms[|syms| - 1], bits[|bits| - 2 * h..], s)
      && AllClose(syms[..|syms| - 1], bits[..|bits| - 2 * h], h, s)
  }

  /** Whole sequences: hard decisions return the bits that were modulated. */
  lemma {:induction false} SequenceRecovers(syms: seq<Complex>, bits: Bits, h: nat, s: real)
    requires s > 0.0 && AllClose(syms, bits, h, s)
    ensures HardAll(syms, h, s) == bits
  {
    hide Close, HardBits;
    if syms != [] {
      var n, k := |syms| - 1, |bits| - 2 * h;
      SequenceRecovers(syms[..n], bits[..k], h, s);
      HardRecovers(syms[n], bits[k..], h, s);
      assert bits == bits[..k] + bits[k..];
    }
  }

  /** Without noise every transmitted sequence is close to itself. */
  lemma {:induction false} NoiselessClose(bits: Bits, h: nat, s: real)
    requires h > 0 && s > 0.0 && |bits| % (2 * h) == 0
    ensures AllClose(SymbolAll(bits, h, s), bits, h, s)
    decreases |bits|
  {
    hide PamAmp, Axis;
    if |bits| > 0 {
      WholeGroup(|bits|, 2 * h);
      NoiselessClose(bits[..|bits| - 2 * h], h, s);
    }
  }

  // ---------------------------------------------------------------- soft decisions

  /** The constellation point of an index: its m bits, most significant first. */
  function Point(idx: nat, h: nat, s: real): Complex { Symbol(Low(idx, 2 * h), s) }

  /** Bit k, counted from the most significant, of the 2h bits of an index. */
  function LabelBit(idx: nat, h: nat, k: nat): bool
    requires k < 2 * h
  {
    BitAt(idx, 2 * h - 1 - k)
  }

  function Square(x: real): real { x * x }

  /** The squared distance of two points. */
  function Distance2(y: Complex, c: Complex): real { Square(y.re - c.re) + Square(y.im - c.im) }

  function MinTo(a: real, b: Option<real>): Option<real> {
    if b.None? || a < b.value then Some(a) else b
  }

  /** The least squared distance over the first n points whose bit k is b; None is infinity. */
  function MinOver(y: Complex, h: nat, s: real, k: nat, b: bool, n: nat): (m: Option<real>)
    requires k < 2 * h
    ensures m.Some? ==> forall i | 0 <= i < n && LabelBit(i, h, k) == b :: m.value <= Distance2(y, Point(i, h, s))
    ensures m.Some? ==> exists i :: 0 <= i < n && LabelBit(i, h, k) == b && m.value == Distance2(y, Point(i, h, s))
    ensures m.None? ==> forall i | 0 <= i < n :: LabelBit(i, h, k) != b
  {
    hide LabelBit, Distance2, Point;
    if n == 0 then None
    else
      var rest := MinOver(y, h, s, k, b, n - 1);
      if LabelBit(n - 1, h, k) == b then MinTo(Distance2(y, Point(n - 1, h, s)), rest) else rest
  }

  /** Max-log LLR of bit k of one received point. */
  function SoftBit(y: Complex, h: nat, s: real, noiseVar: real, k: nat): real
    requires k < 2 * h && noiseVar > 0.0
  {
    BothBitsOccur(y, h, s, k);
    ScaledGap(noiseVar, MinOver(y, h, s, k, true, Pow2(2 * h)).value, MinOver(y, h, s, k, false, Pow2(2 * h)).value)
  }

  function ScaledGap(noiseVar: real, min1: real, min0: real): real
    requires noiseVar > 0.0
  {
    1.0 / (2.0 * noiseVar) * (min1 - min0)
  }

  lemma GapSign(noiseVar: real, min1: real, min0: real)
    requires noiseVar > 0.0
    ensures ScaledGap(noiseVar, min1, min0) > 0.0 <==> min1 > min0
    ensures ScaledGap(noiseVar, min1, min0) < 0.0 <==> min1 < min0
  {
    var c, x := 1.0 / (2.0 * noiseVar), min1 - min0;
    assert c > 0.0;
    if x > 0.0 { assert c * x > 0.0; }
    if x < 0.0 { assert c * -x > 0.0; }
  }

  /** d is the squared distance of y to the nearest point whose label has b at position k. */
  ghost predicate IsNearest(y: Complex, h: nat, s: real, k: nat, b: bool, d: real)
    requires k < 2 * h
  {
    && (forall bits: Bits | |bits| == 2 * h && bits[k] == b ::
          d <= Square(y.re - Symbol(bits, s).re) + Square(y.im - Symbol(bits, s).im))
    && exists bits: Bits :: |bits| == 2 * h && bits[k] == b
         && d == Square(y.re - Symbol(bits, s).re) + Square(y.im - Symbol(bits, s).im)
  }

  /** The LLR of a bit, times twice the noise variance, is the squared distance to the nearest point with
      that bit 1 minus the squared distance to the nearest point with that bit 0. */
  lemma SoftBitMeans(y: Complex, h: nat, s: real, noiseVar: real, k: nat, d1: real, d0: real)
    requires k < 2 * h && noiseVar > 0.0
    requires IsNearest(y, h, s, k, true, d1) && IsNearest(y, h, s, k, false, d0)
    ensures 2.0 * noiseVar * SoftBit(y, h, s, noiseVar, k) == d1 - d0
  {
    hide IsNearest, ScaledGap, SoftBit;
    var min1, min0 := SoftBitGap(y, h, s, noiseVar, k);
    NearestUnique(y, h, s, k, true, d1, min1);
    NearestUnique(y, h, s, k, false, d0, min0);
    GapTimes(noiseVar, min1, min0);
  }

  lemma SoftBitGap(y: Complex, h: nat, s: real, noiseVar: real, k: nat) returns (min1: real, min0: real)
    requires k < 2 * h && noiseVar > 0.0
    ensures IsNearest(y, h, s, k, true, min1) && IsNearest(y, h, s, k, false, min0)
    ensures SoftBit(y, h, s, noiseVar, k) == ScaledGap(noiseVar, min1, min0)
  {
    hide MinOver, Pow2, IsNearest, ScaledGap, LabelBit, Distance2, Point;
    BothBitsOccur(y, h, s, k);
    min1, min0 := MinOver(y, h, s, k, true, Pow2(2 * h)).value, MinOver(y, h, s, k, false, Pow2(2 * h)).value;
    MinIsNearest(y, h, s, k, true);
    MinIsNearest(y, h, s, k, false);
  }

  lemma GapTimes(noiseVar: real, min1: real, min0: real)
    requires noiseVar > 0.0
    ensures 2.0 * noiseVar * ScaledGap(noiseVar, min1, min0) == min1 - min0
  {
    var c := 2.0 * noiseVar;
    assert c * (1.0 / c) == 1.0;
    assert c * (1.0 / c * (min1 - min0)) == c * (1.0 / c) * (min1 - min0);
  }

  lemma NearestUnique(y: Complex, h: nat, s: real, k: nat, b: bool, d: real, d': real)
    requires k < 2 * h && IsNearest(y, h, s, k, b, d) && IsNearest(y, h, s, k, b, d')
    ensures d == d'
  {
    hide Symbol, Square;
  }

  lemma MinIsNearest(y: Complex, h: nat, s: real, k: nat, b: bool)
    requires k < 2 * h && MinOver(y, h, s, k, b, Pow2(2 * h)).Some?
    ensures IsNearest(y, h, s, k, b, MinOver(y, h, s, k, b, Pow2(2 * h)).value)
  {
    hide MinOver, Pow2, Symbol, Square, Value, Low, BitAt;
    var n := Pow2(2 * h);
    var d := MinOver(y, h, s, k, b, n).value;
    forall bits: Bits | |bits| == 2 * h && bits[k] == b
      ensures d <= Square(y.re - Symbol(bits, s).re) + Square(y.im - Symbol(bits, s).im)
    {
      OwnLabel(bits, h, s, k);
      assert LabelBit(Value(bits), h, k) == b;
    }
    var i :| 0 <= i < n && LabelBit(i, h, k) == b && d == Distance2(y, Point(i, h, s));
    LowEntry(i, 2 * h, k);
    assert |Low(i, 2 * h)| == 2 * h && Low(i, 2 * h)[k] == b;
  }

  /** Both minima are over non-empty sets, so neither is infinite. */
  lemma BothBitsOccur(y: Complex, h: nat, s: real, k: nat)
    requires k < 2 * h
    ensures MinOver(y, h, s, k, true, Pow2(2 * h)).Some? && MinOver(y, h, s, k, false, Pow2(2 * h)).Some?
  {
    hide MinOver, BitAt;
    var n, j := Pow2(2 * h), 2 * h - 1 - k;
    ZeroBits(j);
    MaskBit(2 * h, j);
    assert !LabelBit(0, h, k) && LabelBit(n - 1, h, k);
  }

  function SoftGroup(y: Complex, h: nat, s: real, noiseVar: real, n: nat): (l: Soft)
    requires noiseVar > 0.0 && n <= 2 * h
    ensures |l| == n
  {
    seq(n, k requires 0 <= k < n => SoftBit(y, h, s, noiseVar, k))
  }

  function SoftAll(syms: seq<Complex>, h: nat, s: real, noiseVar: real): (l: Soft)
    requires noiseVar > 0.0
  {
    if syms == [] then []
    else SoftAll(syms[..|syms| - 1], h, s, noiseVar) + SoftGroup(syms[|syms| - 1], h, s, noiseVar, 2 * h)
  }

  /** One pass over the constellation for one bit: the least distance on either side. */
  method NearestOfEach(y: Complex, alphabet: seq<Complex>, h: nat, s: real, k: nat)
    returns (min0: Option<real>, min1: Option<real>)
    requires k < 2 * h && forall i | 0 <= i < |alphabet| :: alphabet[i] == Point(i, h, s)
    ensures min0 == MinOver(y, h, s, k, false, |alphabet|) && min1 == MinOver(y, h, s, k, true, |alphabet|)
  {
    hide Point, LabelBit, Distance2;
    min0, min1 := None, None;
    for i := 0 to |alphabet|
      invariant min0 == MinOver(y, h, s, k, false, i) && min1 == MinOver(y, h, s, k, true, i)
    {
      var d2 := Distance2(y, alphabet[i]);
      if !LabelBit(i, h, k) { min0 := MinTo(d2, min0); } else { min1 := MinTo(d2, min1); }
    }
  }

  method Constellation(h: nat, s: real) returns (c: seq<Complex>)
    ensures |c| == Pow2(2 * h) && forall i | 0 <= i < |c| :: c[i] == Point(i, h, s)
  {
    hide Point;
    c := [];
    for i := 0 to Pow2(2 * h)
      invariant |c| == i && forall j | 0 <= j < i :: c[j] == Point(j, h, s)
    {
      c := c + [Point(i, h, s)];
    }
  }

  method DemodulateLlr(syms: seq<Complex>, order: ModulationOrder, s: real, noiseVar: real) returns (r: Option<Soft>)
    ensures r.Some? <==> noiseVar > 0.0
    ensures r.Some? ==> r.value == SoftAll(syms, Half(order), s, noiseVar)
  {
    hide Point, Pow2, ScaledGap, MinOver;
    if !(noiseVar > 0.0) { return None; }
    var h := Half(order);
    var alphabet := Constellation(h, s);
    var llr: Soft := [];
    for i := 0 to |syms|
      invariant llr == SoftAll(syms[..i], h, s, noiseVar)
    {
      assert syms[..i + 1][..i] == syms[..i];
      var group: Soft := [];
      for k := 0 to 2 * h
        invariant group == SoftGroup(syms[i], h, s, noiseVar, k)
      {
        var min0, min1 := NearestOfEach(syms[i], alphabet, h, s, k);
        BothBitsOccur(syms[i], h, s, k);
        group := group + [ScaledGap(noiseVar, min1.value, min0.value)];
      }
      llr := llr + group;
    }
    assert syms[..|syms|] == syms;
    return Some(llr);
  }

  /** On one axis the nearest amplitude is at least as close as that of any h bits. */
  lemma AxisClosest(x: real, h: nat, s: real, bits: Bits)
    requires |bits| == h
    ensures PamAmp(AmpBits(Nearest(x, s, h), h)) == Nearest(x, s, h)
    ensures Square(x - Axis(s, Nearest(x, s, h))) <= Square(x - Axis(s, PamAmp(bits)))
  {
    hide BitAt, GrayToBin, BinToGray, AmpBits, Value, Pow2, Axis;
    var n := Pow2(h);
    var k := NearestOf(x, s, h, n);
    LevelRoundTrip(n - 1 - k, h);
    DecodeBelow(Value(bits), h);
    var j := n - 1 - GrayToBin(Value(bits));
    assert LevelAmp(h, j) == PamAmp(bits);
    assert Miss(x, s, LevelAmp(h, k)) <= Miss(x, s, LevelAmp(h, j));
    SquareOrder(x - Axis(s, Nearest(x, s, h)), x - Axis(s, PamAmp(bits)));
  }

  lemma SquareOrder(a: real, b: real)
    requires Abs(a) <= Abs(b)
    ensures Square(a) <= Square(b)
  {
    assert Abs(a) * Abs(a) <= Abs(b) * Abs(b);
  }

  /** The point of the hard decision is at least as close as every other point. */
  lemma HardIsClosest(y: Complex, h: nat, s: real, idx: nat)
    requires h > 0
    ensures Distance2(y, Point(Value(HardBits(y, h, s)), h, s)) <= Distance2(y, Point(idx, h, s))
  {
    hide Low, Value, AmpBits, Nearest, PamAmp, Square, Axis;
    var hb := HardBits(y, h, s);
    LowOfValue(hb);
    AxisClosest(y.re, h, s, Low(idx, 2 * h)[..h]);
    AxisClosest(y.im, h, s, Low(idx, 2 * h)[h..]);
    assert hb[..h] == AmpBits(Nearest(y.re, s, h), h) && hb[h..] == AmpBits(Nearest(y.im, s, h), h);
  }

  /** Soft and hard decisions agree for every received point: a positive LLR comes with hard bit 0
      and a negative one with hard bit 1. */
  lemma SoftAgreesWithHard(y: Complex, h: nat, s: real, noiseVar: real, k: nat)
    requires k < 2 * h && noiseVar > 0.0
    ensures SoftBit(y, h, s, noiseVar, k) > 0.0 ==> !HardBits(y, h, s)[k]
    ensures SoftBit(y, h, s, noiseVar, k) < 0.0 ==> HardBits(y, h, s)[k]
  {
    var hb := HardBits(y, h, s);
    var best, n := Value(hb), Pow2(2 * h);
    LowOfValue(hb);
    assert LabelBit(best, h, k) == hb[k] by { assert Low(best, 2 * h)[k] == hb[k]; }
    BothBitsOccur(y, h, s, k);
    hide Distance2, HardBits, Point, Value, LabelBit, MinOver, ScaledGap, Pow2;
    var min1, min0 := MinOver(y, h, s, k, true, n).value, MinOver(y, h, s, k, false, n).value;
    GapSign(noiseVar, min1, min0);
    var other := MinOver(y, h, s, k, !hb[k], n).value;
    var i :| 0 <= i < n && LabelBit(i, h, k) == !hb[k] && other == Distance2(y, Point(i, h, s));
    HardIsClosest(y, h, s, i);
    assert MinOver(y, h, s, k, hb[k], n).value <= Distance2(y, Point(best, h, s));
  }

  // ---------------------------------------------------------------- soft decisions under bounded noise

  /** Different bits on an axis have amplitudes at least 2 apart. */
  lemma AmpsDiffer(a: Bits, b: Bits)
    requires |a| == |b| && a != b
    ensures PamAmp(a) >= PamAmp(b) + 2 || PamAmp(b) >= PamAmp(a) + 2
  {
    hide AmpBits, GrayToBin, Value, Pow2;
    AmpRoundTrip(a);
    AmpRoundTrip(b);
    var x: int, y: int := GrayToBin(Value(a)), GrayToBin(Value(b));
    assert PamAmp(a) - PamAmp(b) == 2 * (y - x);
  }

  lemma SquareStrict(a: real, b: real)
    requires Abs(a) < Abs(b)
    ensures Square(a) < Square(b)
  {
    var p, q := Abs(a), Abs(b);
    ProductGap(p, q);
    assert Square(a) == p * p && Square(b) == q * q;
  }

  lemma ProductGap(p: real, q: real)
    requires 0.0 <= p < q
    ensures p * p < q * q
  {
    var d := q - p;
    assert q * q == p * p + 2.0 * (p * d) + d * d;
    assert p * d >= 0.0;
    assert d * d > 0.0;
  }

  /** With less than s of noise the transmitted coordinate is strictly the closest. */
  lemma AxisStrict(x: real, s: real, a: Bits, b: Bits)
    requires |a| == |b| && s > 0.0 && Miss(x, s, PamAmp(a)) < s
    ensures a == b || Square(x - Axis(s, PamAmp(a))) < Square(x - Axis(s, PamAmp(b)))
  {
    if a != b {
      AmpsDiffer(a, b);
      if PamAmp(a) > PamAmp(b) { FarApart(x, s, PamAmp(a), PamAmp(b)); } else { FarApart(x, s, PamAmp(b), PamAmp(a)); }
      hide PamAmp, Axis;
      SquareStrict(x - Axis(s, PamAmp(a)), x - Axis(s, PamAmp(b)));
    }
  }

  /** With less than s of noise per axis the transmitted point is strictly the closest. */
  lemma PointStrict(z: Complex, bits: Bits, h: nat, s: real, other: Bits)
    requires |bits| == 2 * h == |other| && s > 0.0 && Close(z, bits, s) && other != bits
    ensures Distance2(z, Symbol(bits, s)) < Distance2(z, Symbol(other, s))
  {
    hide PamAmp, Axis, Square;
    AxisStrict(z.re, s, bits[..h], other[..h]);
    AxisStrict(z.im, s, bits[h..], other[h..]);
    assert bits == bits[..h] + bits[h..] && other == other[..h] + other[h..];
  }

  /** The label of a bit group names its own point. */
  lemma OwnLabel(bits: Bits, h: nat, s: real, k: nat)
    requires |bits| == 2 * h && k < 2 * h
    ensures Value(bits) < Pow2(2 * h)
    ensures LabelBit(Value(bits), h, k) == bits[k] && Point(Value(bits), h, s) == Symbol(bits, s)
  {
    hide BitAt, PamAmp, Axis;
    LowOfValue(bits);
    assert Low(Value(bits), 2 * h)[k] == bits[k];
  }

  /** The points whose label differs in bit k from the transmitted one are all strictly further away
      than the transmitted point. */
  lemma OwnIsCloser(z: Complex, bits: Bits, h: nat, s: real, k: nat)
    requires |bits| == 2 * h && s > 0.0 && Close(z, bits, s) && k < 2 * h
    ensures MinOver(z, h, s, k, true, Pow2(2 * h)).Some? && MinOver(z, h, s, k, false, Pow2(2 * h)).Some?
    ensures MinOver(z, h, s, k, bits[k], Pow2(2 * h)).value < MinOver(z, h, s, k, !bits[k], Pow2(2 * h)).value
  {
    hide Distance2, Value, MinOver, Pow2, Close, Symbol, BitAt;
    var n, best := Pow2(2 * h), Value(bits);
    OwnLabel(bits, h, s, k);
    BothBitsOccur(z, h, s, k);
    var other := MinOver(z, h, s, k, !bits[k], n).value;
    var i :| 0 <= i < n && LabelBit(i, h, k) == !bits[k] && other == Distance2(z, Point(i, h, s));
    assert Low(i, 2 * h)[k] == LabelBit(i, h, k);
    PointStrict(z, bits, h, s, Low(i, 2 * h));
    assert MinOver(z, h, s, k, bits[k], n).value <= Distance2(z, Point(best, h, s));
  }

  /** With less than s of noise per axis every LLR is non-zero and has the sign of its bit. */
  lemma SoftBitCorrect(z: Complex, bits: Bits, h: nat, s: real, noiseVar: real, k: nat)
    requires |bits| == 2 * h && s > 0.0 && Close(z, bits, s) && noiseVar > 0.0 && k < 2 * h
    ensures if bits[k] then SoftBit(z, h, s, noiseVar, k) < 0.0 else SoftBit(z, h, s, noiseVar, k) > 0.0
  {
    hide Close, MinOver, Pow2, ScaledGap;
    OwnIsCloser(z, bits, h, s, k);
    GapSign(noiseVar, MinOver(z, h, s, k, true, Pow2(2 * h)).value, MinOver(z, h, s, k, false, Pow2(2 * h)).value);
  }

  /** Whole sequences: the LLRs of symbols received with less than s of noise per axis are non-zero
      and consistent with the bits that were sent. */
  lemma {:induction false} SoftSequenceCorrect(syms: seq<Complex>, bits: Bits, h: nat, s: real, noiseVar: real)
    requires s > 0.0 && noiseVar > 0.0 && AllClose(syms, bits, h, s)
    ensures Consistent(SoftAll(syms, h, s, noiseVar), bits) && 0.0 !in SoftAll(syms, h, s, noiseVar)
  {
    hide Close, SoftBit;
    if syms != [] {
      var n, j := |syms| - 1, |bits| - 2 * h;
      SoftSequenceCorrect(syms[..n], bits[..j], h, s, noiseVar);
      var group := SoftGroup(syms[n], h, s, noiseVar, 2 * h);
      forall k | 0 <= k < 2 * h ensures Leans(group[k], bits[j..][k]) && group[k] != 0.0 {
        SoftBitCorrect(syms[n], bits[j..], h, s, noiseVar, k);
      }
      JoinConsistent(SoftAll(syms[..n], h, s, noiseVar), bits[..j], group, bits[j..]);
      assert bits == bits[..j] + bits[j..];
    }
  }

  lemma JoinConsistent(x: Soft, a: Bits, y: Soft, b: Bits)
    requires Consistent(x, a) && 0.0 !in x && |y| == |b|
    requires forall k | 0 <= k < |b| :: Leans(y[k], b[k]) && y[k] != 0.0
    ensures Consistent(x + y, a + b) && 0.0 !in x + y
  {
    forall v | 0 <= v < |a + b| ensures Leans((x + y)[v], (a + b)[v]) && (x + y)[v] != 0.0 {
      if v < |a| { assert x[v] in x && Leans(x[v], a[v]); }
    }
  }
}
