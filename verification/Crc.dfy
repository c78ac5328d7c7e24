/** Cyclic redundancy checks (section 5.1 of 3GPP TS 38.212), most significant bit first. */
module Crc {
  import opened Common
  import opened NatBits

  datatype CrcType = CRC24A | CRC24B | CRC16 | CRC11 | CRC6

  function PolyFull(t: CrcType): nat {
    match t
    case CRC24A => 0x1864CFB
    case CRC24B => 0x1800063
    case CRC16 => 0x11021
    case CRC11 => 0xE21
    case CRC6 => 0x61
  }

  function Len(t: CrcType): (n: nat)
    ensures n > 0
  {
    match t
    case CRC24A => 24
    case CRC24B => 24
    case CRC16 => 16
    case CRC11 => 11
    case CRC6 => 6
  }

  // ---------------------------------------------------------------- the register on bits

  /** The generator without its leading 1. */
  function Poly(t: CrcType): (p: Bits)
    ensures |p| == Len(t)
  {
    Low(PolyFull(t), Len(t))
  }

  /** One step of the shift register fed with bit b. */
  function Step(reg: Bits, b: bool, poly: Bits): (reg': Bits)
    requires |reg| == |poly| > 0
    ensures |reg'| == |reg|
  {
    var shifted := reg[1..] + [false];
    if reg[0] != b then XorBits(shifted, poly) else shifted
  }

  function Feed(reg: Bits, bits: Bits, poly: Bits): (reg': Bits)
    requires |reg| == |poly| > 0
    ensures |reg'| == |reg|
  {
    if bits == [] then reg else Step(Feed(reg, bits[..|bits| - 1], poly), bits[|bits| - 1], poly)
  }

  /** The check bits of a message. */
  function CrcOf(bits: Bits, t: CrcType): (r: Bits)
    ensures |r| == Len(t)
  {
    Feed(Zeros(Len(t)), bits, Poly(t))
  }

  function Attached(payload: Bits, t: CrcType): (w: Bits)
    ensures |w| == |payload| + Len(t)
  {
    payload + CrcOf(payload, t)
  }

  // ---------------------------------------------------------------- the bit-serial program

  /** The shift, mask and conditional XOR of the program are one register step. */
  lemma RegisterStep(crc: nat, b: bool, poly: nat, n: nat)
    requires n > 0 && crc < Pow2(n) && poly < Pow2(n)
    ensures var fb := (BitAnd(crc, Pow2(n - 1)) != 0) != b;
      var shifted := BitAnd(2 * crc, Pow2(n) - 1);
      var next := if fb then Xor(shifted, poly) else shifted;
      next < Pow2(n) && Low(next, n) == Step(Low(crc, n), b, Low(poly, n))
  {
    hide BitAnd, Xor, Pow2;
    var shifted := BitAnd(2 * crc, Pow2(n) - 1);
    TestBit(crc, n - 1);
    AndBelow(2 * crc, n);
    XorBelow(shifted, poly, n);
    forall k | 0 <= k < n ensures BitAt(shifted, k) == (k > 0 && BitAt(crc, k - 1)) {
      AndBit(2 * crc, Pow2(n) - 1, k);
      MaskBit(n, k);
      assert 2 * crc / 2 == crc;
    }
    assert Low(shifted, n) == Low(crc, n)[1..] + [false] by { ShiftedLow(shifted, crc, n); }
    forall k | 0 <= k < n { XorBit(shifted, poly, k); }
    assert Low(Xor(shifted, poly), n) == XorBits(Low(shifted, n), Low(poly, n));
  }

  lemma ShiftedLow(x: nat, y: nat, n: nat)
    requires n > 0 && forall k | 0 <= k < n :: BitAt(x, k) == (k > 0 && BitAt(y, k - 1))
    ensures Low(x, n) == Low(y, n)[1..] + [false]
  {
    hide BitAt;
    forall i | 0 <= i < n ensures Low(x, n)[i] == (Low(y, n)[1..] + [false])[i] {
      assert BitAt(x, n - 1 - i) == (n - 1 - i > 0 && BitAt(y, n - 1 - i - 1));
    }
  }

  /** Masking the generator drops its leading 1. */
  lemma MaskedPoly(t: CrcType)
    ensures Low(BitAnd(PolyFull(t), Pow2(Len(t)) - 1), Len(t)) == Poly(t)
    ensures BitAnd(PolyFull(t), Pow2(Len(t)) - 1) < Pow2(Len(t))
  {
    hide BitAnd, BitAt, Pow2;
    var n := Len(t);
    AndBelow(PolyFull(t), n);
    forall k | 0 <= k < n ensures BitAt(BitAnd(PolyFull(t), Pow2(n) - 1), k) == BitAt(PolyFull(t), k) {
      AndBit(PolyFull(t), Pow2(n) - 1, k);
      MaskBit(n, k);
    }
  }

  method ComputeCrc(raw: seq<nat>, t: CrcType) returns (r: Option<nat>)
    ensures r.Some? <==> AreBits(raw)
    ensures r.Some? ==> r.value < Pow2(Len(t)) && Low(r.value, Len(t)) == CrcOf(ToBits(raw), t)
  {
    hide BitAnd, Xor, BitAt, Pow2, Step, PolyFull, Len;
    var n := Len(t);
    var mask, top := Pow2(n) - 1, Pow2(n - 1);
    var poly := BitAnd(PolyFull(t), mask);
    var crc: nat := 0;
    MaskedPoly(t);
    Pow2Positive(n);
    LowZero(0, n);
    ghost var bits := ToBits(raw);
    for i := 0 to |raw|
      invariant forall j | 0 <= j < i :: raw[j] == 0 || raw[j] == 1
      invariant crc < Pow2(n) && Low(crc, n) == CrcOf(bits[..i], t)
    {
      if raw[i] != 0 && raw[i] != 1 { return None; }
      RegisterStep(crc, raw[i] == 1, poly, n);
      assert bits[..i + 1][..i] == bits[..i];
      var fb := (BitAnd(crc, top) != 0) != (raw[i] == 1);
      crc := BitAnd(2 * crc, mask);
      if fb { crc := Xor(crc, poly); }
    }
    assert bits[..|raw|] == bits;
    return Some(crc);
  }

  lemma Pow2Positive(n: nat)
    ensures Pow2(n) > 0
  {
  }

  method CrcAttach(raw: seq<nat>, t: CrcType) returns (r: Option<Bits>)
    ensures r == if AreBits(raw) then Some(Attached(ToBits(raw), t)) else None
  {
    hide Low, CrcOf, Len, BitAt;
    var rem := ComputeCrc(raw, t);
    if rem.None? { return None; }
    var n := Len(t);
    var out := ToBits(raw);
    var i: int := n - 1;
    while i >= 0
      invariant -1 <= i < n
      invariant out == ToBits(raw) + Low(rem.value, n)[..n - 1 - i]
    {
      LowEntry(rem.value, n, n - 1 - i);
      out := out + [BitAt(rem.value, i)];
      i := i - 1;
    }
    assert Low(rem.value, n)[..n] == Low(rem.value, n);
    return Some(out);
  }

  method CrcCheck(raw: seq<nat>, t: CrcType) returns (r: Option<bool>)
    ensures r.Some? <==> AreBits(raw) && |raw| >= Len(t)
    ensures r.Some? ==> r.value == Passes(ToBits(raw), t)
    ensures r.Some? ==> var n := |raw| - Len(t); r.value == (ToBits(raw)[n..] == CrcOf(ToBits(raw)[..n], t))
  {
    if |raw| < Len(t) { return None; }
    var crc := ComputeCrc(raw, t);
    if crc.None? { return None; }
    LowZero(crc.value, Len(t));
    PassesIff(ToBits(raw), t);
    return Some(crc.value == 0);
  }

  predicate Passes(w: Bits, t: CrcType) {
    CrcOf(w, t) == Zeros(Len(t))
  }

  // ---------------------------------------------------------------- linearity and invertibility

  lemma StepXor(a: Bits, x: bool, b: Bits, y: bool, poly: Bits)
    requires |a| == |b| == |poly| > 0
    ensures Step(XorBits(a, b), x != y, poly) == XorBits(Step(a, x, poly), Step(b, y, poly))
  {
  }

  lemma {:induction false} FeedXor(a: Bits, x: Bits, b: Bits, y: Bits, poly: Bits)
    requires |a| == |b| == |poly| > 0 && |x| == |y|
    ensures Feed(XorBits(a, b), XorBits(x, y), poly) == XorBits(Feed(a, x, poly), Feed(b, y, poly))
  {
    hide Step;
    if x != [] {
      var n := |x| - 1;
      FeedXor(a, x[..n], b, y[..n], poly);
      assert XorBits(x, y)[..n] == XorBits(x[..n], y[..n]);
      StepXor(Feed(a, x[..n], poly), x[n], Feed(b, y[..n], poly), y[n], poly);
    }
  }

  lemma {:induction false} FeedAppend(reg: Bits, x: Bits, y: Bits, poly: Bits)
    requires |reg| == |poly| > 0
    ensures Feed(reg, x + y, poly) == Feed(Feed(reg, x, poly), y, poly)
  {
    if y == [] {
      assert x + y == x;
    } else {
      var n := |y| - 1;
      assert (x + y)[..|x + y| - 1] == x + y[..n];
      FeedAppend(reg, x, y[..n], poly);
    }
  }

  /** Every generator has constant term 1, so a step on a zero bit loses nothing. */
  lemma StepInvertible(reg: Bits, poly: Bits)
    requires |reg| == |poly| > 0 && poly[|poly| - 1] && Step(reg, false, poly) == Zeros(|reg|)
    ensures reg == Zeros(|reg|)
  {
    var n := |reg|;
    var shifted := reg[1..] + [false];
    assert !Step(reg, false, poly)[n - 1];
    assert !reg[0];
    forall i | 1 <= i < n ensures !reg[i] { assert !Step(reg, false, poly)[i - 1] && shifted[i - 1] == reg[i]; }
  }

  lemma {:induction false} ZerosInvertible(reg: Bits, k: nat, poly: Bits)
    requires |reg| == |poly| > 0 && poly[|poly| - 1]
    ensures Feed(reg, Zeros(k), poly) == Zeros(|reg|) <==> reg == Zeros(|reg|)
  {
    if k > 0 {
      assert Zeros(k)[..k - 1] == Zeros(k - 1);
      ZerosInvertible(reg, k - 1, poly);
      var before := Feed(reg, Zeros(k - 1), poly);
      if before == Zeros(|reg|) {
        assert Step(before, false, poly) == Zeros(|reg|);
      } else if Step(before, false, poly) == Zeros(|reg|) {
        StepInvertible(before, poly);
      }
    }
  }

  /** One zero step of the register with the bits added shifts them by one. */
  lemma ShiftPadding(reg: Bits, b: bool, rest: Bits, poly: Bits)
    requires |rest| < |reg| == |poly|
    ensures Step(XorBits(reg, [b] + rest + Zeros(|reg| - 1 - |rest|)), false, poly)
         == XorBits(Step(reg, b, poly), rest + Zeros(|reg| - |rest|))
  {
    var padded := [b] + rest + Zeros(|reg| - 1 - |rest|);
    assert padded[0] == b && padded[1..] + [false] == rest + Zeros(|reg| - |rest|);
  }

  /** Up to L bits fed in act like bits added to the top of the register. */
  lemma {:induction false} FeedShort(reg: Bits, bits: Bits, poly: Bits)
    requires |bits| <= |reg| == |poly| && |poly| > 0
    ensures Feed(reg, bits, poly) == Feed(XorBits(reg, bits + Zeros(|reg| - |bits|)), Zeros(|bits|), poly)
    decreases |bits|
  {
    var n, k := |reg|, |bits|;
    hide Feed, Step;
    if k == 0 {
      assert XorBits(reg, bits + Zeros(n)) == reg;
      assert bits == Zeros(0);
    } else {
      var b, rest := bits[0], bits[1..];
      var padded := bits + Zeros(n - k);
      assert bits == [b] + rest && Zeros(k) == [false] + Zeros(k - 1);
      FeedAppend(reg, [b], rest, poly);
      FeedAppend(XorBits(reg, padded), [false], Zeros(k - 1), poly);
      FeedOne(reg, b, poly);
      FeedOne(XorBits(reg, padded), false, poly);
      FeedShort(Step(reg, b, poly), rest, poly);
      ShiftPadding(reg, b, rest, poly);
    }
  }

  lemma FeedOne(reg: Bits, b: bool, poly: Bits)
    requires |reg| == |poly| > 0
    ensures Feed(reg, [b], poly) == Step(reg, b, poly)
  {
    assert [b][..0] == [];
  }

  lemma ConstantTerm(t: CrcType)
    ensures Poly(t)[Len(t) - 1]
  {
    assert BitAt(PolyFull(t), 0);
  }

  /** A block passes the check exactly when its last L bits are the CRC of what precedes them. */
  lemma PassesIff(w: Bits, t: CrcType)
    requires |w| >= Len(t)
    ensures Passes(w, t) <==> w[|w| - Len(t)..] == CrcOf(w[..|w| - Len(t)], t)
  {
    hide Feed, Step, Poly, PolyFull, Len;
    var n, k := Len(t), |w| - Len(t);
    var p, r := w[k..], CrcOf(w[..k], t);
    assert w == w[..k] + p;
    FeedAppend(Zeros(n), w[..k], p, Poly(t));
    FeedShort(r, p, Poly(t));
    assert p + Zeros(0) == p;
    ConstantTerm(t);
    ZerosInvertible(XorBits(r, p), n, Poly(t));
    assert XorBits(r, p) == Zeros(n) <==> p == r by {
      if XorBits(r, p) == Zeros(n) { forall i | 0 <= i < n ensures p[i] == r[i] { assert !XorBits(r, p)[i]; } }
    }
  }

  lemma AttachedPasses(payload: Bits, t: CrcType)
    ensures Passes(Attached(payload, t), t)
  {
    var w := Attached(payload, t);
    PassesIff(w, t);
    assert w[..|payload|] == payload && w[|payload|..] == CrcOf(payload, t);
  }

  /** An error pattern is missed exactly when it is itself a valid block. */
  lemma ErrorSeen(w: Bits, e: Bits, t: CrcType)
    requires Passes(w, t) && |e| == |w|
    ensures Passes(XorBits(w, e), t) <==> Passes(e, t)
  {
    hide Feed, Poly;
    var n := Len(t);
    FeedXor(Zeros(n), w, Zeros(n), e, Poly(t));
    assert XorBits(Zeros(n), Zeros(n)) == Zeros(n);
    assert XorBits(Zeros(n), CrcOf(e, t)) == CrcOf(e, t);
  }

  /** Every non-zero error burst no longer than the CRC is detected, wherever it falls. */
  lemma BurstDetected(w: Bits, before: nat, burst: Bits, after: nat, t: CrcType)
    requires Passes(w, t) && |w| == before + |burst| + after
    requires |burst| <= Len(t) && true in burst
    ensures !Passes(XorBits(w, Zeros(before) + burst + Zeros(after)), t)
  {
    hide Feed, Poly, PolyFull, Len;
    var n, p := Len(t), Poly(t);
    var zero := Zeros(n);
    var e := Zeros(before) + burst + Zeros(after);
    ErrorSeen(w, e, t);
    ConstantTerm(t);
    ZerosInvertible(zero, before, p);
    FeedAppend(zero, Zeros(before), burst, p);
    FeedAppend(zero, Zeros(before) + burst, Zeros(after), p);
    FeedShort(zero, burst, p);
    var padded := burst + Zeros(n - |burst|);
    assert XorBits(zero, padded) == padded;
    assert padded != zero by {
      var i :| 0 <= i < |burst| && burst[i];
      assert padded[i] && !zero[i];
    }
    ZerosInvertible(padded, |burst|, p);
    ZerosInvertible(Feed(zero, burst, p), after, p);
  }

  // ---------------------------------------------------------------- polynomial remainder

  /** Schoolbook product over GF(2) of polynomials written with the highest power first. */
  function PolyMul(q: Bits, g: Bits): (p: Bits)
    requires |g| > 0
    ensures |p| == |q| + |g| - 1
  {
    if q == [] then Zeros(|g| - 1)
    else
      var n := |q| - 1;
      var shifted := PolyMul(q[..n], g) + [false];
      if q[n] then XorBits(shifted, Zeros(n) + g) else shifted
  }

  /** The generator polynomial, leading 1 included. */
  function Generator(t: CrcType): (g: Bits)
    ensures |g| == Len(t) + 1
  {
    [true] + Poly(t)
  }

  /** The powers of x in the generator polynomials of section 5.1 of TS 38.212. */
  function Powers(t: CrcType): set<nat> {
    match t
    case CRC24A => {24, 23, 18, 17, 14, 11, 10, 7, 6, 5, 4, 3, 1, 0}
    case CRC24B => {24, 23, 6, 5, 1, 0}
    case CRC16 => {16, 12, 5, 0}
    case CRC11 => {11, 10, 9, 5, 0}
    case CRC6 => {6, 5, 0}
  }

  /** The constants of the program are those polynomials, and L is their degree. */
  lemma GeneratorPowers(t: CrcType)
    ensures Len(t) in Powers(t) && forall e | e in Powers(t) :: e <= Len(t)
    ensures forall e | 0 <= e <= Len(t) :: Generator(t)[Len(t) - e] <==> e in Powers(t)
    ensures forall e: nat :: BitAt(PolyFull(t), e) <==> e in Powers(t)
  {
    PolyBits(t);
    forall e | 0 <= e <= Len(t) ensures Generator(t)[Len(t) - e] <==> e in Powers(t) {
      if e < Len(t) { LowEntry(PolyFull(t), Len(t), Len(t) - 1 - e); }
    }
  }

  lemma PolyBits(t: CrcType)
    ensures forall e: nat :: BitAt(PolyFull(t), e) <==> e in Powers(t)
  {
    PowerAt(25);
    assert PolyFull(t) < PowerTable()[25];
    hide BitAt, Pow2, PowerTable, PolyFull, Powers;
    forall e: nat ensures BitAt(PolyFull(t), e) <==> e in Powers(t) {
      if e > 24 {
        BitBeyond(PolyFull(t), 25, e);
        PowersBounded(t);
      } else {
        BitByDivision(PolyFull(t), e);
        PowerAt(e);
        QuotientBits(t, e);
      }
    }
  }

  lemma PowersBounded(t: CrcType)
    ensures forall e | e in Powers(t) :: e <= 24
  {
  }

  function PowerTable(): (p: seq<nat>) {
    [0x1, 0x2, 0x4, 0x8, 0x10, 0x20, 0x40, 0x80, 0x100, 0x200, 0x400, 0x800, 0x1000, 0x2000, 0x4000, 0x8000,
     0x10000, 0x20000, 0x40000, 0x80000, 0x100000, 0x200000, 0x400000, 0x800000, 0x1000000, 0x2000000]
  }

  lemma {:induction false} PowerAt(e: nat)
    requires e <= 25
    ensures Pow2(e) == PowerTable()[e]
  {
    if e > 0 { PowerAt(e - 1); }
  }

  lemma QuotientBits(t: CrcType, e: nat)
    requires e <= 24
    ensures PolyFull(t) / PowerTable()[e] % 2 == 1 <==> e in Powers(t)
  {
    hide PolyFull, Powers, PowerTable;
    match t
    case CRC24A => Bits24A(e);
    case CRC24B => Bits24B(e);
    case CRC16 => Bits16(e);
    case CRC11 => Bits11(e);
    case CRC6 => Bits6(e);
  }

  lemma Bits24A(e: nat)
    requires e <= 24
    ensures PolyFull(CRC24A) / PowerTable()[e] % 2 == 1 <==> e in Powers(CRC24A)
  {
  }

  lemma Bits24B(e: nat)
    requires e <= 24
    ensures PolyFull(CRC24B) / PowerTable()[e] % 2 == 1 <==> e in Powers(CRC24B)
  {
  }

  lemma Bits16(e: nat)
    requires e <= 24
    ensures PolyFull(CRC16) / PowerTable()[e] % 2 == 1 <==> e in Powers(CRC16)
  {
  }

  lemma Bits11(e: nat)
    requires e <= 24
    ensures PolyFull(CRC11) / PowerTable()[e] % 2 == 1 <==> e in Powers(CRC11)
  {
  }

  lemma Bits6(e: nat)
    requires e <= 24
    ensures PolyFull(CRC6) / PowerTable()[e] % 2 == 1 <==> e in Powers(CRC6)
  {
  }

  /** Reading bit e as the parity of the quotient by 2^e. */
  lemma {:induction false} BitByDivision(x: nat, e: nat)
    ensures BitAt(x, e) <==> x / Pow2(e) % 2 == 1
  {
    if e > 0 {
      BitByDivision(x / 2, e - 1);
      HalfQuotient(x, Pow2(e - 1));
    }
  }

  lemma HalfQuotient(x: nat, p: nat)
    requires p > 0
    ensures x / (2 * p) == x / 2 / p
  {
    var y := x / 2;
    assert y == p * (y / p) + y % p;
    assert 2 * (p * (y / p)) == 2 * p * (y / p);
    ModUnique(x, 2 * p, y / p, 2 * (y % p) + x % 2);
  }

  lemma {:induction false} BitBeyond(x: nat, n: nat, e: nat)
    requires x < Pow2(n) && n <= e
    ensures !BitAt(x, e)
  {
    if n == 0 { ZeroBits(e); } else { BitBeyond(x / 2, n - 1, e - 1); }
  }

  /** r is the remainder of message * x^L on division by the generator: some multiple of the
      generator differs from the shifted message by exactly r. */
  ghost predicate IsRemainder(message: Bits, r: Bits, t: CrcType) {
    |r| == Len(t) && exists q: Bits :: Divides(q, message, r, t)
  }

  predicate Divides(q: Bits, message: Bits, r: Bits, t: CrcType) {
    && |q| == |message| && |r| == Len(t)
    && message + Zeros(Len(t)) == XorBits(PolyMul(q, Generator(t)), Zeros(|message|) + r)
  }

  /** The feedback bits of the register. */
  function Feedback(bits: Bits, t: CrcType): (q: Bits)
    ensures |q| == |bits|
  {
    if bits == [] then []
    else
      var n := |bits| - 1;
      Feedback(bits[..n], t) + [CrcOf(bits[..n], t)[0] != bits[n]]
  }

  /** The feedback bits are the quotient and the register is the remainder. */
  lemma {:induction false} RegisterDivides(message: Bits, t: CrcType)
    ensures Divides(Feedback(message, t), message, CrcOf(message, t), t)
  {
    hide Poly;
    var n, g := Len(t), Generator(t);
    if message == [] {
      assert message + Zeros(n) == XorBits(PolyMul([], g), Zeros(0) + CrcOf([], t));
    } else {
      var k := |message| - 1;
      var init, b := message[..k], message[k];
      RegisterDivides(init, t);
      var q, r := Feedback(init, t), CrcOf(init, t);
      DivideStep(q, init, r, b, t);
      assert message == init + [b];
    }
  }

  /** One step of long division. */
  lemma DivideStep(q: Bits, init: Bits, r: Bits, b: bool, t: CrcType)
    requires Divides(q, init, r, t)
    ensures Divides(q + [r[0] != b], init + [b], Step(r, b, Poly(t)), t)
  {
    hide Poly, PolyMul, Len;
    var n, k, g, p := Len(t), |init|, Generator(t), Poly(t);
    var fb := r[0] != b;
    var q', r' := q + [fb], Step(r, b, p);
    var was := PolyMul(q, g);
    PolyMulSnoc(q, fb, g);
    var now := PolyMul(q', g);
    var lhs := init + [b] + Zeros(n);
    var rhs := XorBits(now, Zeros(k + 1) + r');
    forall i | 0 <= i < k + 1 + n ensures lhs[i] == rhs[i] {
      var old0 := init + Zeros(n);
      if i < k + n {
        assert old0[i] == XorBits(was, Zeros(k) + r)[i];
      }
      if i > k { assert (Zeros(k) + g)[i] == p[i - k - 1]; }
    }
    assert lhs == rhs;
  }

  lemma PolyMulSnoc(q: Bits, b: bool, g: Bits)
    requires |g| > 0
    ensures PolyMul(q + [b], g)
      == if b then XorBits(PolyMul(q, g) + [false], Zeros(|q|) + g) else PolyMul(q, g) + [false]
  {
    assert (q + [b])[..|q|] == q;
  }

  /** The register is the remainder, and the only one. */
  lemma CrcIsRemainder(message: Bits, t: CrcType)
    ensures forall r: Bits :: IsRemainder(message, r, t) <==> r == CrcOf(message, t)
  {
    RegisterDivides(message, t);
    forall r: Bits | IsRemainder(message, r, t) ensures r == CrcOf(message, t) {
      var q :| Divides(q, message, r, t);
      QuotientUnique(q, Feedback(message, t), r, CrcOf(message, t), message, t);
    }
  }

  lemma QuotientUnique(q: Bits, q': Bits, r: Bits, r': Bits, message: Bits, t: CrcType)
    requires Divides(q, message, r, t) && Divides(q', message, r', t)
    ensures r == r'
  {
    hide Poly, PolyMul, Len;
    var n, k, g := Len(t), |message|, Generator(t);
    var a, b := PolyMul(q, g), PolyMul(q', g);
    var x, y := XorBits(a, Zeros(k) + r), XorBits(b, Zeros(k) + r');
    assert x == y;
    forall i | 0 <= i < k ensures a[i] == b[i] { assert x[i] == y[i]; }
    ProductTop(q, q', g);
    forall i | 0 <= i < n ensures r[i] == r'[i] { assert x[k + i] == y[k + i]; }
  }

  /** The leading |q| coefficients of q * g determine q when g has leading coefficient 1. */
  lemma {:induction false} ProductTop(q: Bits, q': Bits, g: Bits)
    requires |q| == |q'| && |g| > 0 && g[0]
    requires forall i | 0 <= i < |q| :: PolyMul(q, g)[i] == PolyMul(q', g)[i]
    ensures q == q'
  {
    if q != [] {
      var n := |q| - 1;
      var a, a' := PolyMul(q[..n], g), PolyMul(q'[..n], g);
      forall i | 0 <= i < n ensures a[i] == a'[i] {
        assert PolyMul(q, g)[i] == PolyMul(q', g)[i];
      }
      ProductTop(q[..n], q'[..n], g);
      assert PolyMul(q, g)[n] == PolyMul(q', g)[n];
      assert q == q[..n] + [q[n]] && q' == q'[..n] + [q'[n]];
    }
  }
}
