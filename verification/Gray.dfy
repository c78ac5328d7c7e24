/** Gray coding for any number of bits. */
module Gray {
  import opened NatBits

  function BinToGray(v: nat): nat { Xor(v, v / 2) }

  function GrayToBin(g: nat): nat {
    if g == 0 then 0 else Xor(g, GrayToBin(g / 2))
  }

  /** The prefix-XOR loop of the program. */
  method GrayToBinLoop(g0: nat) returns (b: nat)
    ensures b == GrayToBin(g0)
  {
    hide Xor;
    b := g0;
    var g: nat := g0 / 2;
    XorZero(b);
    while g != 0
      invariant Xor(b, GrayToBin(g)) == GrayToBin(g0)
      decreases g
    {
      XorAssociative(b, g, GrayToBin(g / 2));
      b := Xor(b, g);
      g := g / 2;
    }
    XorZero(b);
  }

  // ---------------------------------------------------------------- exclusive or

  lemma {:induction false} XorZero(a: nat)
    ensures Xor(a, 0) == a && Xor(0, a) == a
  {
    if a > 0 { XorZero(a / 2); }
  }

  lemma {:induction false} XorSelf(a: nat)
    ensures Xor(a, a) == 0
  {
    if a > 0 { XorSelf(a / 2); }
  }

  lemma {:induction false} XorAssociative(a: nat, b: nat, c: nat)
    ensures Xor(Xor(a, b), c) == Xor(a, Xor(b, c))
    decreases a + b + c
  {
    if a + b + c > 0 {
      XorHalves(a, b);
      XorHalves(b, c);
      XorHalves(Xor(a, b), c);
      XorHalves(a, Xor(b, c));
      hide Xor;
      XorAssociative(a / 2, b / 2, c / 2);
      var x, y := Xor(Xor(a, b), c), Xor(a, Xor(b, c));
      assert x / 2 == y / 2 && x % 2 == y % 2;
    }
  }

  lemma XorHalves(a: nat, b: nat)
    ensures Xor(a, b) / 2 == Xor(a / 2, b / 2) && Xor(a, b) % 2 == (if a % 2 != b % 2 then 1 else 0)
  {
  }

  lemma XorCancel(a: nat, b: nat)
    ensures Xor(Xor(a, b), b) == a
  {
    hide Xor;
    XorAssociative(a, b, b);
    XorSelf(b);
    XorZero(a);
  }

  // ---------------------------------------------------------------- inverses

  lemma {:induction false} DecodeHalf(g: nat)
    ensures GrayToBin(g) / 2 == GrayToBin(g / 2)
  {
    hide Xor;
    if g > 0 {
      DecodeHalf(g / 2);
      XorHalves(g, GrayToBin(g / 2));
      if g / 2 == 0 { XorZero(0); }
    }
  }

  /** Coding undoes decoding. */
  lemma GrayRoundTrip(g: nat)
    ensures BinToGray(GrayToBin(g)) == g
  {
    hide Xor;
    DecodeHalf(g);
    if g > 0 { XorCancel(g, GrayToBin(g / 2)); } else { XorZero(0); }
  }

  /** Decoding undoes coding. */
  lemma {:induction false} BinRoundTrip(v: nat)
    ensures GrayToBin(BinToGray(v)) == v
  {
    hide Xor;
    if v == 0 {
      XorZero(0);
    } else {
      BinRoundTrip(v / 2);
      XorHalves(v, v / 2);
      XorCancel(v, v / 2);
      if BinToGray(v) == 0 { XorZero(v / 2); }
    }
  }

  lemma {:induction false} DecodeBelow(g: nat, n: nat)
    requires g < Pow2(n)
    ensures GrayToBin(g) < Pow2(n)
  {
    hide Xor;
    if g > 0 {
      DecodeBelow(g / 2, n - 1);
      XorBelow(g, GrayToBin(g / 2), n);
    }
  }

  lemma CodeBelow(v: nat, n: nat)
    requires v < Pow2(n)
    ensures BinToGray(v) < Pow2(n)
  {
    XorBelow(v, v / 2, n);
  }

  // ---------------------------------------------------------------- neighbours

  /** Gray codes are reflected: setting the next higher bit counts down instead of up. */
  lemma {:induction false} DecodeReflects(x: nat, n: nat)
    requires x < Pow2(n)
    ensures GrayToBin(Pow2(n) + x) == 2 * Pow2(n) - 1 - GrayToBin(x)
  {
    hide GrayToBin;
    if n == 0 {
      assert Pow2(0) + x == 1;
      DecodeOne();
    } else {
      assert Pow2(n) == 2 * Pow2(n - 1);
      hide Pow2;
      DecodeReflects(x / 2, n - 1);
      ReflectStep(x, Pow2(n - 1));
    }
  }

  lemma DecodeOne()
    ensures GrayToBin(0) == 0 && GrayToBin(1) == 1
  {
    assert GrayToBin(1) == Xor(1, GrayToBin(0));
    XorZero(1);
  }

  lemma ReflectStep(x: nat, p: nat)
    requires p > 0 && GrayToBin(p + x / 2) == 2 * p - 1 - GrayToBin(x / 2)
    ensures GrayToBin(2 * p + x) == 4 * p - 1 - GrayToBin(x)
  {
    hide GrayToBin;
    DecodeHalf(2 * p + x);
    DecodeHalf(x);
    DecodeParity(2 * p + x);
    DecodeParity(x);
    assert (2 * p + x) / 2 == p + x / 2 && (2 * p + x) % 2 == x % 2;
    var g, h := GrayToBin(2 * p + x), GrayToBin(x);
    assert g == 2 * (g / 2) + g % 2 && h == 2 * (h / 2) + h % 2;
  }

  lemma DecodeParity(g: nat)
    ensures GrayToBin(g) % 2 == if g % 2 != GrayToBin(g / 2) % 2 then 1 else 0
  {
    hide Xor;
    if g > 0 { XorHalves(g, GrayToBin(g / 2)); }
  }

  /** The number of one bits. */
  function Weight(x: nat): nat {
    if x == 0 then 0 else x % 2 + Weight(x / 2)
  }

  /** Neighbouring values have codes that differ in exactly one bit. */
  lemma {:induction false} NeighboursDifferOnce(v: nat)
    ensures Weight(Xor(BinToGray(v), BinToGray(v + 1))) == 1
  {
    hide Xor;
    var a, b := BinToGray(v), BinToGray(v + 1);
    XorHalves(v, v / 2);
    XorHalves(v + 1, (v + 1) / 2);
    XorHalves(a, b);
    if v % 2 == 0 {
      assert (v + 1) / 2 == v / 2;
      XorSelf(a / 2);
    } else {
      assert (v + 1) / 2 == v / 2 + 1;
      NeighboursDifferOnce(v / 2);
    }
  }
}
