/** Gold-sequence scrambling (section 5.2.1 of 3GPP TS 38.211). */
module Scrambling {
  import opened Common
  import opened NatBits

  const NC: nat := 1600

  /** The first recurrence, from its fixed seed. */
  function X1(n: nat): bool {
    if n < 31 then n == 0 else X1(n - 28) != X1(n - 31)
  }

  /** The second recurrence, from any 31 seed bits. */
  function X2(seed: Bits, n: nat): bool
    requires |seed| == 31
  {
    if n < 31 then seed[n] else ((X2(seed, n - 28) != X2(seed, n - 29)) != X2(seed, n - 30)) != X2(seed, n - 31)
  }

  /** The 31 low bits of c_init, least significant first. */
  function Seed(cInit: nat): (s: Bits)
    ensures |s| == 31
  {
    seq(31, i requires 0 <= i < 31 => BitAt(cInit, i))
  }

  function GoldBit(cInit: nat, n: nat): bool { X1(n + NC) != X2(Seed(cInit), n + NC) }

  function Gold(length: nat, cInit: nat): (c: Bits)
    ensures |c| == length
  {
    seq(length, n requires 0 <= n < length => GoldBit(cInit, n))
  }

  lemma Recurrences(seed: Bits, n: nat)
    requires |seed| == 31
    ensures X1(n + 31) == (X1(n + 3) != X1(n))
    ensures X2(seed, n + 31) == (((X2(seed, n + 3) != X2(seed, n + 2)) != X2(seed, n + 1)) != X2(seed, n))
    ensures n < 31 ==> X1(n) == (n == 0) && X2(seed, n) == seed[n]
  {
  }

  /** The recurrences of section 5.2.1 of TS 38.211 at step k. */
  predicate First(a: nat -> bool, k: nat) { a(k + 31) == (a(k + 3) != a(k)) }

  predicate Second(b: nat -> bool, k: nat) { b(k + 31) == (((b(k + 3) != b(k + 2)) != b(k + 1)) != b(k)) }

  /** That section in full: for any two sequences that start from the fixed seed and from the 31 low bits
      of c_init, and follow the two recurrences, output n is the exclusive or of their entries n + 1600. */
  lemma GoldMeans(cInit: nat, a: nat -> bool, b: nat -> bool, n: nat)
    requires forall k: nat | k < 31 :: a(k) == (k == 0)
    requires forall k: nat | k < 31 :: b(k) == BitAt(cInit, k)
    requires forall k: nat :: First(a, k)
    requires forall k: nat :: Second(b, k)
    ensures GoldBit(cInit, n) == (a(n + 1600) != b(n + 1600))
  {
    hide First, Second, X1, X2;
    FollowsX1(a, n + 1600);
    FollowsX2(Seed(cInit), b, n + 1600);
  }

  lemma {:induction false} FollowsX1(a: nat -> bool, n: nat)
    requires forall k: nat | k < 31 :: a(k) == (k == 0)
    requires forall k: nat :: First(a, k)
    ensures a(n) == X1(n)
  {
    if n >= 31 {
      FollowsX1(a, n - 28);
      FollowsX1(a, n - 31);
      assert First(a, n - 31);
    }
  }

  lemma {:induction false} FollowsX2(seed: Bits, b: nat -> bool, n: nat)
    requires |seed| == 31 && forall k: nat | k < 31 :: b(k) == seed[k]
    requires forall k: nat :: Second(b, k)
    ensures b(n) == X2(seed, n)
  {
    hide X2;
    if n < 31 {
      Recurrences(seed, n);
    } else {
      var k: nat := n - 31;
      FollowsX2(seed, b, k + 3);
      FollowsX2(seed, b, k + 2);
      FollowsX2(seed, b, k + 1);
      FollowsX2(seed, b, k);
      Recurrences(seed, k);
      assert Second(b, k);
    }
  }

  /** Runs both recurrences for total steps after the 31 seed positions. */
  method RunRecurrences(total: nat, cInit: nat) returns (x1: array<bool>, x2: array<bool>)
    ensures fresh(x1) && fresh(x2) && x1.Length == x2.Length == total + 31
    ensures forall k | 0 <= k < total + 31 :: x1[k] == X1(k) && x2[k] == X2(Seed(cInit), k)
  {
    hide X1, X2;
    x1 := new bool[total + 31](_ => false);
    x2 := new bool[total + 31](_ => false);
    x1[0] := true;
    for i := 0 to 31
      invariant forall n | 0 <= n < total + 31 :: x1[n] == (n == 0)
      invariant forall n | 0 <= n < i :: x2[n] == Seed(cInit)[n]
    {
      x2[i] := BitAt(cInit, i);
    }
    forall n | 0 <= n < 31 ensures x1[n] == X1(n) && x2[n] == X2(Seed(cInit), n) { Recurrences(Seed(cInit), n); }
    for n := 0 to total
      invariant forall k | 0 <= k < n + 31 :: x1[k] == X1(k) && x2[k] == X2(Seed(cInit), k)
    {
      Recurrences(Seed(cInit), n);
      x1[n + 31] := x1[n + 3] != x1[n];
      x2[n + 31] := ((x2[n + 3] != x2[n + 2]) != x2[n + 1]) != x2[n];
    }
  }

  method GoldSequence(length: nat, cInit: nat) returns (c: Bits)
    ensures c == Gold(length, cInit)
  {
    hide X1, X2;
    var total := NC + length;
    var x1, x2 := RunRecurrences(total, cInit);
    var out := new bool[length];
    for n := 0 to length
      invariant forall k | 0 <= k < n :: out[k] == GoldBit(cInit, k)
      invariant forall k | 0 <= k < total + 31 :: x1[k] == X1(k) && x2[k] == X2(Seed(cInit), k)
    {
      out[n] := x1[n + NC] != x2[n + NC];
    }
    c := out[..];
  }

  method Scramble(raw: seq<nat>, cInit: nat) returns (r: Option<Bits>)
    ensures r == if AreBits(raw) then Some(XorBits(ToBits(raw), Gold(|raw|, cInit))) else None
  {
    var c := GoldSequence(|raw|, cInit);
    var out: Bits := [];
    for i := 0 to |raw|
      invariant forall j | 0 <= j < i :: raw[j] == 0 || raw[j] == 1
      invariant |out| == i && forall j | 0 <= j < i :: out[j] == (ToBits(raw)[j] != c[j])
    {
      if raw[i] != 0 && raw[i] != 1 { return None; }
      out := out + [(raw[i] == 1) != c[i]];
    }
    assert out == XorBits(ToBits(raw), Gold(|raw|, cInit));
    return Some(out);
  }

  /** Descrambling is scrambling again, and restores every bit string. */
  method Descramble(raw: seq<nat>, cInit: nat) returns (r: Option<Bits>)
    ensures r.Some? <==> AreBits(raw)
    ensures forall b: Bits | raw == FromBits(XorBits(b, Gold(|b|, cInit))) :: r == Some(b)
  {
    r := Scramble(raw, cInit);
    forall b: Bits | raw == FromBits(XorBits(b, Gold(|b|, cInit))) ensures r == Some(b) {
      assert XorBits(XorBits(b, Gold(|b|, cInit)), Gold(|b|, cInit)) == b;
    }
  }

  // ---------------------------------------------------------------- the sequences

  /** A shorter sequence is a prefix of a longer one. */
  lemma GoldPrefix(short: nat, long: nat, cInit: nat)
    requires short <= long
    ensures Gold(long, cInit)[..short] == Gold(short, cInit)
  {
  }

  lemma {:induction false} X2Linear(a: Bits, b: Bits, n: nat)
    requires |a| == |b| == 31
    ensures X2(XorBits(a, b), n) == (X2(a, n) != X2(b, n))
  {
    if n >= 31 {
      X2Linear(a, b, n - 28);
      X2Linear(a, b, n - 29);
      X2Linear(a, b, n - 30);
      X2Linear(a, b, n - 31);
    }
  }

  /** The seed enters linearly: XOR-ing two initial values XORs the seed part of every output bit. */
  lemma GoldLinear(c: nat, d: nat, n: nat)
    ensures (GoldBit(Xor(c, d), n) != GoldBit(c, n)) == (GoldBit(d, n) != GoldBit(0, n))
  {
    forall i | 0 <= i < 31 ensures Seed(Xor(c, d))[i] == XorBits(Seed(c), Seed(d))[i] && !Seed(0)[i] {
      XorBit(c, d, i);
      ZeroBits(i);
    }
    assert Seed(Xor(c, d)) == XorBits(Seed(c), Seed(d));
    X2Linear(Seed(c), Seed(d), n + NC);
    ZeroSeed(n + NC);
    assert Seed(0) == Zeros(31);
  }

  lemma {:induction false} ZeroSeed(n: nat)
    ensures !X2(Zeros(31), n)
  {
    X2Linear(Zeros(31), Zeros(31), n);
    assert XorBits(Zeros(31), Zeros(31)) == Zeros(31);
  }

  /** Two runs of the second recurrence agree on a window of 31. */
  ghost predicate SameWindow(a: Bits, b: Bits, n: nat)
    requires |a| == |b| == 31
  {
    forall k | n <= k < n + 31 :: X2(a, k) == X2(b, k)
  }

  /** The recurrence can be run backwards. */
  lemma {:induction false} WindowBack(a: Bits, b: Bits, n: nat)
    requires |a| == |b| == 31 && SameWindow(a, b, n)
    ensures a == b
  {
    if n == 0 {
      forall i | 0 <= i < 31 ensures a[i] == b[i] { assert X2(a, i) == X2(b, i); }
    } else {
      assert X2(a, n + 30) == X2(b, n + 30) && X2(a, n + 2) == X2(b, n + 2);
      assert X2(a, n + 1) == X2(b, n + 1) && X2(a, n) == X2(b, n);
      assert X2(a, n - 1) == X2(b, n - 1);
      WindowBack(a, b, n - 1);
    }
  }

  /** Two initial values give the same sequence when their 31 low bits agree, and otherwise differ
      inside every window of 31 consecutive outputs. */
  lemma GoldDistinguishes(c: nat, d: nat, start: nat)
    ensures Seed(c) == Seed(d) ==> GoldBit(c, start) == GoldBit(d, start)
    ensures Seed(c) != Seed(d) ==> exists n | start <= n < start + 31 :: GoldBit(c, n) != GoldBit(d, n)
  {
    if forall n | start <= n < start + 31 :: GoldBit(c, n) == GoldBit(d, n) {
      forall k | start + NC <= k < start + NC + 31 ensures X2(Seed(c), k) == X2(Seed(d), k) {
        assert GoldBit(c, k - NC) == GoldBit(d, k - NC);
      }
      WindowBack(Seed(c), Seed(d), start + NC);
    }
  }
}
