/** Vocabulary shared by the whole model. */
module Common {

  /** The outcome of an operation that may throw: None stands for the thrown nr_bb::Error. */
  datatype Option<+T> = None | Some(value: T)

  /** A BitVec whose entries have been checked to be 0 or 1. XOR is `!=`. */
  type Bits = seq<bool>

  /** A SoftVec: log-likelihood ratios in exact arithmetic. */
  type Soft = seq<real>

  function Zeros(n: nat): (z: Bits)
    ensures |z| == n && forall i | 0 <= i < n :: !z[i]
  {
    seq(n, _ => false)
  }

  function XorBits(a: Bits, b: Bits): (c: Bits)
    requires |a| == |b|
    ensures |c| == |a| && forall i | 0 <= i < |a| :: c[i] == (a[i] != b[i])
  {
    seq(|a|, i requires 0 <= i < |a| => a[i] != b[i])
  }

  /** The check that byte values are 0 or 1. */
  predicate AreBits(raw: seq<nat>) {
    forall i | 0 <= i < |raw| :: raw[i] == 0 || raw[i] == 1
  }

  function ToBits(raw: seq<nat>): (b: Bits)
    ensures |b| == |raw| && forall i | 0 <= i < |raw| :: b[i] <==> raw[i] == 1
  {
    seq(|raw|, i requires 0 <= i < |raw| => raw[i] == 1)
  }

  function FromBits(b: Bits): (raw: seq<nat>)
    ensures |raw| == |b| && AreBits(raw) && ToBits(raw) == b
  {
    seq(|b|, i requires 0 <= i < |b| => if b[i] then 1 else 0)
  }

  function Abs(x: real): real { if x < 0.0 then -x else x }

  datatype BaseGraph = BG1 | BG2

  // ---------------------------------------------------------------- remainders

  /** The remainder of C++: it has the sign of the dividend. */
  function TruncMod(v: int, m: int): (r: int)
    requires m > 0
    ensures -m < r < m
  {
    if v >= 0 then v % m else -((-v) % m)
  }

  /** Quotient and remainder of naturals, under names that proofs can keep folded. */
  function Quot(x: nat, d: nat): nat
    requires d > 0
  {
    x / d
  }

  function Rem(x: nat, d: nat): (r: nat)
    requires d > 0
    ensures r < d && r <= x
  {
    x % d
  }

  lemma QuotRem(x: nat, d: nat)
    requires d > 0
    ensures x == d * Quot(x, d) + Rem(x, d)
  {
  }

  lemma QuotRemUnique(x: nat, d: nat, q: nat, r: nat)
    requires r < d && x == d * q + r
    ensures Quot(x, d) == q && Rem(x, d) == r
  {
    ModUnique(x, d, q, r);
  }

  lemma ModUnique(x: int, m: nat, q: int, r: nat)
    requires m > 0 && r < m && x == m * q + r
    ensures x % m == r && x / m == q
  {
    var q', r' := x / m, x % m;
    var d := q' - q;
    assert m * d == m * q' - m * q == r - r';
    if d >= 1 { MulAtLeast(m, d); }
    if d <= -1 { MulAtLeast(m, -d); }
  }

  lemma MulAtLeast(m: nat, d: int)
    requires d >= 1
    ensures m * d >= m
  {
    assert m * d == m * (d - 1) + m;
  }

  lemma ModAdd(a: nat, s: nat, m: nat)
    requires m > 0
    ensures (a % m + s) % m == (a + s) % m
  {
    var t := a % m + s;
    var q := a / m;
    assert m * (q + t / m) == m * q + m * (t / m);
    ModUnique(a + s, m, q + t / m, t % m);
  }

  lemma RemAdd(a: nat, s: nat, m: nat)
    requires m > 0
    ensures Rem(Rem(a, m) + s, m) == Rem(a + s, m)
  {
    ModAdd(a, s, m);
  }

  lemma MulCancelLess(x: int, y: int, c: nat)
    requires x * c < y * c
    ensures x < y
  {
    assert (y - x) * c == y * c - x * c;
  }

  /** Position z of block b lies inside the first nb blocks, and identifies b and z. */
  lemma BlockIndex(b: nat, nb: nat, zc: nat, z: nat)
    requires z < zc
    ensures b < nb ==> b * zc + z < nb * zc
    ensures Quot(b * zc + z, zc) == b && Rem(b * zc + z, zc) == z
  {
    hide Quot, Rem;
    assert b * zc == zc * b;
    QuotRemUnique(b * zc + z, zc, b, z);
    if b < nb {
      MulAtLeast(zc, nb - b);
      assert zc * (nb - b) == nb * zc - b * zc;
    }
  }

  /** Every position below nb * zc lies in one of the first nb blocks. */
  lemma BlockOf(i: nat, nb: nat, zc: nat)
    requires zc > 0
    ensures i == Quot(i, zc) * zc + Rem(i, zc)
    ensures i < nb * zc <==> Quot(i, zc) < nb
  {
    hide Quot, Rem;
    var b := Quot(i, zc);
    QuotRem(i, zc);
    assert b * zc == zc * b;
    if b < nb { BlockIndex(b, nb, zc, Rem(i, zc)); }
    if i < nb * zc { MulCancelLess(b, nb, zc); }
  }
}
