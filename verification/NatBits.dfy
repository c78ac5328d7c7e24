/** Naturals as bit strings: the unsigned-integer operations of the program. */
module NatBits {
  import opened Common

  // ---------------------------------------------------------------- powers of two

  function Pow2(m: nat): (p: nat)
    ensures p >= 1 && (m >= 1 ==> p % 2 == 0)
  {
    if m == 0 then 1 else 2 * Pow2(m - 1)
  }

  /** Bitwise AND of naturals. */
  function BitAnd(a: nat, b: nat): nat
    decreases a
  {
    if a == 0 then 0 else 2 * BitAnd(a / 2, b / 2) + (if a % 2 == 1 && b % 2 == 1 then 1 else 0)
  }

  predicate IsPowerOfTwo(n: nat) {
    n != 0 && BitAnd(n, n - 1) == 0
  }

  lemma {:induction false} BitAndSelf(n: nat)
    ensures BitAnd(n, n) == n
  {
    if n > 0 { BitAndSelf(n / 2); }
  }

  /** The bit trick recognises exactly the powers of two. */
  lemma {:induction false} PowerOfTwoLog(n: nat) returns (m: nat)
    requires IsPowerOfTwo(n)
    ensures n == Pow2(m)
    decreases n
  {
    if n % 2 == 1 {
      assert (n - 1) / 2 == n / 2;
      BitAndSelf(n / 2);
      m := 0;
    } else {
      assert (n - 1) / 2 == n / 2 - 1;
      m := PowerOfTwoLog(n / 2);
      m := m + 1;
    }
  }

  lemma {:induction false} Pow2IsPowerOfTwo(m: nat)
    ensures IsPowerOfTwo(Pow2(m))
  {
    var n := Pow2(m);
    if m > 0 {
      Pow2IsPowerOfTwo(m - 1);
      assert n / 2 == Pow2(m - 1) && (n - 1) / 2 == Pow2(m - 1) - 1;
    } else {
      assert BitAnd(1, 0) == 2 * BitAnd(0, 0);
    }
  }

  lemma Twice(p: nat, q: nat)
    ensures 2 * (p * q) == (2 * p) * q
  {
  }

  lemma {:induction false} Pow2Add(a: nat, b: nat)
    ensures Pow2(a + b) == Pow2(a) * Pow2(b)
  {
    if a > 0 {
      Pow2Add(a - 1, b);
      assert a + b - 1 == a - 1 + b && Pow2(a + b) == 2 * Pow2(a - 1 + b);
      Twice(Pow2(a - 1), Pow2(b));
    }
  }

  lemma Pow2Half(m: nat)
    ensures m > 0 ==> Pow2(m) == 2 * Pow2(m - 1)
    ensures m == 0 ==> Pow2(m) == 1
  {
  }

  lemma {:induction false} Pow2Grows(l: nat, m: nat)
    requires l <= m
    ensures Pow2(l) <= Pow2(m)
    decreases m
  {
    if l < m { Pow2Grows(l, m - 1); }
  }

  lemma {:induction false} Pow2Injective(m: nat, m': nat)
    requires Pow2(m) == Pow2(m')
    ensures m == m'
  {
    if m > 0 && m' > 0 { Pow2Injective(m - 1, m' - 1); }
  }

  // ---------------------------------------------------------------- single bits

  /** (x >> k) & 1 */
  function BitAt(x: nat, k: nat): bool {
    if k == 0 then x % 2 == 1 else BitAt(x / 2, k - 1)
  }

  /** Bitwise exclusive or. */
  function Xor(a: nat, b: nat): nat
    decreases a + b
  {
    if a == 0 && b == 0 then 0 else 2 * Xor(a / 2, b / 2) + (if a % 2 != b % 2 then 1 else 0)
  }

  lemma {:induction false} ZeroBits(k: nat)
    ensures !BitAt(0, k)
  {
    if k > 0 { ZeroBits(k - 1); }
  }

  lemma {:induction false} XorBit(a: nat, b: nat, k: nat)
    ensures BitAt(Xor(a, b), k) == (BitAt(a, k) != BitAt(b, k))
  {
    if a == 0 && b == 0 {
      ZeroBits(k);
    } else if k > 0 {
      XorBit(a / 2, b / 2, k - 1);
      assert Xor(a, b) / 2 == Xor(a / 2, b / 2);
    }
  }

  lemma {:induction false} AndBit(a: nat, b: nat, k: nat)
    ensures BitAt(BitAnd(a, b), k) == (BitAt(a, k) && BitAt(b, k))
  {
    if a == 0 {
      ZeroBits(k);
    } else if k > 0 {
      AndBit(a / 2, b / 2, k - 1);
      assert BitAnd(a, b) / 2 == BitAnd(a / 2, b / 2);
    }
  }

  /** The mask with n low ones. */
  lemma {:induction false} MaskBit(n: nat, k: nat)
    ensures BitAt(Pow2(n) - 1, k) == (k < n)
  {
    if n == 0 {
      ZeroBits(k);
    } else if k > 0 {
      MaskBit(n - 1, k - 1);
      assert (Pow2(n) - 1) / 2 == Pow2(n - 1) - 1;
    }
  }

  /** x & (1 << k) tests bit k. */
  lemma {:induction false} TestBit(x: nat, k: nat)
    ensures BitAnd(x, Pow2(k)) != 0 <==> BitAt(x, k)
  {
    if x == 0 {
      ZeroBits(k);
    } else if k > 0 {
      TestBit(x / 2, k - 1);
      assert Pow2(k) / 2 == Pow2(k - 1);
    } else {
      assert BitAnd(x, 1) == 2 * BitAnd(x / 2, 0) + (if x % 2 == 1 then 1 else 0);
      AndZero(x / 2);
    }
  }

  lemma {:induction false} AndZero(x: nat)
    ensures BitAnd(x, 0) == 0
  {
    if x > 0 { AndZero(x / 2); }
  }

  lemma {:induction false} AndBelow(x: nat, n: nat)
    ensures BitAnd(x, Pow2(n) - 1) < Pow2(n)
  {
    if n == 0 {
      AndZero(x);
    } else if x > 0 {
      AndBelow(x / 2, n - 1);
      assert (Pow2(n) - 1) / 2 == Pow2(n - 1) - 1;
    }
  }

  lemma {:induction false} XorBelow(a: nat, b: nat, n: nat)
    requires a < Pow2(n) && b < Pow2(n)
    ensures Xor(a, b) < Pow2(n)
  {
    if n > 0 && (a > 0 || b > 0) { XorBelow(a / 2, b / 2, n - 1); }
  }

  /** The n low bits, most significant first. */
  function Low(x: nat, n: nat): (b: Bits)
    ensures |b| == n
  {
    seq(n, i requires 0 <= i < n => BitAt(x, n - 1 - i))
  }

  lemma LowEntry(x: nat, n: nat, k: nat)
    requires k < n
    ensures Low(x, n)[k] == BitAt(x, n - 1 - k)
  {
  }

  lemma {:induction false} LowDetermines(x: nat, y: nat, n: nat)
    requires x < Pow2(n) && y < Pow2(n) && forall k | 0 <= k < n :: BitAt(x, k) == BitAt(y, k)
    ensures x == y
  {
    if n > 0 {
      assert BitAt(x, 0) == BitAt(y, 0);
      forall k | 0 <= k < n - 1 ensures BitAt(x / 2, k) == BitAt(y / 2, k) {
        assert BitAt(x, k + 1) == BitAt(y, k + 1);
      }
      LowDetermines(x / 2, y / 2, n - 1);
    }
  }

  /** The low bits read as zero exactly for the number zero. */
  lemma LowZero(x: nat, n: nat)
    requires x < Pow2(n)
    ensures Low(x, n) == Zeros(n) <==> x == 0
  {
    forall k | 0 <= k < n ensures !BitAt(0, k) { ZeroBits(k); }
    if Low(x, n) == Zeros(n) {
      forall k | 0 <= k < n ensures !BitAt(x, k) { assert !Low(x, n)[n - 1 - k]; }
      LowDetermines(x, 0, n);
    }
  }
}
