/** Complex arithmetic over the reals, powers and finite sums. */
module ComplexNumbers {

  datatype Complex = Complex(re: real, im: real)

  const ZERO := Complex(0.0, 0.0)
  const ONE := Complex(1.0, 0.0)
  const MINUS_ONE := Complex(-1.0, 0.0)

  function Add(a: Complex, b: Complex): Complex { Complex(a.re + b.re, a.im + b.im) }

  function Sub(a: Complex, b: Complex): Complex { Complex(a.re - b.re, a.im - b.im) }

  function Mul(a: Complex, b: Complex): Complex { Complex(a.re * b.re - a.im * b.im, a.re * b.im + a.im * b.re) }

  /** Multiplication by a real number. */
  function Stretch(a: Complex, s: real): Complex { Complex(a.re * s, a.im * s) }

  lemma MulLaws(a: Complex, b: Complex, c: Complex)
    ensures Mul(a, b) == Mul(b, a)
    ensures Mul(Mul(a, b), c) == Mul(a, Mul(b, c))
    ensures Mul(a, Add(b, c)) == Add(Mul(a, b), Mul(a, c))
    ensures Mul(a, Sub(b, c)) == Sub(Mul(a, b), Mul(a, c))
  {
  }

  lemma MulUnits(a: Complex)
    ensures Mul(a, ONE) == a == Mul(ONE, a)
    ensures Mul(a, ZERO) == ZERO == Mul(ZERO, a)
    ensures Mul(a, MINUS_ONE) == Sub(ZERO, a) == Mul(MINUS_ONE, a)
  {
  }

  /** (ab)(cd) = (ac)(bd) */
  lemma MulExchange(a: Complex, b: Complex, c: Complex, d: Complex)
    ensures Mul(Mul(a, b), Mul(c, d)) == Mul(Mul(a, c), Mul(b, d))
  {
    hide Mul;
    MulLaws(a, b, Mul(c, d));
    MulLaws(b, c, d);
    MulLaws(c, b, d);
    MulLaws(a, c, Mul(b, d));
  }

  function Pow(z: Complex, n: nat): Complex {
    if n == 0 then ONE else Mul(z, Pow(z, n - 1))
  }

  lemma {:induction false} PowAdd(z: Complex, a: nat, b: nat)
    ensures Pow(z, a + b) == Mul(Pow(z, a), Pow(z, b))
  {
    hide Mul;
    if a == 0 {
      MulUnits(Pow(z, b));
    } else {
      PowAdd(z, a - 1, b);
      MulLaws(z, Pow(z, a - 1), Pow(z, b));
    }
  }

  lemma PowFirst(z: Complex)
    ensures Pow(z, 0) == ONE && Pow(z, 1) == z
  {
    hide Mul;
    MulUnits(z);
    assert Pow(z, 1) == Mul(z, Pow(z, 0));
  }

  lemma {:induction false} PowOne(n: nat)
    ensures Pow(ONE, n) == ONE
  {
    hide Mul;
    if n > 0 {
      PowOne(n - 1);
      MulUnits(ONE);
    }
  }

  lemma {:induction false} PowProduct(y: Complex, z: Complex, n: nat)
    ensures Pow(Mul(y, z), n) == Mul(Pow(y, n), Pow(z, n))
  {
    hide Mul;
    if n == 0 {
      MulUnits(ONE);
    } else {
      PowProduct(y, z, n - 1);
      MulExchange(y, z, Pow(y, n - 1), Pow(z, n - 1));
    }
  }

  lemma {:induction false} PowPow(z: Complex, a: nat, b: nat)
    ensures Pow(Pow(z, a), b) == Pow(z, a * b)
  {
    hide Mul;
    if b == 0 {
      assert a * b == 0;
    } else {
      PowPow(z, a, b - 1);
      assert a * b == a + a * (b - 1);
      PowAdd(z, a, a * (b - 1));
    }
  }

  lemma PowSquare(z: Complex, n: nat)
    ensures Pow(z, 2 * n) == Pow(Mul(z, z), n)
  {
    hide Mul;
    PowAdd(z, 1, 1);
    assert Pow(z, 1) == z by { MulUnits(z); }
    assert Pow(z, 2) == Mul(z, z);
    PowPow(z, 2, n);
  }

  /** f(0) + ... + f(n - 1) */
  function Sum(f: nat -> Complex, n: nat): Complex {
    if n == 0 then ZERO else Add(Sum(f, n - 1), f(n - 1))
  }

  lemma {:induction false} SumEqual(f: nat -> Complex, g: nat -> Complex, n: nat)
    requires forall i: nat | i < n :: f(i) == g(i)
    ensures Sum(f, n) == Sum(g, n)
  {
    if n > 0 { SumEqual(f, g, n - 1); }
  }

  lemma {:induction false} SumAdd(f: nat -> Complex, g: nat -> Complex, n: nat)
    ensures Sum((i: nat) => Add(f(i), g(i)), n) == Add(Sum(f, n), Sum(g, n))
  {
    if n > 0 { SumAdd(f, g, n - 1); }
  }

  lemma {:induction false} SumTimes(c: Complex, f: nat -> Complex, n: nat)
    ensures Sum((i: nat) => Mul(c, f(i)), n) == Mul(c, Sum(f, n))
  {
    hide Mul;
    if n == 0 {
      MulUnits(c);
    } else {
      SumTimes(c, f, n - 1);
      MulLaws(c, Sum(f, n - 1), f(n - 1));
    }
  }

  lemma {:induction false} SumZero(f: nat -> Complex, n: nat)
    requires forall i: nat | i < n :: f(i) == ZERO
    ensures Sum(f, n) == ZERO
  {
    if n > 0 { SumZero(f, n - 1); }
  }

  /** A sum with one non-zero term. */
  lemma {:induction false} SumSingle(f: nat -> Complex, n: nat, j: nat)
    requires forall i: nat | i < n && i != j :: f(i) == ZERO
    ensures Sum(f, n) == if j < n then f(j) else ZERO
  {
    if n > 0 { SumSingle(f, n - 1, j); }
  }

  /** Finite sums may be interchanged. */
  lemma {:induction false} SumSwap(f: (nat, nat) -> Complex, m: nat, n: nat)
    ensures Sum((i: nat) => Sum((j: nat) => f(i, j), n), m) == Sum((j: nat) => Sum((i: nat) => f(i, j), m), n)
  {
    if m == 0 {
      SumZero((j: nat) => Sum((i: nat) => f(i, j), m), n);
    } else {
      SumSwap(f, m - 1, n);
      var rows := (j: nat) => Sum((i: nat) => f(i, j), m - 1);
      var last := (j: nat) => f(m - 1, j);
      SumAdd(rows, last, n);
      SumEqual((j: nat) => Add(rows(j), last(j)), (j: nat) => Sum((i: nat) => f(i, j), m), n);
    }
  }
}
