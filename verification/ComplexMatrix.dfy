/** Small dense linear algebra over the complex numbers, and Gauss-Jordan inversion in place. */
module ComplexMatrix {
  import opened Common
  import opened ComplexNumbers

  type Vec = seq<Complex>
  type Mat = seq<Vec>

  ghost predicate Shape(a: Mat, r: nat, c: nat) {
    |a| == r && forall i | 0 <= i < r :: |a[i]| == c
  }

  // ---------------------------------------------------------------- scalars

  function Conj(a: Complex): Complex { Complex(a.re, -a.im) }

  /** |a|^2, which orders moduli as std::abs does. */
  function Norm(a: Complex): real { a.re * a.re + a.im * a.im }

  function Reciprocal(b: Complex): Complex
    requires Norm(b) > 0.0
  {
    Stretch(Conj(b), 1.0 / Norm(b))
  }

  function Div(a: Complex, b: Complex): Complex
    requires Norm(b) > 0.0
  {
    Mul(a, Reciprocal(b))
  }

  lemma ReciprocalWorks(b: Complex)
    requires Norm(b) > 0.0
    ensures Mul(b, Reciprocal(b)) == ONE
  {
    var n := Norm(b);
    var s := 1.0 / n;
    assert n * s == 1.0;
    assert b.re * (b.re * s) - b.im * (-b.im * s) == n * s;
    assert b.re * (-b.im * s) + b.im * (b.re * s) == 0.0;
  }

  lemma DivTimes(a: Complex, b: Complex, c: Complex)
    requires Norm(b) > 0.0
    ensures Mul(Div(a, b), c) == Div(Mul(a, c), b)
  {
    hide Mul, Reciprocal;
    MulLaws(a, Reciprocal(b), c);
    MulLaws(Reciprocal(b), c, a);
    MulLaws(a, c, Reciprocal(b));
  }

  lemma DivAdd(a: Complex, c: Complex, b: Complex)
    requires Norm(b) > 0.0
    ensures Add(Div(a, b), Div(c, b)) == Div(Add(a, c), b)
  {
    hide Mul, Reciprocal;
    var k := Reciprocal(b);
    MulLaws(k, a, c);
    MulLaws(a, k, ONE);
    MulLaws(c, k, ONE);
    MulLaws(Add(a, c), k, ONE);
  }

  lemma DivUnits(a: Complex, b: Complex)
    requires Norm(b) > 0.0
    ensures Div(b, b) == ONE && Div(ZERO, b) == ZERO
    ensures Div(a, b) == ZERO <==> a == ZERO
  {
    hide Mul, Reciprocal;
    var k := Reciprocal(b);
    ReciprocalWorks(b);
    MulUnits(k);
    MulUnits(a);
    MulUnits(b);
    MulLaws(a, k, b);
    MulLaws(k, b, ONE);
  }

  // ---------------------------------------------------------------- vectors

  /** The sum of the first n products. */
  function Dot(a: Vec, b: Vec, n: nat): Complex
    requires n <= |a| && n <= |b|
  {
    if n == 0 then ZERO else Add(Dot(a, b, n - 1), Mul(a[n - 1], b[n - 1]))
  }

  lemma {:induction false} DotSwapRow(a: Vec, b: Vec, z: Vec, f: Complex, n: nat)
    requires n <= |a| == |b| && n <= |z|
    ensures Dot(SubRow(a, b, f), z, n) == Sub(Dot(a, z, n), Mul(f, Dot(b, z, n)))
  {
    hide Mul;
    if n == 0 {
      MulUnits(f);
    } else {
      var i := n - 1;
      DotSwapRow(a, b, z, f, i);
      MulLaws(z[i], a[i], Mul(f, b[i]));
      MulLaws(a[i], z[i], ONE);
      MulLaws(f, b[i], z[i]);
      MulLaws(Sub(a[i], Mul(f, b[i])), z[i], ONE);
      MulLaws(Mul(f, b[i]), z[i], ONE);
      MulLaws(f, Dot(b, z, i), Mul(b[i], z[i]));
    }
  }

  /** a - f b */
  function SubRow(a: Vec, b: Vec, f: Complex): (c: Vec)
    requires |a| == |b|
    ensures |c| == |a| && forall i | 0 <= i < |a| :: c[i] == Sub(a[i], Mul(f, b[i]))
  {
    seq(|a|, i requires 0 <= i < |a| => Sub(a[i], Mul(f, b[i])))
  }

  function DivRow(a: Vec, d: Complex): (c: Vec)
    requires Norm(d) > 0.0
    ensures |c| == |a| && forall i | 0 <= i < |a| :: c[i] == Div(a[i], d)
  {
    seq(|a|, i requires 0 <= i < |a| => Div(a[i], d))
  }

  lemma {:induction false} DotDivRow(a: Vec, d: Complex, z: Vec, n: nat)
    requires n <= |a| && n <= |z| && Norm(d) > 0.0
    ensures Dot(DivRow(a, d), z, n) == Div(Dot(a, z, n), d)
  {
    hide Mul, Div, Norm;
    if n == 0 {
      DivUnits(ZERO, d);
    } else {
      DotDivRow(a, d, z, n - 1);
      DivTimes(a[n - 1], d, z[n - 1]);
      DivAdd(Dot(a, z, n - 1), Mul(a[n - 1], z[n - 1]), d);
    }
  }

  // ---------------------------------------------------------------- homogeneous systems

  /** Every row is orthogonal to z. */
  ghost predicate Kills(a: Mat, w: nat, z: Vec)
    requires Shape(a, |a|, w) && |z| == w
  {
    forall r | 0 <= r < |a| :: Dot(a[r], z, w) == ZERO
  }

  ghost predicate SameKernel(a: Mat, b: Mat, w: nat)
    requires Shape(a, |a|, w) && Shape(b, |b|, w)
  {
    forall z: Vec | |z| == w :: Kills(a, w, z) <==> Kills(b, w, z)
  }

  lemma SameKernelTransitive(a: Mat, b: Mat, c: Mat, w: nat)
    requires Shape(a, |a|, w) && Shape(b, |b|, w) && Shape(c, |c|, w)
    requires SameKernel(a, b, w) && SameKernel(b, c, w)
    ensures SameKernel(a, c, w)
  {
    hide Kills;
    forall z: Vec | |z| == w ensures Kills(a, w, z) <==> Kills(c, w, z) {
      assert Kills(a, w, z) <==> Kills(b, w, z);
    }
  }

  lemma SwapKeepsKernel(a: Mat, w: nat, i: nat, j: nat)
    requires Shape(a, |a|, w) && i < |a| && j < |a|
    ensures SameKernel(a, a[i := a[j]][j := a[i]], w)
  {
    hide Dot;
    var b := a[i := a[j]][j := a[i]];
    forall z: Vec | |z| == w ensures Kills(a, w, z) <==> Kills(b, w, z) {
      if Kills(b, w, z) {
        forall r | 0 <= r < |a| ensures Dot(a[r], z, w) == ZERO {
          var r' := if r == i then j else if r == j then i else r;
          assert b[r'] == a[r];
        }
      }
    }
  }

  lemma DivKeepsKernel(a: Mat, w: nat, i: nat, d: Complex)
    requires Shape(a, |a|, w) && i < |a| && Norm(d) > 0.0
    ensures SameKernel(a, a[i := DivRow(a[i], d)], w)
  {
    hide Dot, Div, Norm, DivRow;
    var b := a[i := DivRow(a[i], d)];
    forall z: Vec | |z| == w ensures Kills(a, w, z) <==> Kills(b, w, z) {
      DotDivRow(a[i], d, z, w);
      DivUnits(Dot(a[i], z, w), d);
      assert Dot(b[i], z, w) == ZERO <==> Dot(a[i], z, w) == ZERO;
      if Kills(b, w, z) {
        forall r | 0 <= r < |a| ensures Dot(a[r], z, w) == ZERO { assert Dot(b[r], z, w) == ZERO; }
      }
    }
  }

  lemma SubKeepsKernel(a: Mat, w: nat, dst: nat, src: nat, f: Complex)
    requires Shape(a, |a|, w) && dst < |a| && src < |a| && dst != src
    ensures SameKernel(a, a[dst := SubRow(a[dst], a[src], f)], w)
  {
    hide Dot, Mul;
    var b := a[dst := SubRow(a[dst], a[src], f)];
    MulUnits(f);
    forall z: Vec | |z| == w ensures Kills(a, w, z) <==> Kills(b, w, z) {
      DotSwapRow(a[dst], a[src], z, f, w);
      if Kills(b, w, z) {
        assert Dot(b[src], z, w) == ZERO && Dot(b[dst], z, w) == ZERO;
        forall r | 0 <= r < |a| ensures Dot(a[r], z, w) == ZERO { assert Dot(b[r], z, w) == ZERO; }
      }
    }
  }

  // ---------------------------------------------------------------- matrices and their products

  function Mv(a: Mat, x: Vec): (y: Vec)
    requires Shape(a, |a|, |x|)
    ensures |y| == |a|
  {
    seq(|a|, i requires 0 <= i < |a| => Dot(a[i], x, |x|))
  }

  function UnitVec(n: nat, k: nat): (e: Vec)
    ensures |e| == n
  {
    seq(n, i => if i == k then ONE else ZERO)
  }

  function Eye(n: nat): (a: Mat)
    ensures Shape(a, n, n)
  {
    seq(n, (i: nat) => UnitVec(n, i))
  }

  function Column(a: Mat, j: nat): (c: Vec)
    requires forall i | 0 <= i < |a| :: j < |a[i]|
    ensures |c| == |a|
  {
    seq(|a|, i requires 0 <= i < |a| => a[i][j])
  }

  /** Entry (i, j) is row i of a times column j of b. */
  function MatMul(a: Mat, b: Mat, c: nat): (p: Mat)
    requires Shape(a, |a|, |b|) && Shape(b, |b|, c)
    ensures Shape(p, |a|, c)
  {
    seq(|a|, i requires 0 <= i < |a| => seq(c, j requires 0 <= j < c => Dot(a[i], Column(b, j), |b|)))
  }

  function Herm(a: Mat, c: nat): (h: Mat)
    requires Shape(a, |a|, c)
    ensures Shape(h, c, |a|)
  {
    seq(c, j requires 0 <= j < c => seq(|a|, i requires 0 <= i < |a| => Conj(a[i][j])))
  }

  lemma {:induction false} DotUnit(a: Vec, n: nat, k: nat, m: nat)
    requires m <= n == |a|
    ensures Dot(a, UnitVec(n, k), m) == (if k < m then a[k] else ZERO)
    ensures Dot(UnitVec(n, k), a, m) == (if k < m then a[k] else ZERO)
  {
    hide Mul;
    if m > 0 {
      DotUnit(a, n, k, m - 1);
      MulUnits(a[m - 1]);
    }
  }

  /** A matrix times a unit vector is a column. */
  lemma MvUnit(a: Mat, n: nat, k: nat)
    requires Shape(a, |a|, n) && k < n
    ensures Mv(a, UnitVec(n, k)) == Column(a, k)
  {
    forall i | 0 <= i < |a| { DotUnit(a[i], n, k, n); }
  }

  // ---------------------------------------------------------------- inversion

  /** The first c columns are those of the identity. */
  ghost predicate Reduced(a: Mat, c: nat) {
    forall i, j | 0 <= i < |a| && 0 <= j < c && j < |a[i]| :: a[i][j] == if i == j then ONE else ZERO
  }

  /** The matrix beside the identity. */
  function Augmented(a: Mat): (g: Mat)
    requires Shape(a, |a|, |a|)
    ensures Shape(g, |a|, 2 * |a|)
  {
    var n := |a|;
    seq(n, i requires 0 <= i < n => a[i] + UnitVec(n, i))
  }

  /** The right half of the rows. */
  function RightHalf(g: Mat, n: nat): (b: Mat)
    requires Shape(g, n, 2 * n)
    ensures Shape(b, n, n)
  {
    seq(n, i requires 0 <= i < n => g[i][n..])
  }

  ghost predicate IsInverse(a: Mat, b: Mat) {
    && Shape(a, |a|, |a|) && Shape(b, |a|, |a|)
    && MatMul(b, a, |a|) == Eye(|a|) && MatMul(a, b, |a|) == Eye(|a|)
  }

  function Negate(y: Vec): (m: Vec)
    ensures |m| == |y|
  {
    seq(|y|, i requires 0 <= i < |y| => Sub(ZERO, y[i]))
  }

  lemma {:induction false} DotParts(a: Vec, b: Vec, x: Vec, y: Vec, m: nat)
    requires |a| == |x| && m <= |b| == |y|
    ensures Dot(a + b, x + y, |a| + m) == Add(Dot(a, x, |a|), Dot(b, y, m))
  {
    hide Mul;
    if m == 0 {
      DotAgree(a + b, x + y, a, x, |a|);
    } else {
      DotParts(a, b, x, y, m - 1);
    }
  }

  lemma {:induction false} DotAgree(a: Vec, x: Vec, b: Vec, y: Vec, n: nat)
    requires n <= |a| && n <= |b| && n <= |x| && n <= |y|
    requires forall i | 0 <= i < n :: a[i] == b[i] && x[i] == y[i]
    ensures Dot(a, x, n) == Dot(b, y, n)
  {
    hide Mul;
    if n > 0 { DotAgree(a, x, b, y, n - 1); }
  }

  lemma {:induction false} DotNegate(a: Vec, y: Vec, n: nat)
    requires n <= |a| && n <= |y|
    ensures Dot(a, Negate(y), n) == Sub(ZERO, Dot(a, y, n))
  {
    hide Mul;
    if n > 0 {
      DotNegate(a, y, n - 1);
      MulLaws(a[n - 1], ZERO, y[n - 1]);
      MulUnits(a[n - 1]);
    }
  }

  /** The augmented rows kill (x, -y) exactly when a x = y. */
  lemma AugmentedMeans(a: Mat, x: Vec, y: Vec)
    requires Shape(a, |a|, |a|) && |x| == |a| == |y|
    ensures Kills(Augmented(a), 2 * |a|, x + Negate(y)) <==> Mv(a, x) == y
  {
    hide Dot, Mul;
    var n := |a|;
    forall i | 0 <= i < n
      ensures Dot(Augmented(a)[i], x + Negate(y), 2 * n) == Sub(Mv(a, x)[i], y[i])
    {
      DotParts(a[i], UnitVec(n, i), x, Negate(y), n);
      DotNegate(UnitVec(n, i), y, n);
      DotUnit(y, n, i, n);
    }
    if Kills(Augmented(a), 2 * n, x + Negate(y)) {
      forall i | 0 <= i < n ensures Mv(a, x)[i] == y[i] {
        assert Dot(Augmented(a)[i], x + Negate(y), 2 * n) == ZERO;
      }
    }
  }

  /** Fully reduced rows kill (x, -y) exactly when x is the right half times y. */
  lemma ReducedMeans(g: Mat, n: nat, x: Vec, y: Vec)
    requires Shape(g, n, 2 * n) && Reduced(g, n) && |x| == n == |y|
    ensures Kills(g, 2 * n, x + Negate(y)) <==> x == Mv(RightHalf(g, n), y)
  {
    hide Dot, Mul;
    var b := RightHalf(g, n);
    forall i | 0 <= i < n
      ensures Dot(g[i], x + Negate(y), 2 * n) == Sub(x[i], Mv(b, y)[i])
    {
      assert g[i] == g[i][..n] + b[i];
      assert g[i][..n] == UnitVec(n, i);
      DotParts(g[i][..n], b[i], x, Negate(y), n);
      DotNegate(b[i], y, n);
      DotUnit(x, n, i, n);
    }
    if Kills(g, 2 * n, x + Negate(y)) {
      forall i | 0 <= i < n ensures x[i] == Mv(b, y)[i] { assert Dot(g[i], x + Negate(y), 2 * n) == ZERO; }
    }
  }

  /** A row-equivalent reduced form carries the two-sided inverse in its right half. */
  lemma InverseFromReduced(a: Mat, g: Mat)
    requires Shape(a, |a|, |a|) && Shape(g, |a|, 2 * |a|)
    requires SameKernel(Augmented(a), g, 2 * |a|) && Reduced(g, |a|)
    ensures IsInverse(a, RightHalf(g, |a|))
  {
    hide Dot, Kills, Reduced, Mv;
    var n, b := |a|, RightHalf(g, |a|);
    forall x: Vec, y: Vec | |x| == n == |y| ensures Mv(a, x) == y <==> x == Mv(b, y) {
      AugmentedMeans(a, x, y);
      ReducedMeans(g, n, x, y);
      assert |x + Negate(y)| == 2 * n;
    }
    forall i, j | 0 <= i < n && 0 <= j < n
      ensures MatMul(b, a, n)[i][j] == Eye(n)[i][j] && MatMul(a, b, n)[i][j] == Eye(n)[i][j]
    {
      var e := UnitVec(n, j);
      MvUnit(a, n, j);
      MvUnit(b, n, j);
      ProductEntry(b, a, n, i, j);
      ProductEntry(a, b, n, i, j);
      assert Mv(b, Mv(a, e)) == e && Mv(a, Mv(b, e)) == e;
    }
    SameMatrix(MatMul(b, a, n), Eye(n), n);
    SameMatrix(MatMul(a, b, n), Eye(n), n);
  }

  lemma ProductEntry(a: Mat, b: Mat, n: nat, i: nat, j: nat)
    requires Shape(a, n, n) && Shape(b, n, n) && i < n && j < n
    ensures MatMul(a, b, n)[i][j] == Mv(a, Column(b, j))[i]
  {
  }

  lemma SameMatrix(a: Mat, b: Mat, n: nat)
    requires Shape(a, n, n) && Shape(b, n, n) && forall i, j | 0 <= i < n && 0 <= j < n :: a[i][j] == b[i][j]
    ensures a == b
  {
    forall i | 0 <= i < n ensures a[i] == b[i] {
      assert forall j | 0 <= j < n :: a[i][j] == b[i][j];
    }
  }

  // ---------------------------------------------------------------- rejected matrices

  /** Sum of the squared moduli of the first n entries. */
  function Energy(v: Vec, n: nat): real
    requires n <= |v|
  {
    if n == 0 then 0.0 else Energy(v, n - 1) + Norm(v[n - 1])
  }

  lemma {:induction false} EnergyNonNegative(v: Vec, n: nat)
    requires n <= |v|
    ensures Energy(v, n) >= 0.0
  {
    if n > 0 {
      EnergyNonNegative(v, n - 1);
      SquareNonNegative(v[n - 1].re);
      SquareNonNegative(v[n - 1].im);
    }
  }

  lemma SquareNonNegative(x: real)
    ensures x * x >= 0.0
  {
  }

  /** The square of the smallest accepted pivot modulus. */
  const TINY: real := 0.0000000000000000000000000001

  /** Some vector of length at least 1 is mapped to almost nothing. */
  ghost predicate NearlySingular(a: Mat)
    requires Shape(a, |a|, |a|)
  {
    exists x: Vec :: |x| == |a| && Energy(x, |a|) >= 1.0 && Energy(Mv(a, x), |a|) <= |a| as real * TINY
  }

  /** Rows col and later have not been used as pivots: row r is still the only one that contains
      the original row perm[r]. inv is the inverse of perm. */
  ghost predicate Unused(g: Mat, n: nat, col: nat, perm: seq<nat>, inv: seq<nat>)
    requires Shape(g, n, 2 * n)
  {
    && |perm| == n == |inv|
    && (forall r | 0 <= r < n :: perm[r] < n && inv[perm[r]] == r)
    && (forall k | 0 <= k < n :: inv[k] < n && perm[inv[k]] == k)
    && forall i, r | 0 <= i < n && col <= r < n :: g[i][n + perm[r]] == if i == r then ONE else ZERO
  }

  lemma SwapKeepsUnused(g: Mat, n: nat, col: nat, piv: nat, perm: seq<nat>, inv: seq<nat>)
    requires Shape(g, n, 2 * n) && col <= piv < n && Unused(g, n, col, perm, inv)
    ensures Unused(g[col := g[piv]][piv := g[col]], n, col, perm[col := perm[piv]][piv := perm[col]],
                   inv[perm[piv] := col][perm[col] := piv])
  {
  }

  lemma DivKeepsUnused(g: Mat, n: nat, col: nat, d: Complex, perm: seq<nat>, inv: seq<nat>)
    requires Shape(g, n, 2 * n) && col < n && Unused(g, n, col, perm, inv) && Norm(d) > 0.0
    ensures Unused(g[col := DivRow(g[col], d)], n, col + 1, perm, inv)
  {
    hide Norm, Div;
    DivUnits(ZERO, d);
  }

  lemma SubKeepsUnused(g: Mat, n: nat, r: nat, col: nat, f: Complex, perm: seq<nat>, inv: seq<nat>)
    requires Shape(g, n, 2 * n) && col < n && r < n && r != col && Unused(g, n, col + 1, perm, inv)
    ensures Unused(g[r := SubRow(g[r], g[col], f)], n, col + 1, perm, inv)
  {
    hide Mul;
    MulUnits(f);
    var b := g[r := SubRow(g[r], g[col], f)];
    forall i, q | 0 <= i < n && col + 1 <= q < n ensures b[i][n + perm[q]] == if i == q then ONE else ZERO {
      assert g[col][n + perm[q]] == ZERO && g[i][n + perm[q]] == if i == q then ONE else ZERO;
    }
  }

  /** A sum of products with at most one non-zero term. */
  lemma {:induction false} DotSingle(a: Vec, b: Vec, p: nat, n: nat)
    requires n <= |a| && n <= |b|
    requires forall k | 0 <= k < n && k != p :: a[k] == ZERO || b[k] == ZERO
    ensures Dot(a, b, n) == if p < n then Mul(a[p], b[p]) else ZERO
  {
    hide Mul;
    if n > 0 {
      DotSingle(a, b, p, n - 1);
      MulUnits(a[n - 1]);
      MulUnits(b[n - 1]);
    }
  }

  lemma {:induction false} DotTail(a: Vec, b: Vec, m: nat, n: nat)
    requires m <= n <= |a| && n <= |b| && forall k | m <= k < n :: b[k] == ZERO
    ensures Dot(a, b, n) == Dot(a, b, m)
  {
    hide Mul;
    if m < n {
      DotTail(a, b, m, n - 1);
      MulUnits(a[n - 1]);
    }
  }

  /** Only columns r (when r < col) and col contribute to row r. */
  lemma DotReducedRow(row: Vec, x: Vec, r: nat, col: nat)
    requires |row| == |x| && col < |x|
    requires forall j | 0 <= j < col :: row[j] == if r == j then ONE else ZERO
    requires x[col] == ONE && forall j | col < j < |x| :: x[j] == ZERO
    ensures Dot(row, x, |x|) == if r < col then Add(x[r], row[col]) else row[col]
  {
    hide Mul, Dot;
    DotTail(row, x, col + 1, |x|);
    DotSingle(row, x, r, col);
    DotLast(row, x, col + 1);
    MulUnits(x[if r < col then r else col]);
    MulUnits(row[col]);
  }

  lemma DotLast(a: Vec, b: Vec, n: nat)
    requires 0 < n <= |a| && n <= |b|
    ensures Dot(a, b, n) == Add(Dot(a, b, n - 1), Mul(a[n - 1], b[n - 1]))
  {
  }

  lemma {:induction false} EnergyAtLeast(x: Vec, j: nat, n: nat)
    requires j < n <= |x|
    ensures Energy(x, n) >= Norm(x[j])
  {
    EnergyNonNegative(x, n - 1);
    SquareNonNegative(x[n - 1].re);
    SquareNonNegative(x[n - 1].im);
    if j < n - 1 { EnergyAtLeast(x, j, n - 1); }
  }

  lemma {:induction false} EnergyAtMost(x: Vec, bound: real, n: nat)
    requires n <= |x| && forall j | 0 <= j < n :: Norm(x[j]) <= bound
    ensures Energy(x, n) <= n as real * bound
  {
    hide Norm;
    if n > 0 {
      EnergyAtMost(x, bound, n - 1);
      assert n as real * bound == (n - 1) as real * bound + bound;
    }
  }

  /** When the best remaining pivot is tiny, the matrix is nearly singular. */
  lemma TinyPivot(a: Mat, g: Mat, col: nat, perm: seq<nat>, inv: seq<nat>)
    requires Shape(a, |a|, |a|) && Shape(g, |a|, 2 * |a|) && col < |a|
    requires SameKernel(Augmented(a), g, 2 * |a|) && Reduced(g, col) && Unused(g, |a|, col, perm, inv)
    requires forall r | col <= r < |a| :: Norm(g[r][col]) <= TINY
    ensures NearlySingular(a)
  {
    hide Norm, SameKernel, Kills, Dot, Mv, Energy, Mul;
    var n := |a|;
    var x := seq(n, i requires 0 <= i < n => if i < col then Sub(ZERO, g[i][col]) else if i == col then ONE else ZERO);
    var y := seq(n, k requires 0 <= k < n => if inv[k] >= col then g[inv[k]][col] else ZERO);
    NearKernel(g, n, col, perm, inv, x, y);
    SameKernelAt(Augmented(a), g, 2 * n, x + Negate(y));
    AugmentedMeans(a, x, y);
    EnergyAtLeast(x, col, n);
    assert Norm(ONE) == 1.0 && Norm(ZERO) == 0.0 by { NormUnits(); }
    EnergyAtMost(y, TINY, n);
  }

  lemma NormUnits()
    ensures Norm(ONE) == 1.0 && Norm(ZERO) == 0.0
  {
  }

  lemma SameKernelAt(a: Mat, b: Mat, w: nat, z: Vec)
    requires Shape(a, |a|, w) && Shape(b, |b|, w) && |z| == w
    ensures SameKernel(a, b, w) ==> (Kills(a, w, z) <==> Kills(b, w, z))
  {
  }

  lemma NearKernel(g: Mat, n: nat, col: nat, perm: seq<nat>, inv: seq<nat>, x: Vec, y: Vec)
    requires Shape(g, n, 2 * n) && col < n && Reduced(g, col) && Unused(g, n, col, perm, inv) && |x| == n == |y|
    requires forall i | 0 <= i < n :: x[i] == if i < col then Sub(ZERO, g[i][col]) else if i == col then ONE else ZERO
    requires forall k | 0 <= k < n :: y[k] == if inv[k] >= col then g[inv[k]][col] else ZERO
    ensures Kills(g, 2 * n, x + Negate(y))
  {
    hide Dot, Mul, Reduced, Unused;
    forall r | 0 <= r < n ensures Dot(g[r], x + Negate(y), 2 * n) == ZERO {
      LeftPart(g, n, col, x, r);
      RightPart(g, n, col, perm, inv, y, r);
      DotHalves(g[r], x, y, n);
    }
  }

  lemma DotHalves(row: Vec, x: Vec, y: Vec, n: nat)
    requires |row| == 2 * n && |x| == n == |y| && Dot(row[..n], x, n) == Dot(row[n..], y, n)
    ensures Dot(row, x + Negate(y), 2 * n) == ZERO
  {
    hide Dot;
    assert row == row[..n] + row[n..];
    DotParts(row[..n], row[n..], x, Negate(y), n);
    DotNegate(row[n..], y, n);
  }

  lemma LeftPart(g: Mat, n: nat, col: nat, x: Vec, r: nat)
    requires Shape(g, n, 2 * n) && col < n && Reduced(g, col) && |x| == n && r < n
    requires forall i | 0 <= i < n :: x[i] == if i < col then Sub(ZERO, g[i][col]) else if i == col then ONE else ZERO
    ensures Dot(g[r][..n], x, n) == if r >= col then g[r][col] else ZERO
  {
    hide Dot, Mul;
    DotReducedRow(g[r][..n], x, r, col);
  }

  lemma RightPart(g: Mat, n: nat, col: nat, perm: seq<nat>, inv: seq<nat>, y: Vec, r: nat)
    requires Shape(g, n, 2 * n) && col < n && Unused(g, n, col, perm, inv) && |y| == n && r < n
    requires forall k | 0 <= k < n :: y[k] == if inv[k] >= col then g[inv[k]][col] else ZERO
    ensures Dot(g[r][n..], y, n) == if r >= col then g[r][col] else ZERO
  {
    hide Dot, Mul, Unused, Shape;
    RightEntries(g, n, col, perm, inv, r);
    var right := g[r][n..];
    var p := perm[r];
    DotSingle(right, y, p, n);
    MulUnits(y[p]);
    MulUnits(right[p]);
  }

  /** Row r of the right half is zero at the columns still unused, except for its own 1. */
  lemma RightEntries(g: Mat, n: nat, col: nat, perm: seq<nat>, inv: seq<nat>, r: nat)
    requires Shape(g, n, 2 * n) && col < n && Unused(g, n, col, perm, inv) && r < n
    ensures |perm| == n == |inv| && perm[r] < n && inv[perm[r]] == r && |g| == n && |g[r]| == 2 * n
    ensures forall k | 0 <= k < n && k != perm[r] && inv[k] >= col :: inv[k] < n && g[r][n..][k] == ZERO
    ensures forall k | 0 <= k < n :: inv[k] < n
    ensures r >= col ==> g[r][n..][perm[r]] == ONE
  {
    forall k | 0 <= k < n && k != perm[r] && inv[k] >= col ensures g[r][n..][k] == ZERO {
      assert perm[inv[k]] == k && g[r][n + perm[inv[k]]] == ZERO;
    }
  }

  // ---------------------------------------------------------------- the loops

  ghost function RowsOf(a: array2<Complex>): (m: Mat)
    reads a
    ensures Shape(m, a.Length0, a.Length1)
    ensures forall r, c | 0 <= r < a.Length0 && 0 <= c < a.Length1 :: m[r][c] == a[r, c]
  {
    seq(a.Length0, r requires 0 <= r < a.Length0 reads a =>
      seq(a.Length1, c requires 0 <= c < a.Length1 reads a => a[r, c]))
  }

  lemma SameRows(a: Mat, b: Mat, r: nat, c: nat)
    requires Shape(a, r, c) && Shape(b, r, c) && forall i, j | 0 <= i < r && 0 <= j < c :: a[i][j] == b[i][j]
    ensures a == b
  {
    forall i | 0 <= i < r ensures a[i] == b[i] {
      assert forall j | 0 <= j < c :: a[i][j] == b[i][j];
    }
  }

  method SwapRows(a: array2<Complex>, i: nat, j: nat)
    requires i < a.Length0 && j < a.Length0
    modifies a
    ensures RowsOf(a) == old(RowsOf(a))[i := old(RowsOf(a))[j]][j := old(RowsOf(a))[i]]
  {
    ghost var was := RowsOf(a);
    for c := 0 to a.Length1
      invariant forall r, k | 0 <= r < a.Length0 && 0 <= k < a.Length1 ::
        a[r, k] == if k < c && r == j then was[i][k] else if k < c && r == i then was[j][k] else was[r][k]
    {
      a[i, c], a[j, c] := a[j, c], a[i, c];
    }
    SameRows(RowsOf(a), was[i := was[j]][j := was[i]], a.Length0, a.Length1);
  }

  method DivideRow(a: array2<Complex>, i: nat, d: Complex)
    requires i < a.Length0 && Norm(d) > 0.0
    modifies a
    ensures RowsOf(a) == old(RowsOf(a))[i := DivRow(old(RowsOf(a))[i], d)]
  {
    hide Norm, Div;
    ghost var was := RowsOf(a);
    for c := 0 to a.Length1
      invariant forall r, k | 0 <= r < a.Length0 && 0 <= k < a.Length1 ::
        a[r, k] == if r == i && k < c then Div(was[r][k], d) else was[r][k]
    {
      a[i, c] := Div(a[i, c], d);
    }
    SameRows(RowsOf(a), was[i := DivRow(was[i], d)], a.Length0, a.Length1);
  }

  method SubtractRow(a: array2<Complex>, dst: nat, src: nat, f: Complex)
    requires dst < a.Length0 && src < a.Length0 && dst != src
    modifies a
    ensures RowsOf(a) == old(RowsOf(a))[dst := SubRow(old(RowsOf(a))[dst], old(RowsOf(a))[src], f)]
  {
    hide Mul, Sub;
    ghost var was := RowsOf(a);
    for c := 0 to a.Length1
      invariant forall r, k | 0 <= r < a.Length0 && 0 <= k < a.Length1 ::
        a[r, k] == if r == dst && k < c then Sub(was[r][k], Mul(f, was[src][k])) else was[r][k]
    {
      a[dst, c] := Sub(a[dst, c], Mul(f, a[src, c]));
    }
    SameRows(RowsOf(a), was[dst := SubRow(was[dst], was[src], f)], a.Length0, a.Length1);
  }

  /** Dividing the pivot row keeps the reduced columns and puts 1 on the diagonal. */
  lemma DividedPivot(a: Mat, n: nat, w: nat, col: nat)
    requires Shape(a, n, w) && col < n <= w && Reduced(a, col) && Norm(a[col][col]) > 0.0
    ensures var b := a[col := DivRow(a[col], a[col][col])]; Reduced(b, col) && b[col][col] == ONE
  {
    hide Norm, Div;
    var d := a[col][col];
    DivUnits(ZERO, d);
  }

  /** Subtracting a multiple of the pivot row clears one entry and disturbs no earlier column. */
  lemma ClearedEntry(a: Mat, n: nat, w: nat, r: nat, col: nat)
    requires Shape(a, n, w) && r < n && col < n <= w && r != col && Reduced(a, col) && a[col][col] == ONE
    ensures var b := a[r := SubRow(a[r], a[col], a[r][col])];
      Reduced(b, col) && b[col] == a[col] && b[r][col] == ZERO
  {
    hide Mul;
    MulUnits(a[r][col]);
  }

  method ClearColumn(a: array2<Complex>, col: nat, ghost perm: seq<nat>, ghost inv: seq<nat>)
    requires col < a.Length0 && a.Length1 == 2 * a.Length0 && Reduced(RowsOf(a), col) && a[col, col] == ONE
    requires Unused(RowsOf(a), a.Length0, col + 1, perm, inv)
    modifies a
    ensures SameKernel(old(RowsOf(a)), RowsOf(a), a.Length1)
    ensures Reduced(RowsOf(a), col + 1) && Unused(RowsOf(a), a.Length0, col + 1, perm, inv)
  {
    hide SameKernel, SubRow, Reduced, Mul, Unused;
    var n, w := a.Length0, a.Length1;
    ghost var m0 := RowsOf(a);
    ghost var m := m0;
    KernelReflexive(m, w);
    for r := 0 to n
      invariant m == RowsOf(a) && SameKernel(m0, m, w)
      invariant Reduced(m, col) && m[col][col] == ONE && Unused(m, n, col + 1, perm, inv)
      invariant forall i | 0 <= i < r && i != col :: m[i][col] == ZERO
    {
      if r == col { continue; }
      ghost var m1 := m;
      ClearedEntry(m1, n, w, r, col);
      var f := a[r, col];
      SubtractRow(a, r, col, f);
      m := m1[r := SubRow(m1[r], m1[col], m1[r][col])];
      SubKeepsKernel(m1, w, r, col, m1[r][col]);
      SubKeepsUnused(m1, n, r, col, m1[r][col], perm, inv);
      SameKernelTransitive(m0, m1, m, w);
    }
    NextReduced(m, n, w, col);
  }

  lemma NextReduced(m: Mat, n: nat, w: nat, col: nat)
    requires Shape(m, n, w) && col < n <= w && Reduced(m, col) && m[col][col] == ONE
    requires forall i | 0 <= i < n && i != col :: m[i][col] == ZERO
    ensures Reduced(m, col + 1)
  {
  }

  lemma KernelReflexive(a: Mat, w: nat)
    requires Shape(a, |a|, w)
    ensures SameKernel(a, a, w)
  {
  }

  /** The row at or below the diagonal with the largest entry in the column. */
  method FindPivot(a: array2<Complex>, col: nat) returns (piv: nat, best: real)
    requires col < a.Length0 && col < a.Length1
    ensures col <= piv < a.Length0 && best == Norm(a[piv, col])
    ensures forall r | col <= r < a.Length0 :: Norm(a[r, col]) <= best
  {
    hide Norm;
    piv := col;
    best := Norm(a[piv, col]);
    for r := col + 1 to a.Length0
      invariant col <= piv < r && best == Norm(a[piv, col])
      invariant forall k | col <= k < r :: Norm(a[k, col]) <= best
    {
      var v := Norm(a[r, col]);
      if v > best { best, piv := v, r; }
    }
  }

  /** One column: pivot, normalise, clear. Fails when the best pivot is tiny. */
  method EliminateColumn(aug: array2<Complex>, col: nat, ghost perm: seq<nat>, ghost inv: seq<nat>)
      returns (ok: bool, ghost perm': seq<nat>, ghost inv': seq<nat>)
    requires col < aug.Length0 && aug.Length1 == 2 * aug.Length0
    requires Reduced(RowsOf(aug), col) && Unused(RowsOf(aug), aug.Length0, col, perm, inv)
    modifies aug
    ensures !ok ==> RowsOf(aug) == old(RowsOf(aug)) && forall r | col <= r < aug.Length0 :: Norm(aug[r, col]) <= TINY
    ensures ok ==> SameKernel(old(RowsOf(aug)), RowsOf(aug), aug.Length1)
    ensures ok ==> Reduced(RowsOf(aug), col + 1) && Unused(RowsOf(aug), aug.Length0, col + 1, perm', inv')
    ensures ok ==> exists r :: col <= r < aug.Length0 && Norm(old(aug[r, col])) > TINY
  {
    hide SameKernel, DivRow, Norm, Unused, Mul;
    var n, w := aug.Length0, aug.Length1;
    ghost var m1 := RowsOf(aug);
    perm', inv' := perm, inv;
    var piv, best := FindPivot(aug, col);
    if best <= TINY { return false, perm, inv; }
    KernelReflexive(m1, w);
    if piv != col {
      SwapRows(aug, col, piv);
      SwapKeepsKernel(m1, w, col, piv);
      PermutationInRange(m1, n, col, perm, inv);
      SwapKeepsUnused(m1, n, col, piv, perm, inv);
      perm', inv' := perm[col := perm[piv]][piv := perm[col]], inv[perm[piv] := col][perm[col] := piv];
    }
    ghost var m2 := RowsOf(aug);
    assert m2[col][col] == m1[piv][col] && Reduced(m2, col);
    DividedPivot(m2, n, w, col);
    var diag := aug[col, col];
    DivideRow(aug, col, diag);
    ghost var m3 := RowsOf(aug);
    DivKeepsKernel(m2, w, col, diag);
    DivKeepsUnused(m2, n, col, diag, perm', inv');
    SameKernelTransitive(m1, m2, m3, w);
    ClearColumn(aug, col, perm', inv');
    SameKernelTransitive(m1, m3, RowsOf(aug), w);
    ok := true;
  }

  /** No entry of the first column is larger than 1e-14. */
  ghost predicate FirstColumnTiny(a: Mat)
    requires a != [] && Shape(a, |a|, |a|)
  {
    forall i | 0 <= i < |a| :: Norm(a[i][0]) <= 0.0000000000000000000000000001
  }

  /** Gauss-Jordan with partial pivoting: a result is the two-sided inverse, and only nearly singular
      matrices are rejected. The threshold shows in the first column, and decides alone for one stream. */
  method MatInv(a: Mat) returns (r: Option<Mat>)
    requires Shape(a, |a|, |a|)
    ensures r.Some? ==> IsInverse(a, r.value)
    ensures r.None? ==> NearlySingular(a)
    ensures a != [] ==> (FirstColumnTiny(a) ==> r.None?) && (|a| == 1 ==> (r.None? <==> FirstColumnTiny(a)))
  {
    hide SameKernel, Norm, IsInverse, Unused, NearlySingular, Reduced;
    var n := |a|;
    var aug := new Complex[n, 2 * n]((i, j) requires 0 <= i < n && 0 <= j < 2 * n =>
      if j < n then a[i][j] else if j == n + i then ONE else ZERO);
    SameRows(RowsOf(aug), Augmented(a), n, 2 * n);
    ghost var m0 := RowsOf(aug);
    ghost var perm: seq<nat> := seq(n, (i: nat) => i);
    ghost var inv: seq<nat> := perm;
    KernelReflexive(m0, 2 * n);
    UnusedAtFirst(a, perm);
    ReducedAtFirst(m0);
    for col := 0 to n
      invariant SameKernel(m0, RowsOf(aug), 2 * n)
      invariant Reduced(RowsOf(aug), col) && Unused(RowsOf(aug), n, col, perm, inv)
      invariant if col == 0 then RowsOf(aug) == m0 else !FirstColumnTiny(a)
    {
      ghost var m1 := RowsOf(aug);
      ghost var p, q := perm, inv;
      var ok;
      ok, perm, inv := EliminateColumn(aug, col, perm, inv);
      if !ok {
        TinyPivot(a, m1, col, p, q);
        if col == 0 {
          forall i | 0 <= i < n ensures Norm(a[i][0]) <= TINY { assert m1[i][0] == a[i][0] == aug[i, 0]; }
        }
        return None;
      }
      SameKernelTransitive(m0, m1, RowsOf(aug), 2 * n);
    }
    InverseFromReduced(a, RowsOf(aug));
    var b := seq(n, i requires 0 <= i < n reads aug => seq(n, j requires 0 <= j < n reads aug => aug[i, n + j]));
    SameMatrix(b, RightHalf(RowsOf(aug), n), n);
    return Some(b);
  }

  lemma ReducedAtFirst(g: Mat)
    ensures Reduced(g, 0)
  {
  }

  lemma UnusedAtFirst(a: Mat, id: seq<nat>)
    requires Shape(a, |a|, |a|) && |id| == |a| && forall i | 0 <= i < |a| :: id[i] == i
    ensures Unused(Augmented(a), |a|, 0, id, id)
  {
  }

  lemma PermutationInRange(g: Mat, n: nat, col: nat, perm: seq<nat>, inv: seq<nat>)
    requires Shape(g, n, 2 * n) && Unused(g, n, col, perm, inv)
    ensures |perm| == n == |inv| && forall r | 0 <= r < n :: perm[r] < n
  {
  }
}
