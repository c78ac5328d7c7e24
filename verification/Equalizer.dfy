/** Zero-forcing, MMSE and regularised linear equalisation of one sample. */
module Equalizer {
  import opened Common
  import opened ComplexNumbers
  import opened ComplexMatrix

  datatype EqualizerType = ZF | MMSE | RZF

  datatype EqualizerConfig = EqualizerConfig(kind: EqualizerType, noiseVar: real, rzfDelta: real)

  function Regularisation(cfg: EqualizerConfig): real {
    match cfg.kind
    case ZF => 0.0
    case MMSE => cfg.noiseVar
    case RZF => cfg.rzfDelta
  }

  // ---------------------------------------------------------------- sums

  function At(a: Vec, i: nat): Complex { if i < |a| then a[i] else ZERO }

  lemma {:induction false} DotIsSum(a: Vec, b: Vec, n: nat)
    requires n <= |a| && n <= |b|
    ensures Dot(a, b, n) == Sum((i: nat) => Mul(At(a, i), At(b, i)), n)
  {
    hide Mul;
    if n > 0 { DotIsSum(a, b, n - 1); }
  }

  lemma DotSumOf(a: Vec, b: Vec, f: nat -> Complex, n: nat)
    requires n == |a| == |b| && forall i: nat | i < n :: f(i) == Mul(a[i], b[i])
    ensures Dot(a, b, n) == Sum(f, n)
  {
    hide Mul;
    DotIsSum(a, b, n);
    SumEqual((i: nat) => Mul(At(a, i), At(b, i)), f, n);
  }

  /** (sum_k a_k b_k) c as one sum. */
  lemma DotTimes(a: Vec, b: Vec, c: Complex, f: nat -> Complex, n: nat)
    requires n == |a| == |b| && forall i: nat | i < n :: f(i) == Mul(c, Mul(a[i], b[i]))
    ensures Mul(c, Dot(a, b, n)) == Sum(f, n)
  {
    hide Mul;
    var g := (i: nat) => Mul(At(a, i), At(b, i));
    DotIsSum(a, b, n);
    SumEqual((i: nat) => Mul(At(a, i), At(b, i)), g, n);
    SumTimes(c, g, n);
    SumEqual((i: nat) => Mul(c, g(i)), f, n);
  }

  function Entry(b: Mat, k: nat, j: nat): Complex { if k < |b| && j < |b[k]| then b[k][j] else ZERO }

  function Term(a: Vec, b: Mat, x: Vec, j: nat, k: nat): Complex {
    Mul(At(a, k), Mul(Entry(b, k, j), At(x, j)))
  }

  lemma TermsByColumn(a: Vec, b: Mat, x: Vec, j: nat)
    requires Shape(b, |a|, |x|) && j < |x|
    ensures Mul(Dot(a, Column(b, j), |a|), x[j]) == Sum((k: nat) => Term(a, b, x, j, k), |a|)
  {
    hide Mul, Dot, Sum;
    var m, col := |a|, Column(b, j);
    forall k: nat | k < m ensures Term(a, b, x, j, k) == Mul(x[j], Mul(a[k], col[k])) {
      MulLaws(a[k], b[k][j], x[j]);
      MulLaws(Mul(a[k], b[k][j]), x[j], ONE);
    }
    DotTimes(a, col, x[j], (k: nat) => Term(a, b, x, j, k), m);
    MulLaws(Dot(a, col, m), x[j], ONE);
  }

  lemma TermsByRow(a: Vec, b: Mat, x: Vec, k: nat)
    requires Shape(b, |a|, |x|) && k < |a|
    ensures Mul(a[k], Dot(b[k], x, |x|)) == Sum((j: nat) => Term(a, b, x, j, k), |x|)
  {
    hide Mul, Dot, Sum;
    DotTimes(b[k], x, a[k], (j: nat) => Term(a, b, x, j, k), |x|);
  }

  /** sum_j (sum_k a_k b_kj) x_j = sum_k a_k (sum_j b_kj x_j) */
  lemma ExchangeSums(a: Vec, b: Mat, x: Vec, u: Vec, v: Vec)
    requires Shape(b, |a|, |x|) && |u| == |x| && |v| == |a|
    requires forall j | 0 <= j < |x| :: u[j] == Dot(a, Column(b, j), |a|)
    requires forall k | 0 <= k < |a| :: v[k] == Dot(b[k], x, |x|)
    ensures Dot(u, x, |x|) == Dot(a, v, |a|)
  {
    hide Mul, Dot, Sum, Term;
    var m, n := |a|, |x|;
    var f := (j: nat, k: nat) => Term(a, b, x, j, k);
    var g := (j: nat) => Sum((k: nat) => f(j, k), m);
    var h := (k: nat) => Sum((j: nat) => f(j, k), n);
    forall j: nat | j < n ensures g(j) == Mul(u[j], x[j]) {
      TermsByColumn(a, b, x, j);
      SumEqual((k: nat) => Term(a, b, x, j, k), (k: nat) => f(j, k), m);
    }
    forall k: nat | k < m ensures h(k) == Mul(a[k], v[k]) {
      TermsByRow(a, b, x, k);
      SumEqual((j: nat) => Term(a, b, x, j, k), (j: nat) => f(j, k), n);
    }
    DotSumOf(u, x, g, n);
    DotSumOf(a, v, h, m);
    SumSwap(f, n, m);
    SumEqual((j: nat) => Sum((k: nat) => f(j, k), m), g, n);
    SumEqual((k: nat) => Sum((j: nat) => f(j, k), n), h, m);
  }

  /** A product of matrices acts as the composition. */
  lemma MvMul(a: Mat, b: Mat, c: nat, x: Vec)
    requires Shape(a, |a|, |b|) && Shape(b, |b|, c) && |x| == c
    ensures Mv(MatMul(a, b, c), x) == Mv(a, Mv(b, x))
  {
    hide Dot;
    forall i | 0 <= i < |a| ensures Mv(MatMul(a, b, c), x)[i] == Mv(a, Mv(b, x))[i] {
      ExchangeSums(a[i], b, x, MatMul(a, b, c)[i], Mv(b, x));
    }
  }

  function AddVec(a: Vec, b: Vec): (c: Vec)
    requires |a| == |b|
    ensures |c| == |a|
  {
    seq(|a|, i requires 0 <= i < |a| => Add(a[i], b[i]))
  }

  function SubVec(a: Vec, b: Vec): (c: Vec)
    requires |a| == |b|
    ensures |c| == |a|
  {
    seq(|a|, i requires 0 <= i < |a| => Sub(a[i], b[i]))
  }

  function StretchVec(a: Vec, s: real): (c: Vec)
    ensures |c| == |a|
  {
    seq(|a|, i requires 0 <= i < |a| => Stretch(a[i], s))
  }

  lemma {:induction false} DotSub(a: Vec, x: Vec, y: Vec, n: nat)
    requires n <= |a| && n <= |x| == |y|
    ensures Dot(a, SubVec(x, y), n) == Sub(Dot(a, x, n), Dot(a, y, n))
  {
    hide Mul;
    if n > 0 {
      DotSub(a, x, y, n - 1);
      MulLaws(a[n - 1], x[n - 1], y[n - 1]);
    }
  }

  lemma MvSub(a: Mat, x: Vec, y: Vec)
    requires Shape(a, |a|, |x|) && |x| == |y|
    ensures Mv(a, SubVec(x, y)) == SubVec(Mv(a, x), Mv(a, y))
  {
    hide Dot;
    forall i | 0 <= i < |a| { DotSub(a[i], x, y, |x|); }
  }

  // ---------------------------------------------------------------- the regularised normal matrix

  /** H^H H + reg I */
  function NormalMatrix(h: Mat, nTx: nat, reg: real): (g: Mat)
    requires Shape(h, |h|, nTx)
    ensures Shape(g, nTx, nTx)
  {
    var gram := MatMul(Herm(h, nTx), h, nTx);
    seq(nTx, i requires 0 <= i < nTx => seq(nTx, j requires 0 <= j < nTx =>
      Add(gram[i][j], if i == j then Complex(reg, 0.0) else ZERO)))
  }

  lemma {:induction false} DotShifted(a: Vec, b: Vec, i: nat, reg: real, x: Vec, n: nat)
    requires n <= |a| == |b| == |x|
    requires forall j | 0 <= j < |a| :: b[j] == Add(a[j], if i == j then Complex(reg, 0.0) else ZERO)
    ensures Dot(b, x, n) == Add(Dot(a, x, n), if i < n then Stretch(x[i], reg) else ZERO)
  {
    hide Mul;
    if n > 0 {
      DotShifted(a, b, i, reg, x, n - 1);
      var j, r := n - 1, if i == n - 1 then Complex(reg, 0.0) else ZERO;
      MulLaws(x[j], a[j], r);
      MulLaws(x[j], b[j], ONE);
      MulLaws(a[j], x[j], ONE);
      MulUnits(x[j]);
      StretchIsMul(x[j], reg);
    }
  }

  lemma StretchIsMul(c: Complex, r: real)
    ensures Mul(c, Complex(r, 0.0)) == Stretch(c, r)
  {
  }

  /** (H^H H + reg I) x = H^H (H x) + reg x */
  lemma NormalActs(h: Mat, nTx: nat, reg: real, x: Vec)
    requires Shape(h, |h|, nTx) && |x| == nTx
    ensures Mv(NormalMatrix(h, nTx, reg), x) == AddVec(Mv(Herm(h, nTx), Mv(h, x)), StretchVec(x, reg))
  {
    hide Dot, Mul;
    var gram := MatMul(Herm(h, nTx), h, nTx);
    MvMul(Herm(h, nTx), h, nTx, x);
    forall i | 0 <= i < nTx { DotShifted(gram[i], NormalMatrix(h, nTx, reg)[i], i, reg, x, nTx); }
  }

  // ---------------------------------------------------------------- least squares

  function ConjVec(a: Vec): (c: Vec)
    ensures |c| == |a|
  {
    seq(|a|, i requires 0 <= i < |a| => Conj(a[i]))
  }

  /** Sum of conj(u_i) v_i. */
  function Inner(u: Vec, v: Vec): Complex
    requires |u| == |v|
  {
    Dot(ConjVec(u), v, |u|)
  }

  lemma NormAdd(a: Complex, b: Complex)
    ensures Norm(Add(a, b)) == Norm(a) + 2.0 * Mul(Conj(b), a).re + Norm(b)
    ensures Norm(Sub(a, b)) == Norm(a) - 2.0 * Mul(Conj(b), a).re + Norm(b)
  {
  }

  lemma {:induction false} EnergyExpand(a: Vec, b: Vec, n: nat)
    requires n <= |a| == |b|
    ensures Energy(AddVec(a, b), n) == Energy(a, n) + 2.0 * Dot(ConjVec(b), a, n).re + Energy(b, n)
    ensures Energy(SubVec(a, b), n) == Energy(a, n) - 2.0 * Dot(ConjVec(b), a, n).re + Energy(b, n)
  {
    hide Mul, Norm;
    if n > 0 {
      EnergyExpand(a, b, n - 1);
      NormAdd(a[n - 1], b[n - 1]);
    }
  }

  lemma {:induction false} ConjDot(a: Vec, b: Vec, n: nat)
    requires n <= |a| && n <= |b|
    ensures Conj(Dot(a, b, n)) == Dot(ConjVec(a), ConjVec(b), n)
  {
    hide Mul;
    if n > 0 {
      ConjDot(a, b, n - 1);
      ConjMul(a[n - 1], b[n - 1]);
    }
  }

  lemma ConjMul(a: Complex, b: Complex)
    ensures Conj(Mul(a, b)) == Mul(Conj(a), Conj(b))
  {
  }

  /** <H d, r> = <d, H^H r> */
  lemma Adjoint(h: Mat, d: Vec, r: Vec)
    requires Shape(h, |h|, |d|) && |r| == |h|
    ensures Inner(Mv(h, d), r) == Inner(d, Mv(Herm(h, |d|), r))
  {
    hide Dot, Mul;
    var hh := Herm(h, |d|);
    forall j | 0 <= j < |h| ensures ConjVec(Mv(h, d))[j] == Dot(ConjVec(d), Column(hh, j), |d|) {
      ConjDot(h[j], d, |d|);
      DotCommutes(ConjVec(h[j]), ConjVec(d), |d|);
      assert Column(hh, j) == ConjVec(h[j]);
    }
    ExchangeSums(ConjVec(d), hh, r, ConjVec(Mv(h, d)), Mv(hh, r));
  }

  lemma {:induction false} DotCommutes(a: Vec, b: Vec, n: nat)
    requires n <= |a| && n <= |b|
    ensures Dot(a, b, n) == Dot(b, a, n)
  {
    hide Mul;
    if n > 0 {
      DotCommutes(a, b, n - 1);
      MulLaws(a[n - 1], b[n - 1], ONE);
    }
  }

  lemma {:induction false} InnerStretch(u: Vec, v: Vec, s: real, n: nat)
    requires n <= |u| && n <= |v|
    ensures Dot(u, StretchVec(v, s), n) == Stretch(Dot(u, v, n), s)
  {
    if n > 0 {
      InnerStretch(u, v, s, n - 1);
      StretchRight(u[n - 1], v[n - 1], s);
      StretchAdd(Dot(u, v, n - 1), Mul(u[n - 1], v[n - 1]), s);
    }
  }

  lemma StretchRight(a: Complex, b: Complex, s: real)
    ensures Mul(a, Stretch(b, s)) == Stretch(Mul(a, b), s)
  {
  }

  lemma StretchAdd(a: Complex, b: Complex, s: real)
    ensures Stretch(Add(a, b), s) == Add(Stretch(a, s), Stretch(b, s))
  {
  }

  /** ||y - H x||^2 + reg ||x||^2 */
  function Cost(h: Mat, y: Vec, reg: real, x: Vec): real
    requires Shape(h, |h|, |x|) && |y| == |h|
  {
    Energy(SubVec(y, Mv(h, x)), |y|) + reg * Energy(x, |x|)
  }

  /** x solves the regularised normal equations. */
  ghost predicate SolvesNormal(h: Mat, y: Vec, reg: real, x: Vec)
    requires Shape(h, |h|, |x|) && |y| == |h|
  {
    Mv(NormalMatrix(h, |x|, reg), x) == Mv(Herm(h, |x|), y)
  }

  /** Around a solution of the normal equations the cost is a sum of squares, so the solution is a
      minimum whenever reg >= 0. */
  lemma LeastSquares(h: Mat, y: Vec, reg: real, best: Vec, d: Vec)
    requires Shape(h, |h|, |best|) && |y| == |h| && |d| == |best| && SolvesNormal(h, y, reg, best)
    ensures Cost(h, y, reg, SubVec(best, d)) == Cost(h, y, reg, best) + Energy(Mv(h, d), |y|) + reg * Energy(d, |d|)
    ensures reg >= 0.0 ==> Cost(h, y, reg, SubVec(best, d)) >= Cost(h, y, reg, best)
  {
    hide Dot, Mul, Energy, Mv, Herm, NormalMatrix, SolvesNormal;
    var n, m := |best|, |y|;
    var hd, r, x := Mv(h, d), SubVec(y, Mv(h, best)), SubVec(best, d);
    MvSub(h, best, d);
    ResidualMoves(y, Mv(h, best), hd);
    hide AddVec, SubVec;
    EnergyExpand(r, hd, m);
    EnergyExpand(best, d, n);
    CrossTerms(h, y, reg, best, d);
    EnergyNonNegative(hd, m);
    EnergyNonNegative(d, n);
    CompleteSquare(Energy(r, m), Dot(ConjVec(hd), r, m).re, Energy(hd, m), reg,
                   Energy(best, n), Dot(ConjVec(d), best, n).re, Energy(d, n));
  }

  lemma ResidualMoves(y: Vec, a: Vec, b: Vec)
    requires |y| == |a| == |b|
    ensures SubVec(y, SubVec(a, b)) == AddVec(SubVec(y, a), b)
  {
  }

  lemma CompleteSquare(r: real, q: real, hd: real, reg: real, b: real, p: real, e: real)
    requires e >= 0.0 && hd >= 0.0 && q == reg * p
    ensures (r + 2.0 * q + hd) + reg * (b - 2.0 * p + e) == (r + reg * b) + hd + reg * e
    ensures reg >= 0.0 ==> hd + reg * e >= 0.0
  {
  }

  /** <H d, y - H x> = reg <d, x> at a solution x of the normal equations. */
  lemma CrossTerms(h: Mat, y: Vec, reg: real, best: Vec, d: Vec)
    requires Shape(h, |h|, |best|) && |y| == |h| && |d| == |best| && SolvesNormal(h, y, reg, best)
    ensures Dot(ConjVec(Mv(h, d)), SubVec(y, Mv(h, best)), |y|).re == reg * Dot(ConjVec(d), best, |d|).re
  {
    hide Dot, Mul;
    var n := |best|;
    var hh, r := Herm(h, n), SubVec(y, Mv(h, best));
    Adjoint(h, d, r);
    MvSub(hh, y, Mv(h, best));
    NormalActs(h, n, reg, best);
    assert Mv(hh, r) == StretchVec(best, reg) by {
      forall i | 0 <= i < n ensures Mv(hh, r)[i] == StretchVec(best, reg)[i] {
        assert Mv(NormalMatrix(h, n, reg), best)[i] == Mv(hh, y)[i];
      }
    }
    InnerStretch(ConjVec(d), best, reg, n);
  }

  /** No other vector costs less. */
  lemma MinimisesCost(h: Mat, y: Vec, reg: real, best: Vec)
    requires Shape(h, |h|, |best|) && |y| == |h| && SolvesNormal(h, y, reg, best) && reg >= 0.0
    ensures forall x: Vec | |x| == |best| :: Cost(h, y, reg, best) <= Cost(h, y, reg, x)
  {
    hide Cost, SolvesNormal;
    forall x: Vec | |x| == |best| ensures Cost(h, y, reg, best) <= Cost(h, y, reg, x) {
      LeastSquares(h, y, reg, best, SubVec(best, x));
      assert SubVec(best, SubVec(best, x)) == x;
    }
  }

  // ---------------------------------------------------------------- the program

  method MatMulLoop(a: Mat, b: Mat, c: nat) returns (p: Mat)
    requires Shape(a, |a|, |b|) && Shape(b, |b|, c)
    ensures p == MatMul(a, b, c)
  {
    hide Mul, Add;
    var out := new Complex[|a|, c]((i, j) => ZERO);
    for i := 0 to |a|
      invariant forall r, j | 0 <= r < |a| && 0 <= j < c :: out[r, j] == if r < i then MatMul(a, b, c)[r][j] else ZERO
    {
      for k := 0 to |b|
        invariant forall r, j | 0 <= r < |a| && 0 <= j < c && r != i ::
          out[r, j] == if r < i then MatMul(a, b, c)[r][j] else ZERO
        invariant forall j | 0 <= j < c :: out[i, j] == Dot(a[i], Column(b, j), k)
      {
        for j := 0 to c
          invariant forall r, q | 0 <= r < |a| && 0 <= q < c && r != i ::
            out[r, q] == if r < i then MatMul(a, b, c)[r][q] else ZERO
          invariant forall q | 0 <= q < c :: out[i, q] == Dot(a[i], Column(b, q), if q < j then k + 1 else k)
        {
          out[i, j] := Add(out[i, j], Mul(a[i][k], b[k][j]));
        }
      }
    }
    p := seq(|a|, i requires 0 <= i < |a| reads out => seq(c, j requires 0 <= j < c reads out => out[i, j]));
    SameRows(p, MatMul(a, b, c), |a|, c);
  }

  method MatVecLoop(a: Mat, x: Vec) returns (y: Vec)
    requires Shape(a, |a|, |x|)
    ensures y == Mv(a, x)
  {
    hide Mul, Add;
    var out := new Complex[|a|](_ => ZERO);
    for i := 0 to |a|
      invariant forall r | 0 <= r < |a| :: out[r] == if r < i then Dot(a[r], x, |x|) else ZERO
    {
      for j := 0 to |x|
        invariant forall r | 0 <= r < |a| && r != i :: out[r] == if r < i then Dot(a[r], x, |x|) else ZERO
        invariant out[i] == Dot(a[i], x, j)
      {
        out[i] := Add(out[i], Mul(a[i][j], x[j]));
      }
    }
    y := out[..];
  }

  /** The Gram matrix, with the regularisation added to its diagonal unless it is zero. */
  method BuildNormal(h: Mat, hh: Mat, nTx: nat, reg: real) returns (g: Mat)
    requires Shape(h, |h|, nTx) && hh == Herm(h, nTx)
    ensures g == NormalMatrix(h, nTx, reg)
  {
    hide Dot, MatMul, Mul, Herm;
    var gram := MatMulLoop(hh, h, nTx);
    g := gram;
    if reg != 0.0 {
      g := seq(nTx, (i: nat) requires i < nTx => seq(nTx, (j: nat) requires j < nTx =>
        Add(gram[i][j], if i == j then Complex(reg, 0.0) else ZERO)));
    }
    SameMatrix(g, NormalMatrix(h, nTx, reg), nTx);
  }

  /** best is the one solution of the normal equations with regularisation reg; for reg >= 0 no other
      vector has a smaller ||y - H x||^2 + reg ||x||^2. */
  ghost predicate IsBestFit(h: Mat, y: Vec, reg: real, best: Vec)
    requires Shape(h, |h|, |best|) && |y| == |h|
  {
    && OnlySolution(h, y, reg, best)
    && (reg >= 0.0 ==> forall x: Vec | |x| == |best| :: Cost(h, y, reg, best) <= Cost(h, y, reg, x))
  }

  /** One received sample y through an nRx by nTx channel. A result, when there is one, is the only
      solution of the normal equations, plain for zero forcing and regularised by the noise variance or
      by the chosen delta for the other two. */
  method EqualizeSample(y: Vec, h: Mat, nRx: int, nTx: int, cfg: EqualizerConfig) returns (r: Option<Vec>)
    ensures r.Some? ==> 1 <= nTx <= 4 && 1 <= nRx <= 4 && |y| == nRx && Shape(h, nRx, nTx)
    ensures r.None? && 1 <= nTx <= 4 && 1 <= nRx <= 4 && |y| == nRx && Shape(h, nRx, nTx) ==>
      match cfg.kind
      case ZF => NearlySingular(NormalMatrix(h, nTx, 0.0))
      case MMSE => NearlySingular(NormalMatrix(h, nTx, cfg.noiseVar))
      case RZF => NearlySingular(NormalMatrix(h, nTx, cfg.rzfDelta))
    ensures r.Some? ==> |r.value| == nTx
    ensures r.Some? && cfg.kind == ZF ==> IsBestFit(h, y, 0.0, r.value)
    ensures r.Some? && cfg.kind == MMSE ==> IsBestFit(h, y, cfg.noiseVar, r.value)
    ensures r.Some? && cfg.kind == RZF ==> IsBestFit(h, y, cfg.rzfDelta, r.value)
    ensures r.Some? && cfg.kind == ZF ==> forall x: Vec | |x| == nTx && y == Mv(h, x) :: x == r.value
  {
    hide Dot, MatMul, Mul, IsBestFit, NearlySingular, NormalMatrix, Mv;
    if |y| != nRx || |h| != nRx || exists i | 0 <= i < |h| :: |h[i]| != nTx { return None; }
    if !(nTx >= 1 && nTx <= 4 && nRx >= 1 && nRx <= 4) { return None; }
    r := EqualizeWith(y, h, nTx, Regularisation(cfg));
  }

  /** The same for a given regularisation. */
  method EqualizeWith(y: Vec, h: Mat, nTx: nat, reg: real) returns (r: Option<Vec>)
    requires Shape(h, |h|, nTx) && |y| == |h|
    ensures r.None? ==> NearlySingular(NormalMatrix(h, nTx, reg))
    ensures r.Some? ==> |r.value| == nTx && IsBestFit(h, y, reg, r.value)
    ensures r.Some? && reg == 0.0 ==> forall x: Vec | |x| == nTx && y == Mv(h, x) :: x == r.value
  {
    hide Dot, MatMul, Mul, IsBestFit;
    var hh := Herm(h, nTx);
    var g := BuildNormal(h, hh, nTx, reg);
    var inv := MatInv(g);
    if inv.None? { return None; }
    var w := MatMulLoop(inv.value, hh, |h|);
    var x := MatVecLoop(w, y);
    MvMul(inv.value, hh, |h|, y);
    InverseSolves(g, inv.value, Mv(hh, y));
    SolutionIsBest(h, y, reg, x);
    return Some(x);
  }

  ghost predicate OnlySolution(h: Mat, y: Vec, reg: real, best: Vec)
    requires Shape(h, |h|, |best|) && |y| == |h|
  {
    forall x: Vec | |x| == |best| :: SolvesNormal(h, y, reg, x) <==> x == best
  }

  lemma SolutionIsBest(h: Mat, y: Vec, reg: real, best: Vec)
    requires Shape(h, |h|, |best|) && |y| == |h|
    ensures OnlySolution(h, y, reg, best) ==> IsBestFit(h, y, reg, best)
    ensures OnlySolution(h, y, reg, best) && reg == 0.0 ==>
      forall x: Vec | |x| == |best| && y == Mv(h, x) :: x == best
  {
    hide SolvesNormal, Cost, Mv;
    if OnlySolution(h, y, reg, best) {
      if reg >= 0.0 { MinimisesCost(h, y, reg, best); }
      forall x: Vec | |x| == |best| && y == Mv(h, x) && reg == 0.0 ensures x == best { NoiselessSolves(h, x); }
    }
  }

  /** Multiplying by the inverse gives the one solution. */
  lemma InverseSolves(g: Mat, inv: Mat, b: Vec)
    requires IsInverse(g, inv) && |b| == |g|
    ensures forall x: Vec | |x| == |g| :: Mv(g, x) == b <==> x == Mv(inv, b)
  {
    hide Dot, MatMul;
    var n := |g|;
    MvMul(g, inv, n, b);
    MvEye(b);
    forall x: Vec | |x| == n ensures Mv(inv, Mv(g, x)) == x {
      MvMul(inv, g, n, x);
      MvEye(x);
    }
  }

  lemma MvEye(x: Vec)
    ensures Mv(Eye(|x|), x) == x
  {
    hide Dot;
    var n := |x|;
    forall i | 0 <= i < n ensures Mv(Eye(n), x)[i] == x[i] { DotUnit(x, n, i, n); }
  }

  /** Without regularisation and without noise, the transmitted vector is the solution. */
  lemma NoiselessSolves(h: Mat, x: Vec)
    requires Shape(h, |h|, |x|)
    ensures SolvesNormal(h, Mv(h, x), 0.0, x)
  {
    hide Dot, Mul, NormalMatrix;
    NormalActs(h, |x|, 0.0, x);
    var u := Mv(Herm(h, |x|), Mv(h, x));
    forall i | 0 <= i < |x| ensures AddVec(u, StretchVec(x, 0.0))[i] == u[i] {
      assert Stretch(x[i], 0.0) == ZERO;
    }
  }

  /** <x, (H^H H + reg I) x> = ||H x||^2 + reg ||x||^2 */
  lemma QuadraticForm(h: Mat, reg: real, x: Vec)
    requires Shape(h, |h|, |x|)
    ensures Inner(x, Mv(NormalMatrix(h, |x|, reg), x)).re == Energy(Mv(h, x), |h|) + reg * Energy(x, |x|)
  {
    hide Dot, Mul, Norm, Energy, Mv, Herm, NormalMatrix;
    var n := |x|;
    var u := Mv(Herm(h, n), Mv(h, x));
    NormalActs(h, n, reg, x);
    GramForm(h, x);
    SplitForm(x, u, reg, Energy(Mv(h, x), |h|));
  }

  lemma GramForm(h: Mat, x: Vec)
    requires Shape(h, |h|, |x|)
    ensures Inner(x, Mv(Herm(h, |x|), Mv(h, x))) == Complex(Energy(Mv(h, x), |h|), 0.0)
  {
    hide Dot, Energy, Herm;
    Adjoint(h, x, Mv(h, x));
    InnerSelf(Mv(h, x), |h|);
  }

  lemma SplitForm(x: Vec, u: Vec, reg: real, p: real)
    requires |u| == |x| && Inner(x, u) == Complex(p, 0.0)
    ensures Inner(x, AddVec(u, StretchVec(x, reg))).re == p + reg * Energy(x, |x|)
  {
    hide Dot, Energy;
    var n := |x|;
    DotAdd(ConjVec(x), u, StretchVec(x, reg), n);
    InnerStretch(ConjVec(x), x, reg, n);
    InnerSelf(x, n);
  }

  lemma {:induction false} InnerSelf(v: Vec, n: nat)
    requires n <= |v|
    ensures Dot(ConjVec(v), v, n) == Complex(Energy(v, n), 0.0)
  {
    if n > 0 { InnerSelf(v, n - 1); }
  }

  lemma {:induction false} DotAdd(a: Vec, x: Vec, y: Vec, n: nat)
    requires n <= |a| && n <= |x| == |y|
    ensures Dot(a, AddVec(x, y), n) == Add(Dot(a, x, n), Dot(a, y, n))
  {
    hide Mul;
    if n > 0 {
      DotAdd(a, x, y, n - 1);
      MulLaws(a[n - 1], x[n - 1], y[n - 1]);
    }
  }

  lemma {:induction false} EnergyStretch(x: Vec, s: real, n: nat)
    requires n <= |x|
    ensures Energy(StretchVec(x, s), n) == s * s * Energy(x, n)
  {
    hide Norm;
    if n > 0 {
      EnergyStretch(x, s, n - 1);
      NormStretch(x[n - 1], s);
      Distributes(s * s, Energy(x, n - 1), Norm(x[n - 1]));
    }
  }

  lemma Distributes(a: real, b: real, c: real)
    ensures a * (b + c) == a * b + a * c
  {
  }

  lemma NormStretch(z: Complex, s: real)
    ensures Norm(Stretch(z, s)) == s * s * Norm(z)
    ensures Conj(Stretch(z, s)) == Stretch(Conj(z), s)
  {
  }

  /** Positive regularisation keeps the normal matrix away from singularity: reg ||x|| <= ||A x||. */
  lemma Coercive(h: Mat, reg: real, x: Vec)
    requires Shape(h, |h|, |x|) && reg > 0.0
    ensures reg * reg * Energy(x, |x|) <= Energy(Mv(NormalMatrix(h, |x|, reg), x), |x|)
  {
    hide Dot, Mul, Energy, NormalMatrix, Mv, Norm;
    var n, y := |x|, Mv(NormalMatrix(h, |x|, reg), x);
    var b := StretchVec(x, reg);
    EnergyExpand(y, b, n);
    EnergyNonNegative(SubVec(y, b), n);
    EnergyNonNegative(Mv(h, x), |h|);
    EnergyStretch(x, reg, n);
    QuadraticForm(h, reg, x);
    assert Dot(ConjVec(b), y, n) == Stretch(Inner(x, y), reg) by {
      forall i | 0 <= i < n { NormStretch(x[i], reg); }
      assert ConjVec(b) == StretchVec(ConjVec(x), reg);
      DotCommutes(ConjVec(b), y, n);
      InnerStretch(y, ConjVec(x), reg, n);
      DotCommutes(y, ConjVec(x), n);
    }
    CoerciveArithmetic(reg, Energy(x, n), Energy(y, n), Energy(Mv(h, x), |h|), Inner(x, y).re);
  }

  lemma CoerciveArithmetic(reg: real, ex: real, ey: real, eh: real, p: real)
    requires reg > 0.0 && eh >= 0.0 && p == eh + reg * ex && ey - 2.0 * (p * reg) + reg * reg * ex >= 0.0
    ensures reg * reg * ex <= ey
  {
    assert p * reg == eh * reg + reg * reg * ex;
    assert eh * reg >= 0.0;
  }

  /** With more than 2e-14 of regularisation no channel of admissible size is ever rejected. */
  lemma RegularisedAccepted(h: Mat, nTx: nat, reg: real)
    requires Shape(h, |h|, nTx) && 1 <= nTx <= 4 && reg > 0.00000000000002
    ensures !NearlySingular(NormalMatrix(h, nTx, reg))
  {
    hide Energy, Mv;
    forall x: Vec | |x| == nTx && Energy(x, nTx) >= 1.0
      ensures Energy(Mv(NormalMatrix(h, nTx, reg), x), nTx) > nTx as real * TINY
    {
      Coercive(h, reg, x);
      SquareBound(reg, Energy(x, nTx));
    }
  }

  lemma SquareBound(reg: real, e: real)
    requires reg > 0.00000000000002 && e >= 1.0
    ensures reg * reg * e > 4.0 * TINY
  {
    var c := 0.00000000000002;
    assert reg * reg > c * c by { assert reg * reg > reg * c; }
    assert reg * reg * e >= reg * reg;
  }
}
