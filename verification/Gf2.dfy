/** Linear algebra over GF(2), and the in-place Gauss-Jordan elimination used by the LDPC encoder. */
module Gf2 {
  import opened Common

  type Matrix = seq<Bits>

  ghost predicate Square(a: Matrix, n: nat) {
    |a| == n && forall r | 0 <= r < n :: |a[r]| == n
  }

  /** Parity of the first n products. */
  function Dot(a: Bits, x: Bits, n: nat): bool
    requires n <= |a| && n <= |x|
  {
    if n == 0 then false else Dot(a, x, n - 1) != (a[n - 1] && x[n - 1])
  }

  ghost predicate Solves(a: Matrix, b: Bits, x: Bits)
    requires Square(a, |b|) && |x| == |b|
  {
    forall r | 0 <= r < |b| :: Dot(a[r], x, |b|) == b[r]
  }

  /** The matrix has trivial kernel. */
  ghost predicate Nonsingular(a: Matrix, n: nat)
    requires Square(a, n)
  {
    forall x: Bits | |x| == n && Solves(a, Zeros(n), x) :: x == Zeros(n)
  }

  /** The two systems, and their homogeneous versions, have the same solutions. */
  ghost predicate Equivalent(a: Matrix, b: Bits, a': Matrix, b': Bits)
    requires Square(a, |b|) && Square(a', |b'|) && |b| == |b'|
  {
    forall x: Bits | |x| == |b| ::
      && (Solves(a, b, x) <==> Solves(a', b', x))
      && (Solves(a, Zeros(|b|), x) <==> Solves(a', Zeros(|b|), x))
  }

  // ---------------------------------------------------------------- parity sums

  lemma {:induction false} DotXor(a: Bits, x: Bits, y: Bits, n: nat)
    requires n <= |a| && n <= |x| && |x| == |y|
    ensures Dot(a, XorBits(x, y), n) == (Dot(a, x, n) != Dot(a, y, n))
  {
    if n > 0 { DotXor(a, x, y, n - 1); }
  }

  lemma {:induction false} DotCommutes(a: Bits, x: Bits, n: nat)
    requires n <= |a| && n <= |x|
    ensures Dot(a, x, n) == Dot(x, a, n)
  {
    if n > 0 { DotCommutes(a, x, n - 1); }
  }

  lemma {:induction false} DotAgree(a: Bits, b: Bits, x: Bits, y: Bits, n: nat)
    requires n <= |a| && n <= |x| && n <= |b| && n <= |y|
    requires forall i | 0 <= i < n :: (a[i] && x[i]) == (b[i] && y[i])
    ensures Dot(a, x, n) == Dot(b, y, n)
  {
    if n > 0 { DotAgree(a, b, x, y, n - 1); }
  }

  /** A row with a single 1 at position c picks out x[c]. */
  lemma {:induction false} DotUnit(a: Bits, x: Bits, n: nat, c: nat)
    requires n <= |a| && n <= |x|
    requires forall i | 0 <= i < n :: a[i] == (i == c)
    ensures Dot(a, x, n) == (c < n && x[c])
  {
    if n > 0 { DotUnit(a, x, n - 1, c); }
  }

  /** Splitting a parity sum at position k. */
  lemma {:induction false} DotSplit(a: Bits, x: Bits, k: nat, n: nat)
    requires k + n <= |a| && k + n <= |x|
    ensures Dot(a, x, k + n) == (Dot(a, x, k) != Dot(a[k..], x[k..], n))
  {
    if n > 0 { DotSplit(a, x, k, n - 1); }
  }

  // ---------------------------------------------------------------- row operations

  lemma SwapKeepsSolutions(a: Matrix, b: Bits, i: nat, j: nat)
    requires Square(a, |b|) && i < |b| && j < |b|
    ensures Equivalent(a, b, a[i := a[j]][j := a[i]], b[i := b[j]][j := b[i]])
  {
    var n := |b|;
    var a', b' := a[i := a[j]][j := a[i]], b[i := b[j]][j := b[i]];
    forall x: Bits, c: Bits | |x| == n && |c| == n
      ensures Solves(a, c, x) <==> Solves(a', c[i := c[j]][j := c[i]], x)
    {
      var c' := c[i := c[j]][j := c[i]];
      if Solves(a', c', x) {
        forall r | 0 <= r < n ensures Dot(a[r], x, n) == c[r] {
          var r' := if r == i then j else if r == j then i else r;
          assert a'[r'] == a[r] && c'[r'] == c[r];
        }
      }
    }
    assert Zeros(n)[i := Zeros(n)[j]][j := Zeros(n)[i]] == Zeros(n);
  }

  lemma AddRowKeepsSolutions(a: Matrix, b: Bits, dst: nat, src: nat)
    requires Square(a, |b|) && dst < |b| && src < |b| && dst != src
    ensures Equivalent(a, b, a[dst := XorBits(a[dst], a[src])], b[dst := b[dst] != b[src]])
  {
    var n := |b|;
    var a', b' := a[dst := XorBits(a[dst], a[src])], b[dst := b[dst] != b[src]];
    forall x: Bits, c: Bits | |x| == n && |c| == n
      ensures Solves(a, c, x) <==> Solves(a', c[dst := c[dst] != c[src]], x)
    {
      var c' := c[dst := c[dst] != c[src]];
      DotCommutes(XorBits(a[dst], a[src]), x, n);
      DotXor(x, a[dst], a[src], n);
      DotCommutes(a[dst], x, n);
      DotCommutes(a[src], x, n);
      assert Dot(a'[dst], x, n) == (Dot(a[dst], x, n) != Dot(a[src], x, n));
      if Solves(a', c', x) {
        assert a'[src] == a[src] && c'[src] == c[src] && c'[dst] == (c[dst] != c[src]);
        assert Dot(a'[src], x, n) == c'[src];
        forall r | 0 <= r < n ensures Dot(a[r], x, n) == c[r] {
          assert Dot(a'[r], x, n) == c'[r];
        }
      }
    }
    assert Zeros(n)[dst := Zeros(n)[dst] != Zeros(n)[src]] == Zeros(n);
  }

  /** The first n columns are those of the identity matrix. */
  ghost predicate Reduced(a: Matrix, n: nat) {
    forall r, c | 0 <= r < |a| && 0 <= c < n && c < |a[r]| :: a[r][c] == (r == c)
  }

  /** A fully reduced system determines its solution. */
  lemma IdentitySolution(a: Matrix, b: Bits)
    requires Square(a, |b|) && Reduced(a, |b|)
    ensures forall x: Bits | |x| == |b| :: Solves(a, b, x) <==> x == b
    ensures Nonsingular(a, |b|)
  {
    var n := |b|;
    forall x: Bits, c: Bits | |x| == n && |c| == n ensures Solves(a, c, x) <==> x == c {
      forall r | 0 <= r < n ensures Dot(a[r], x, n) == x[r] { DotUnit(a[r], x, n, r); }
    }
  }

  /** A column without a pivot yields a kernel vector. */
  lemma NoPivotSingular(a: Matrix, n: nat, col: nat)
    requires Square(a, n) && col < n && Reduced(a, col)
    requires forall r | col <= r < n :: !a[r][col]
    ensures !Nonsingular(a, n)
  {
    var x := seq(n, i requires 0 <= i < n => if i < col then a[i][col] else i == col);
    forall r | 0 <= r < n ensures !Dot(a[r], x, n) {
      // Only columns r (if r < col) and col contribute, and they cancel.
      DotKernelRow(a[r], x, r, col, n);
    }
    assert Solves(a, Zeros(n), x);
    assert x[col] && !Zeros(n)[col];
  }

  lemma {:induction false} DotKernelRow(row: Bits, x: Bits, r: nat, col: nat, n: nat)
    requires n <= |row| && |row| == |x| && col < |row|
    requires forall c | 0 <= c < col :: row[c] == (r == c)
    requires forall i | col < i < |x| :: !x[i]
    requires x[col] && (r < col ==> x[r] == row[col]) && (r >= col ==> !row[col])
    ensures Dot(row, x, n) == ((r < n && r < col && x[r]) != (col < n && row[col]))
  {
    if n > 0 { DotKernelRow(row, x, r, col, n - 1); }
  }

  lemma EquivalentTransitive(a: Matrix, b: Bits, a': Matrix, b': Bits, a'': Matrix, b'': Bits)
    requires Square(a, |b|) && Square(a', |b'|) && Square(a'', |b''|) && |b| == |b'| == |b''|
    ensures Equivalent(a, b, a', b') && Equivalent(a', b', a'', b'') ==> Equivalent(a, b, a'', b'')
  {
    forall x: Bits | |x| == |b| && Equivalent(a, b, a', b') && Equivalent(a', b', a'', b'')
      ensures (Solves(a, b, x) <==> Solves(a'', b'', x)) && (Solves(a, Zeros(|b|), x) <==> Solves(a'', Zeros(|b|), x))
    {
      assert Solves(a', b', x) <==> Solves(a, b, x);
    }
  }

  // ---------------------------------------------------------------- the elimination, in place

  /** The rows held by a two-dimensional array. */
  ghost function Rows(a: array2<bool>): (m: Matrix)
    reads a
    ensures |m| == a.Length0
    ensures forall r | 0 <= r < a.Length0 :: |m[r]| == a.Length1
    ensures forall r, c | 0 <= r < a.Length0 && 0 <= c < a.Length1 :: m[r][c] == a[r, c]
  {
    seq(a.Length0, r requires 0 <= r < a.Length0 reads a =>
      seq(a.Length1, c requires 0 <= c < a.Length1 reads a => a[r, c]))
  }

  lemma RowsAre(m: Matrix, m': Matrix, n: nat)
    requires Square(m, n) && Square(m', n)
    requires forall r, c | 0 <= r < n && 0 <= c < n :: m[r][c] == m'[r][c]
    ensures m == m'
  {
    forall r | 0 <= r < n ensures m[r] == m'[r] {
      assert forall c | 0 <= c < n :: m[r][c] == m'[r][c];
    }
  }

  method SwapRows(a: array2<bool>, i: nat, j: nat)
    requires a.Length0 == a.Length1 && i < a.Length0 && j < a.Length0
    modifies a
    ensures Rows(a) == old(Rows(a))[i := old(Rows(a))[j]][j := old(Rows(a))[i]]
  {
    ghost var was := Rows(a);
    for c := 0 to a.Length1
      invariant forall r, k | 0 <= r < a.Length0 && 0 <= k < a.Length1 ::
        a[r, k] == if k < c && r == j then was[i][k] else if k < c && r == i then was[j][k] else was[r][k]
    {
      a[i, c], a[j, c] := a[j, c], a[i, c];
    }
    RowsAre(Rows(a), was[i := was[j]][j := was[i]], a.Length0);
  }

  /** Adds row src to row dst, skipping the columns before `from`, where row src is already zero. */
  method AddRow(a: array2<bool>, dst: nat, src: nat, from: nat)
    requires a.Length0 == a.Length1 && dst < a.Length0 && src < a.Length0 && dst != src && from <= a.Length1
    requires forall c | 0 <= c < from :: !a[src, c]
    modifies a
    ensures Rows(a) == old(Rows(a))[dst := XorBits(old(Rows(a))[dst], old(Rows(a))[src])]
  {
    ghost var was := Rows(a);
    for c := from to a.Length1
      invariant forall r, k | 0 <= r < a.Length0 && 0 <= k < a.Length1 ::
        a[r, k] == if r == dst && k < c then was[r][k] != was[src][k] else was[r][k]
    {
      a[dst, c] := a[dst, c] != a[src, c];
    }
    RowsAre(Rows(a), was[dst := XorBits(was[dst], was[src])], a.Length0);
  }

  /** Adding pivot row col to row dst clears entry (dst, col) and disturbs no earlier column. */
  lemma ClearEntry(a: Matrix, n: nat, dst: nat, col: nat)
    requires Square(a, n) && dst < n && col < n && dst != col
    requires Reduced(a, col) && a[col][col] && a[dst][col]
    ensures var a' := a[dst := XorBits(a[dst], a[col])];
      Reduced(a', col) && a'[col] == a[col] && !a'[dst][col]
  {
  }

  /** Clears column col everywhere except in the pivot row. */
  method ClearColumn(a: array2<bool>, b: array<bool>, col: nat)
    requires a.Length0 == a.Length1 == b.Length && col < b.Length
    requires Reduced(Rows(a), col) && a[col, col]
    modifies a, b
    ensures Equivalent(old(Rows(a)), old(b[..]), Rows(a), b[..])
    ensures Reduced(Rows(a), col + 1)
  {
    hide Equivalent, XorBits;
    ghost var a0, b0 := Rows(a), b[..];
    ghost var m, v := a0, b0;
    EquivalentReflexive(m, v);
    for r := 0 to b.Length
      invariant m == Rows(a) && v == b[..]
      invariant Equivalent(a0, b0, m, v)
      invariant Reduced(m, col) && m[col][col]
      invariant forall i | 0 <= i < r && i != col :: !m[i][col]
    {
      if r == col || !a[r, col] { continue; }
      ghost var m1, v1 := m, v;
      ClearEntry(m1, |v1|, r, col);
      AddRow(a, r, col, col);
      b[r] := b[r] != b[col];
      m, v := m1[r := XorBits(m1[r], m1[col])], v1[r := v1[r] != v1[col]];
      AddRowKeepsSolutions(m1, v1, r, col);
      EquivalentTransitive(a0, b0, m1, v1, m, v);
    }
  }

  /** The first row at or below the diagonal with a 1 in the column; n when there is none. */
  method FindPivot(a: array2<bool>, col: nat) returns (piv: nat)
    requires col < a.Length0 == a.Length1
    ensures col <= piv <= a.Length0 && (piv < a.Length0 ==> a[piv, col])
    ensures forall r | col <= r < piv :: !a[r, col]
  {
    piv := col;
    while piv < a.Length0 && !a[piv, col]
      invariant col <= piv <= a.Length0
      invariant forall r | col <= r < piv :: !a[r, col]
    {
      piv := piv + 1;
    }
  }

  /** Swaps the pivot row into place. */
  method SwapPivot(a: array2<bool>, b: array<bool>, col: nat, piv: nat)
    requires a.Length0 == a.Length1 == b.Length && col <= piv < b.Length
    requires Reduced(Rows(a), col) && a[piv, col]
    modifies a, b
    ensures Equivalent(old(Rows(a)), old(b[..]), Rows(a), b[..])
    ensures Reduced(Rows(a), col) && a[col, col]
  {
    hide Equivalent;
    ghost var a1, b1 := Rows(a), b[..];
    if piv == col {
      EquivalentReflexive(a1, b1);
    } else {
      SwapRows(a, col, piv);
      b[col], b[piv] := b[piv], b[col];
      SwapKeepsSolutions(a1, b1, col, piv);
      assert b[..] == b1[col := b1[piv]][piv := b1[col]];
      assert Rows(a)[col][col] == a1[piv][col];
    }
  }

  /** One column: pivot, swap, clear. Fails when no row is left with a 1 in it. */
  method EliminateColumn(a: array2<bool>, b: array<bool>, col: nat) returns (ok: bool)
    requires a.Length0 == a.Length1 == b.Length && col < b.Length && Reduced(Rows(a), col)
    modifies a, b
    ensures Equivalent(old(Rows(a)), old(b[..]), Rows(a), b[..])
    ensures ok ==> Reduced(Rows(a), col + 1)
    ensures !ok ==> !Nonsingular(Rows(a), b.Length)
  {
    hide Equivalent, Nonsingular, Reduced;
    ghost var a1, b1 := Rows(a), b[..];
    var piv := FindPivot(a, col);
    if piv == b.Length {
      NoPivotSingular(a1, b.Length, col);
      EquivalentReflexive(a1, b1);
      return false;
    }
    SwapPivot(a, b, col, piv);
    ghost var a2, b2 := Rows(a), b[..];
    ClearColumn(a, b, col);
    EquivalentTransitive(a1, b1, a2, b2, Rows(a), b[..]);
    return true;
  }

  /** Gauss-Jordan elimination: succeeds exactly when the matrix has trivial kernel, and then leaves
      the only solution of the original system in b. */
  method GaussJordan(a: array2<bool>, b: array<bool>) returns (ok: bool)
    requires a.Length0 == a.Length1 == b.Length
    modifies a, b
    ensures ok <==> Nonsingular(old(Rows(a)), b.Length)
    ensures ok ==> forall x: Bits | |x| == b.Length :: Solves(old(Rows(a)), old(b[..]), x) <==> x == b[..]
  {
    hide Equivalent, Solves, Nonsingular, Dot, Reduced;
    ghost var a0, b0 := Rows(a), b[..];
    EquivalentReflexive(a0, b0);
    assert Reduced(Rows(a), 0) by { NothingReduced(Rows(a)); }
    for col := 0 to b.Length
      invariant Equivalent(a0, b0, Rows(a), b[..])
      invariant Reduced(Rows(a), col)
    {
      ghost var a1, b1 := Rows(a), b[..];
      ok := EliminateColumn(a, b, col);
      EquivalentTransitive(a0, b0, a1, b1, Rows(a), b[..]);
      if !ok {
        EquivalentMeans(a0, b0, Rows(a), b[..]);
        return;
      }
    }
    IdentitySolution(Rows(a), b[..]);
    EquivalentMeans(a0, b0, Rows(a), b[..]);
    ok := true;
  }

  lemma NothingReduced(a: Matrix)
    ensures Reduced(a, 0)
  {
  }

  lemma EquivalentReflexive(a: Matrix, b: Bits)
    requires Square(a, |b|)
    ensures Equivalent(a, b, a, b)
  {
  }

  /** What equivalence is for: the same solutions, and the same answer to whether there is one. */
  lemma EquivalentMeans(a: Matrix, b: Bits, a': Matrix, b': Bits)
    requires Square(a, |b|) && Square(a', |b'|) && |b| == |b'|
    ensures Equivalent(a, b, a', b') ==> forall x: Bits | |x| == |b| :: Solves(a, b, x) <==> Solves(a', b', x)
    ensures Equivalent(a, b, a', b') ==> (Nonsingular(a, |b|) <==> Nonsingular(a', |b|))
  {
    hide Solves;
  }
}
