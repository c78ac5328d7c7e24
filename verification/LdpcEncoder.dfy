/** Systematic encoding by Gauss-Jordan elimination on the parity part of the dense matrix. */
module LdpcEncoder {
  import opened Common
  import opened Gf2
  import opened LdpcGraph

  /** cw is the codeword with systematic prefix info; positions after the parity part (there are
      none when nb = kb + mb) are left at zero. */
  ghost predicate Encodes(g: Graph, info: Bits, cw: Bits)
    requires g.Valid()
  {
    && Codeword(g, cw) && |info| == g.K() <= g.N() && cw[..g.K()] == info
    && forall i | g.K() + g.M() <= i < g.N() :: !cw[i]
  }

  /** cw is the one word that encodes info. */
  ghost predicate IsTheEncoding(g: Graph, info: Bits, cw: Bits)
    requires g.Valid()
  {
    forall w: Bits :: Encodes(g, info, w) <==> w == cw
  }

  /** The M columns of the dense matrix that follow the information part. */
  ghost function ParityMatrix(g: Graph): (a: Matrix)
    requires g.Valid()
    ensures Square(a, g.M())
  {
    seq(g.M(), r requires 0 <= r < g.M() =>
      seq(g.M(), c requires 0 <= c < g.M() => EdgeParity(Expanded(g), r, g.K() + c)))
  }

  ghost predicate ParityNonsingular(g: Graph)
    requires g.Valid()
  {
    Nonsingular(ParityMatrix(g), g.M())
  }

  /** The contribution of the information bits to every check. */
  ghost function InfoParity(g: Graph, info: Bits): (b: Bits)
    requires g.Valid() && |info| == g.K() <= g.N()
    ensures |b| == g.M()
  {
    seq(g.M(), r requires 0 <= r < g.M() => Dot(DenseRow(Expanded(g), r, g.N()), info, g.K()))
  }

  lemma PartsFit(g: Graph)
    requires g.Encodable()
    ensures g.K() + g.M() <= g.N()
  {
    assert (g.kb + g.mb) * g.zc == g.kb * g.zc + g.mb * g.zc;
    assert (g.nb - g.kb - g.mb) * g.zc >= 0;
    assert g.nb * g.zc == (g.kb + g.mb) * g.zc + (g.nb - g.kb - g.mb) * g.zc;
  }

  lemma PartsExact(g: Graph)
    requires g.nb == g.kb + g.mb
    ensures g.N() == g.K() + g.M()
  {
  }

  ghost function Assemble(g: Graph, info: Bits, p: Bits): (cw: Bits)
    requires g.Valid() && |info| == g.K() && |p| == g.M() && g.K() + g.M() <= g.N()
    ensures |cw| == g.N()
  {
    info + p + Zeros(g.N() - g.K() - g.M())
  }

  lemma ParityRow(g: Graph, r: nat)
    requires g.Valid() && r < g.M() && g.K() + g.M() <= g.N()
    ensures |DenseRow(Expanded(g), r, g.N())| == g.N() && |ParityMatrix(g)[r]| == g.M()
    ensures forall i | 0 <= i < g.M() :: ParityMatrix(g)[r][i] == DenseRow(Expanded(g), r, g.N())[g.K()..][i]
  {
    hide Expanded, EdgeParity, Graph.Valid;
  }

  /** The assembled word is a codeword exactly when its parity part solves the linear system. */
  lemma AssembleSolves(g: Graph, info: Bits, p: Bits)
    requires g.Valid() && |info| == g.K() && |p| == g.M() && g.K() + g.M() <= g.N()
    ensures Codeword(g, Assemble(g, info, p)) <==> Solves(ParityMatrix(g), InfoParity(g, info), p)
  {
    hide Dot, CheckParity, Expanded, DenseRow, EdgeParity, Graph.Valid;
    var cw := Assemble(g, info, p);
    forall r | 0 <= r < g.M()
      ensures CheckParity(Expanded(g), r, cw) == (Dot(ParityMatrix(g)[r], p, g.M()) != InfoParity(g, info)[r])
    {
      var row := DenseRow(Expanded(g), r, g.N());
      SparseIsDense(Expanded(g), r, cw);
      ParityRow(g, r);
      DotParts(row, info, p, g.N() - g.K() - g.M());
      DotAgree(row[g.K()..], ParityMatrix(g)[r], p, p, g.M());
    }
  }

  /** A row times a word made of two parts and a zero tail. */
  lemma DotParts(row: Bits, info: Bits, p: Bits, tail: nat)
    requires |row| == |info| + |p| + tail
    ensures Dot(row, info + p + Zeros(tail), |row|) == (Dot(row, info, |info|) != Dot(row[|info|..], p, |p|))
  {
    hide Dot;
    var rest := p + Zeros(tail);
    assert info + p + Zeros(tail) == info + rest && |row| == |info| + |rest|;
    DotTwo(row, info, rest);
    DotTwo(row[|info|..], p, Zeros(tail));
    var end := row[|info|..][|p|..];
    DotAgree(end, Zeros(tail), Zeros(tail), Zeros(tail), tail);
    DotUnit(Zeros(tail), Zeros(tail), tail, tail);
  }

  lemma DotTwo(row: Bits, x: Bits, y: Bits)
    requires |row| == |x| + |y|
    ensures Dot(row, x + y, |row|) == (Dot(row, x, |x|) != Dot(row[|x|..], y, |y|))
  {
    hide Dot;
    DotSplit(row, x + y, |x|, |y|);
    DotAgree(row, row, x + y, x, |x|);
    assert (x + y)[|x|..] == y;
  }

  lemma EncodesSolves(g: Graph, info: Bits, cw: Bits)
    requires g.Valid() && g.Encodable() && Encodes(g, info, cw)
    ensures g.K() + g.M() <= g.N()
    ensures cw == Assemble(g, info, cw[g.K()..g.K() + g.M()])
    ensures Solves(ParityMatrix(g), InfoParity(g, info), cw[g.K()..g.K() + g.M()])
  {
    PartsFit(g);
    AssembleSolves(g, info, cw[g.K()..g.K() + g.M()]);
  }

  /** Succeeds exactly when the information length is right and the parity part is non-singular;
      the result is then the one word that encodes info. */
  method EncodeGe(info: Bits, g: Graph) returns (r: Option<Bits>)
    requires g.Valid() && (|info| == g.K() ==> g.Encodable())
    ensures r.Some? <==> |info| == g.K() && ParityNonsingular(g)
    ensures r.Some? ==> IsTheEncoding(g, info, r.value)
  {
    var k, n, m := g.K(), g.N(), g.M();
    if |info| != k { return None; }
    PartsFit(g);
    var h := BuildH(g);
    var rhs := RightHandSide(g, info, h);
    var a := new bool[m, m]((r, c) reads h
      requires 0 <= r < m && 0 <= c < m && h.Length0 == m && h.Length1 == n && k + m <= n => h[r, k + c]);
    assert Rows(a) == ParityMatrix(g) by { RowsAre(Rows(a), ParityMatrix(g), m); }
    var ok := GaussJordan(a, rhs);
    if !ok { return None; }
    var cw := info + rhs[..] + Zeros(n - k - m);
    assert cw == Assemble(g, info, rhs[..]);
    OnlyEncoding(g, info, rhs[..]);
    return Some(cw);
  }

  /** The right-hand side of the linear system: the parity of the information bits in every check. */
  method RightHandSide(g: Graph, info: Bits, h: array2<bool>) returns (rhs: array<bool>)
    requires g.Valid() && |info| == g.K() <= g.N()
    requires h.Length0 == g.M() && h.Length1 == g.N() && Toggled(h, Expanded(g))
    ensures fresh(rhs) && rhs[..] == InfoParity(g, info)
  {
    rhs := new bool[g.M()];
    for i := 0 to g.M()
      invariant forall j | 0 <= j < i :: rhs[j] == InfoParity(g, info)[j]
    {
      ghost var row := DenseRow(Expanded(g), i, g.N());
      var s := false;
      for j := 0 to g.K()
        invariant s == Dot(row, info, j)
      {
        if h[i, j] && info[j] { s := !s; }
      }
      rhs[i] := s;
    }
  }

  lemma OnlyEncoding(g: Graph, info: Bits, p: Bits)
    requires g.Valid() && g.Encodable() && |info| == g.K() && |p| == g.M() && g.K() + g.M() <= g.N()
    requires forall x: Bits | |x| == g.M() :: Solves(ParityMatrix(g), InfoParity(g, info), x) <==> x == p
    ensures IsTheEncoding(g, info, Assemble(g, info, p))
  {
    AssembleSolves(g, info, p);
    var cw := Assemble(g, info, p);
    assert cw[..g.K()] == info;
    forall w: Bits | Encodes(g, info, w) ensures w == cw { EncodesSolves(g, info, w); }
  }

  /** With a non-singular parity part, every information word has at most one encoding. */
  lemma EncodingUnique(g: Graph, info: Bits, x: Bits, y: Bits)
    requires g.Valid() && g.Encodable() && ParityNonsingular(g) && Encodes(g, info, x) && Encodes(g, info, y)
    ensures x == y
  {
    EncodesSolves(g, info, x);
    EncodesSolves(g, info, y);
    var m := g.M();
    var p, q := x[g.K()..g.K() + m], y[g.K()..g.K() + m];
    var a, b, d := ParityMatrix(g), InfoParity(g, info), XorBits(p, q);
    forall r | 0 <= r < m ensures !Dot(a[r], d, m) {
      DotXor(a[r], p, q, m);
      assert Dot(a[r], p, m) == b[r] == Dot(a[r], q, m);
    }
    assert Solves(a, Zeros(m), d);
    assert p == q by { forall i | 0 <= i < m ensures p[i] == q[i] { assert !d[i]; } }
  }

  /** The encoding of an XOR is the XOR of the encodings. */
  lemma EncodingLinear(g: Graph, info: Bits, info': Bits, x: Bits, y: Bits)
    requires g.Valid() && Encodes(g, info, x) && Encodes(g, info', y)
    ensures Encodes(g, XorBits(info, info'), XorBits(x, y))
  {
    CodewordXor(g, x, y);
    assert XorBits(x, y)[..g.K()] == XorBits(info, info');
  }

  /** Every codeword encodes its own information part. */
  lemma CodewordEncodes(g: Graph, w: Bits)
    requires g.Valid() && g.nb == g.kb + g.mb && Codeword(g, w)
    ensures |w| == g.N() >= g.K() && Encodes(g, w[..g.K()], w)
  {
    PartsExact(g);
  }

  /** Re-encoding the information part of any codeword gives that codeword back. */
  lemma ReEncode(g: Graph, w: Bits, cw: Bits)
    requires g.Valid() && ParityNonsingular(g) && g.nb == g.kb + g.mb
    requires Codeword(g, w) && g.K() <= |w| && Encodes(g, w[..g.K()], cw)
    ensures cw == w
  {
    hide Codeword, ParityNonsingular;
    CodewordEncodes(g, w);
    EncodingUnique(g, w[..g.K()], w, cw);
  }
}
