/** Rotating every block of zc positions by the same amount is an automorphism of the code. */
module LdpcQuasiCyclic {
  import opened Common
  import opened LdpcGraph
  import opened LdpcEncoder

  /** The position s places further round inside the block of position i. */
  function Turn(i: nat, s: nat, zc: nat): (j: nat)
    requires zc > 0
  {
    Quot(i, zc) * zc + Rem(Rem(i, zc) + s, zc)
  }

  lemma TurnInRange(i: nat, s: nat, nb: nat, zc: nat)
    requires zc > 0 && i < nb * zc
    ensures Turn(i, s, zc) < nb * zc
    ensures Quot(Turn(i, s, zc), zc) == Quot(i, zc) && Rem(Turn(i, s, zc), zc) == Rem(Rem(i, zc) + s, zc)
  {
    hide Quot, Rem;
    BlockOf(i, nb, zc);
    BlockIndex(Quot(i, zc), nb, zc, Rem(Rem(i, zc) + s, zc));
  }

  /** Every block of w rotated by s places. */
  function Rotate(w: Bits, nb: nat, zc: nat, s: nat): (w': Bits)
    requires zc > 0 && |w| == nb * zc
    ensures |w'| == |w|
    ensures forall i | 0 <= i < |w| :: Turn(i, s, zc) < |w| && w'[i] == w[Turn(i, s, zc)]
  {
    assert forall i | 0 <= i < |w| :: Turn(i, s, zc) < |w| by {
      forall i | 0 <= i < |w| { TurnInRange(i, s, nb, zc); }
    }
    seq(|w|, i requires 0 <= i < |w| => w[Turn(i, s, zc)])
  }

  lemma {:induction false} CheckParityAppend(a: seq<SparseEdge>, b: seq<SparseEdge>, c: nat, w: Bits)
    requires VarsBelow(a, |w|) && VarsBelow(b, |w|)
    ensures CheckParity(a + b, c, w) == (CheckParity(a, c, w) != CheckParity(b, c, w))
  {
    if b == [] {
      assert a + b == a;
    } else {
      assert (a + b)[..|a + b| - 1] == a + b[..|b| - 1];
      CheckParityAppend(a, b[..|b| - 1], c, w);
    }
  }

  lemma SameCheck(r: nat, z: nat, zc: nat, c: nat)
    requires z < zc
    ensures r * zc + z == c <==> r == Quot(c, zc) && z == Rem(c, zc)
  {
    hide Quot, Rem;
    BlockIndex(r, r, zc, z);
    BlockOf(c, 0, zc);
  }

  /** Among the lifted copies of a base edge exactly one touches check c, if the row matches. */
  lemma {:induction false} LiftedParity(g: Graph, e: BaseEdge, n: nat, c: nat, w: Bits)
    requires g.Valid() && e in g.edges && n <= g.zc && |w| == g.N()
    ensures CheckParity(Lifted(g, e, n), c, w)
      == (e.row == Quot(c, g.zc) && Rem(c, g.zc) < n && w[LiftedEdge(g, e, Rem(c, g.zc)).v])
  {
    hide Quot, Rem;
    if n > 0 {
      assert Lifted(g, e, n)[..n - 1] == Lifted(g, e, n - 1);
      LiftedParity(g, e, n - 1, c, w);
      SameCheck(e.row, n - 1, g.zc, c);
    }
  }

  /** Parity of check c, one term per base edge. */
  function BaseParity(g: Graph, n: nat, c: nat, w: Bits): bool
    requires g.Valid() && n <= |g.edges| && |w| == g.N()
  {
    if n == 0 then false
    else
      var e := g.edges[n - 1];
      BaseParity(g, n - 1, c, w)
        != (e.shift[g.iLs] >= 0 && e.row == Quot(c, g.zc) && w[LiftedEdge(g, e, Rem(c, g.zc)).v])
  }

  lemma {:induction false} ExpandedParity(g: Graph, n: nat, c: nat, w: Bits)
    requires g.Valid() && n <= |g.edges| && |w| == g.N()
    ensures CheckParity(ExpandedTo(g, n), c, w) == BaseParity(g, n, c, w)
  {
    hide Quot, Rem, LiftedEdge;
    if n > 0 {
      var e := g.edges[n - 1];
      ExpandedParity(g, n - 1, c, w);
      if e.shift[g.iLs] < 0 {
        assert ExpandedTo(g, n) == ExpandedTo(g, n - 1);
      } else {
        CheckParityAppend(ExpandedTo(g, n - 1), Lifted(g, e, g.zc), c, w);
        LiftedParity(g, e, g.zc, c, w);
      }
    }
  }

  lemma LiftedEdgeVar(g: Graph, e: BaseEdge, z: nat)
    requires g.Valid() && e in g.edges && z < g.zc
    ensures LiftedEdge(g, e, z).v == e.col * g.zc + Rem(z + ModShift(e.shift[g.iLs], g.zc), g.zc)
  {
    hide Rem, ModShift;
  }

  /** The edge of check z, followed by a turn by s, is the edge of check z turned by s. */
  lemma TurnedEdge(g: Graph, e: BaseEdge, z: nat, s: nat)
    requires g.Valid() && e in g.edges && z < g.zc
    ensures Turn(LiftedEdge(g, e, z).v, s, g.zc) == LiftedEdge(g, e, Rem(z + s, g.zc)).v
  {
    var sh := ModShift(e.shift[g.iLs], g.zc);
    hide Turn, LiftedEdge, Graph.Valid, ModShift;
    LiftedEdgeVar(g, e, z);
    LiftedEdgeVar(g, e, Rem(z + s, g.zc));
    TurnShifted(e.col, sh, z, s, g.zc);
  }

  lemma TurnShifted(b: nat, sh: nat, z: nat, s: nat, zc: nat)
    requires zc > 0
    ensures Turn(b * zc + Rem(z + sh, zc), s, zc) == b * zc + Rem(Rem(z + s, zc) + sh, zc)
  {
    hide Quot, Rem, Turn;
    RemAdd(z + sh, s, zc);
    RemAdd(z + s, sh, zc);
    assert z + sh + s == z + s + sh;
    TurnOf(b, Rem(z + sh, zc), s, zc);
  }

  lemma TurnOf(b: nat, z: nat, s: nat, zc: nat)
    requires z < zc
    ensures Turn(b * zc + z, s, zc) == b * zc + Rem(z + s, zc)
  {
    hide Quot, Rem;
    BlockIndex(b, b, zc, z);
  }

  lemma {:induction false} RotatedParity(g: Graph, n: nat, c: nat, w: Bits, s: nat)
    requires g.Valid() && n <= |g.edges| && |w| == g.N() && c < g.M()
    ensures Turn(c, s, g.zc) < g.M()
    ensures BaseParity(g, n, c, Rotate(w, g.nb, g.zc, s)) == BaseParity(g, n, Turn(c, s, g.zc), w)
  {
    hide Quot, Rem, Turn, LiftedEdge;
    TurnInRange(c, s, g.mb, g.zc);
    if n > 0 {
      RotatedParity(g, n - 1, c, w, s);
      TurnedEdge(g, g.edges[n - 1], Rem(c, g.zc), s);
    }
  }

  lemma RotatedSyndrome(g: Graph, c: nat, w: Bits, s: nat)
    requires g.Valid() && |w| == g.N() && c < g.M()
    ensures Turn(c, s, g.zc) < g.M()
    ensures CheckParity(Expanded(g), c, Rotate(w, g.nb, g.zc, s)) == CheckParity(Expanded(g), Turn(c, s, g.zc), w)
  {
    hide Turn, Rotate, CheckParity, BaseParity;
    var n := |g.edges|;
    RotatedParity(g, n, c, w, s);
    ExpandedParity(g, n, c, Rotate(w, g.nb, g.zc, s));
    ExpandedParity(g, n, Turn(c, s, g.zc), w);
  }

  /** A turn by s is undone by a turn by zc - s % zc. */
  lemma TurnBack(i: nat, s: nat, zc: nat)
    requires zc > 0
    ensures Turn(Turn(i, zc - Rem(s, zc), zc), s, zc) == i
  {
    hide Quot, Rem;
    var z, t := Rem(i, zc), zc - Rem(s, zc);
    TurnOf(Quot(i, zc), Rem(z + t, zc), s, zc);
    RemAdd(z + t, s, zc);
    WholeTurn(z, s, zc);
    BlockOf(i, 0, zc);
  }

  lemma WholeTurn(z: nat, s: nat, zc: nat)
    requires z < zc
    ensures Rem(z + (zc - Rem(s, zc)) + s, zc) == z
  {
    hide Quot, Rem;
    QuotRem(s, zc);
    var q := Quot(s, zc);
    assert zc * (q + 1) == zc * q + zc;
    QuotRemUnique(z + (zc - Rem(s, zc)) + s, zc, q + 1, z);
  }

  /** Rotation maps codewords to codewords, and only codewords. */
  lemma RotationAutomorphism(g: Graph, w: Bits, s: nat)
    requires g.Valid() && |w| == g.N()
    ensures Codeword(g, Rotate(w, g.nb, g.zc, s)) <==> Codeword(g, w)
  {
    hide Quot, Rem, Turn, CheckParity, Expanded;
    var w' := Rotate(w, g.nb, g.zc, s);
    forall c | 0 <= c < g.M()
      ensures Turn(c, s, g.zc) < g.M()
      ensures CheckParity(Expanded(g), c, w') == CheckParity(Expanded(g), Turn(c, s, g.zc), w)
    {
      RotatedSyndrome(g, c, w, s);
    }
    if Codeword(g, w') {
      forall c | 0 <= c < g.M() ensures !CheckParity(Expanded(g), c, w) {
        var c' := Turn(c, g.zc - Rem(s, g.zc), g.zc);
        TurnInRange(c, g.zc - Rem(s, g.zc), g.mb, g.zc);
        TurnBack(c, s, g.zc);
        assert !CheckParity(Expanded(g), c', w');
      }
    }
  }

  /** Rotating the information word rotates its encoding: the encoder commutes with block rotation. */
  lemma EncodingRotates(g: Graph, info: Bits, cw: Bits, s: nat)
    requires g.Valid() && Encodes(g, info, cw)
    ensures Encodes(g, Rotate(info, g.kb, g.zc, s), Rotate(cw, g.nb, g.zc, s))
  {
    RotationAutomorphism(g, cw, s);
    hide Codeword, Turn;
    var zc := g.zc;
    var cw', info' := Rotate(cw, g.nb, zc, s), Rotate(info, g.kb, zc, s);
    assert cw'[..g.K()] == info' by {
      forall i | 0 <= i < g.K() ensures cw'[i] == info'[i] {
        assert info[Turn(i, s, zc)] == cw[..g.K()][Turn(i, s, zc)];
      }
    }
    forall i | g.K() + g.M() <= i < g.N() ensures !cw'[i] {
      TurnBeyond(i, s, g.kb, g.mb, zc);
    }
  }

  /** A turn never leaves the last blocks for the first a + b ones. */
  lemma TurnBeyond(i: nat, s: nat, a: nat, b: nat, zc: nat)
    requires zc > 0 && a * zc + b * zc <= i
    ensures a * zc + b * zc <= Turn(i, s, zc)
  {
    hide Quot, Rem;
    assert (a + b) * zc == a * zc + b * zc;
    BlockOf(i, a + b, zc);
    BlockIndex(Quot(i, zc), a + b, zc, Rem(Rem(i, zc) + s, zc));
    if Turn(i, s, zc) < (a + b) * zc { BlockOf(Turn(i, s, zc), a + b, zc); }
  }
}
