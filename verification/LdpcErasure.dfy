/** Min-sum on erasures. When every input LLR is 0 or has the sign of a codeword, the real-valued
    decoder follows binary erasure message passing: the same messages are non-zero at every
    iteration, and all of them have the right sign. */
module LdpcErasure {
  import opened Common
  import opened LdpcGraph
  import opened Llr
  import opened LdpcDecoder
  import opened LdpcSymmetry

  // ---------------------------------------------------------------- erasure message passing

  ghost predicate KnownAmong(els: seq<nat>, known: Bits, skip: int)
    requires Indexes(els, |known|)
  {
    exists j | j in els :: j != skip && known[j]
  }

  ghost predicate AllKnown(els: seq<nat>, known: Bits, skip: int)
    requires Indexes(els, |known|)
  {
    forall j | j in els :: j != skip ==> known[j]
  }

  /** A variable passes on what its channel value or another check tells it. */
  ghost function KnownVarStep(edges: seq<SparseEdge>, given: Bits, kc: Bits): (kv: Bits)
    requires VarsBelow(edges, |given|) && |kc| == |edges|
    ensures |kv| == |edges|
  {
    seq(|edges|, i requires 0 <= i < |edges| => given[edges[i].v] || KnownAmong(OfVar(edges, edges[i].v), kc, i))
  }

  /** A check resolves an edge once all its other edges are known. */
  ghost function KnownCheckStep(edges: seq<SparseEdge>, kv: Bits): (kc: Bits)
    requires |kv| == |edges|
    ensures |kc| == |edges|
  {
    seq(|edges|, i requires 0 <= i < |edges| => AllKnown(OfCheck(edges, edges[i].check), kv, i))
  }

  /** Check-to-variable knowledge after t rounds. */
  ghost function Known(edges: seq<SparseEdge>, given: Bits, t: nat): (kc: Bits)
    requires VarsBelow(edges, |given|)
    ensures |kc| == |edges|
  {
    if t == 0 then Zeros(|edges|) else KnownCheckStep(edges, KnownVarStep(edges, given, Known(edges, given, t - 1)))
  }

  /** Variable v is known after t rounds. */
  ghost predicate Resolved(edges: seq<SparseEdge>, given: Bits, t: nat, v: nat)
    requires VarsBelow(edges, |given|) && v < |given|
  {
    given[v] || KnownAmong(OfVar(edges, v), Known(edges, given, t), -1)
  }

  ghost predicate Covered(edges: seq<SparseEdge>, given: Bits, t: nat)
    requires VarsBelow(edges, |given|)
  {
    forall v | 0 <= v < |given| :: Resolved(edges, given, t, v)
  }

  // ---------------------------------------------------------------- agreement with the decoder

  /** x is zero exactly when k fails, and otherwise carries bit b: positive for 0, negative for 1. */
  predicate Agrees(x: real, b: bool, k: bool) {
    if !k then x == 0.0 else if b then x < 0.0 else x > 0.0
  }

  function Given(llr: Soft): (k: Bits)
    ensures |k| == |llr|
  {
    seq(|llr|, v requires 0 <= v < |llr| => llr[v] != 0.0)
  }

  /** All messages agree with c, with the stated pattern of zeros. */
  ghost predicate MessagesAgree(edges: seq<SparseEdge>, m: Soft, c: Bits, known: Bits)
    requires VarsBelow(edges, |c|) && |m| == |edges| == |known|
  {
    forall i | 0 <= i < |edges| :: Agrees(m[i], c[edges[i].v], known[i])
  }

  lemma {:induction false} SumAgrees(els: seq<nat>, m: Soft, known: Bits, skip: int, b: bool)
    requires |m| == |known| && Indexes(els, |m|)
    requires forall j | j in els :: Agrees(m[j], b, known[j])
    ensures Agrees(SumOver(els, m, skip), b, KnownAmong(els, known, skip))
  {
    if els != [] {
      var i := |els| - 1;
      forall j ensures j in els <==> j in els[..i] || j == els[i] {
        assert els == els[..i] + [els[i]];
      }
      SumAgrees(els[..i], m, known, skip, b);
      if els[i] != skip && known[els[i]] { assert KnownAmong(els, known, skip); }
    }
  }

  lemma {:induction false} SumNoSkip(els: seq<nat>, m: Soft, i: nat)
    requires Indexes(els, |m|) && i !in els
    ensures SumOver(els, m, i) == SumOver(els, m, -1)
  {
    if els != [] {
      assert els[|els| - 1] in els;
      SumNoSkip(els[..|els| - 1], m, i);
    }
  }

  /** Subtracting one incoming message from the sum leaves the sum of the others. */
  lemma {:induction false} SumSkip(els: seq<nat>, m: Soft, i: nat)
    requires Indexes(els, |m|) && i in els
    requires forall p, q | 0 <= p < q < |els| :: els[p] < els[q]
    ensures SumOver(els, m, -1) - m[i] == SumOver(els, m, i)
  {
    var n := |els| - 1;
    if els[n] == i {
      SumNoSkip(els[..n], m, i);
    } else {
      assert i in els[..n];
      SumSkip(els[..n], m, i);
    }
  }

  lemma VarStepAgrees(edges: seq<SparseEdge>, llr: Soft, c2v: Soft, c: Bits, kc: Bits)
    requires VarsBelow(edges, |c|) && Consistent(llr, c) && |c2v| == |edges| == |kc|
    requires MessagesAgree(edges, c2v, c, kc)
    ensures MessagesAgree(edges, VarStep(edges, llr, c2v), c, KnownVarStep(edges, Given(llr), kc))
  {
    hide Agrees, SumOver, KnownAmong, Incident;
    forall i | 0 <= i < |edges|
      ensures Agrees(VarStep(edges, llr, c2v)[i], c[edges[i].v], KnownVarStep(edges, Given(llr), kc)[i])
    {
      var v := edges[i].v;
      OthersAgree(edges, c2v, c, kc, i);
      AgreesAdd(llr[v], SumOver(OfVar(edges, v), c2v, i), c[v], KnownAmong(OfVar(edges, v), kc, i));
    }
  }

  /** The other messages into the variable of edge i. */
  lemma OthersAgree(edges: seq<SparseEdge>, c2v: Soft, c: Bits, kc: Bits, i: nat)
    requires VarsBelow(edges, |c|) && |c2v| == |edges| == |kc| && i < |edges| && MessagesAgree(edges, c2v, c, kc)
    ensures var els := OfVar(edges, edges[i].v);
      && SumOver(els, c2v, -1) - c2v[i] == SumOver(els, c2v, i)
      && Agrees(SumOver(els, c2v, i), c[edges[i].v], KnownAmong(els, kc, i))
  {
    hide Agrees, SumOver, KnownAmong, Incident;
    var v := edges[i].v;
    var els := OfVar(edges, v);
    assert Vars(edges)[i] == v;
    forall j | j in els ensures Agrees(c2v[j], c[v], kc[j]) { assert Vars(edges)[j] == v; }
    SumSkip(els, c2v, i);
    SumAgrees(els, c2v, kc, i, c[v]);
  }

  lemma AgreesAdd(x: real, y: real, b: bool, k: bool)
    requires Leans(x, b) && Agrees(y, b, k)
    ensures Agrees(x + y, b, x != 0.0 || k)
  {
  }

  /** Sign and magnitude over a list with the given knowledge. */
  lemma {:induction false} FoldAgrees(els: seq<nat>, edges: seq<SparseEdge>, m: Soft, c: Bits, known: Bits, skip: int)
    requires VarsBelow(edges, |c|) && |m| == |edges| == |known| && Indexes(els, |m|)
    requires MessagesAgree(edges, m, c, known)
    ensures AllKnown(els, known, skip) ==> NegOver(els, m, skip) == XorOver(els, Vars(edges), c, skip)
    ensures AllKnown(els, known, skip) && MinOver(els, m, skip).Some? ==> MinOver(els, m, skip).value > 0.0
    ensures !AllKnown(els, known, skip) ==> MinOver(els, m, skip) == Some(0.0)
  {
    if AllKnown(els, known, skip) {
      if els != [] {
        var i := |els| - 1;
        assert els[i] in els && AllKnown(els[..i], known, skip);
        FoldAgrees(els[..i], edges, m, c, known, skip);
      }
    } else {
      var j :| j in els && j != skip && !known[j];
      ZeroMin(els, m, skip, j);
    }
  }

  lemma CheckMessageAgrees(g: Graph, v2c: Soft, c: Bits, kv: Bits, i: nat)
    requires g.Valid() && Codeword(g, c) && NoLeafCheck(Expanded(g)) && i < |Expanded(g)|
    requires |v2c| == |Expanded(g)| == |kv| && MessagesAgree(Expanded(g), v2c, c, kv)
    ensures Agrees(CheckMessage(Expanded(g), v2c, i), c[Expanded(g)[i].v],
                   AllKnown(OfCheck(Expanded(g), Expanded(g)[i].check), kv, i))
  {
    var edges := Expanded(g);
    var els := OfCheck(edges, edges[i].check);
    FoldAgrees(els, edges, v2c, c, kv, i);
    OthersParity(g, c, i);
    assert HasPeer(edges, i);
    var j :| 0 <= j < |edges| && j != i && edges[j].check == edges[i].check;
    assert Checks(edges)[j] == edges[i].check;
    MinExists(els, v2c, i, j);
    hide AllKnown, Codeword, NoLeafCheck, NegOver, MinOver, XorOver, Incident, Expanded;
  }

  lemma CheckStepAgrees(g: Graph, v2c: Soft, c: Bits, kv: Bits)
    requires g.Valid() && Codeword(g, c) && NoLeafCheck(Expanded(g))
    requires |v2c| == |Expanded(g)| == |kv| && MessagesAgree(Expanded(g), v2c, c, kv)
    ensures MessagesAgree(Expanded(g), CheckStep(Expanded(g), v2c), c, KnownCheckStep(Expanded(g), kv))
  {
    hide AllKnown, CheckMessage, NoLeafCheck, Agrees;
    forall i | 0 <= i < |Expanded(g)| {
      CheckMessageAgrees(g, v2c, c, kv, i);
    }
  }

  /** At every iteration the non-zero messages are those of erasure message passing, and every one
      of them has the sign of c. */
  lemma {:induction false} MessagesFollowErasures(g: Graph, llr: Soft, c: Bits, t: nat)
    requires g.Valid() && Codeword(g, c) && NoLeafCheck(Expanded(g)) && Consistent(llr, c)
    ensures MessagesAgree(Expanded(g), Messages(Expanded(g), llr, t), c, Known(Expanded(g), Given(llr), t))
  {
    hide VarStep, CheckStep, KnownVarStep, KnownCheckStep, Codeword, NoLeafCheck;
    var edges := Expanded(g);
    assert |c| == g.N() by { CodewordLength(g, c); }
    if t > 0 {
      var c2v, kc := Messages(edges, llr, t - 1), Known(edges, Given(llr), t - 1);
      MessagesFollowErasures(g, llr, c, t - 1);
      VarStepAgrees(edges, llr, c2v, c, kc);
      CheckStepAgrees(g, VarStep(edges, llr, c2v), c, KnownVarStep(edges, Given(llr), kc));
    }
  }

  lemma CodewordLength(g: Graph, c: Bits)
    requires g.Valid() && Codeword(g, c)
    ensures |c| == g.N()
  {
  }

  /** The same for the a-posteriori values. */
  lemma AppFollowsErasures(g: Graph, llr: Soft, c: Bits, t: nat, v: nat)
    requires g.Valid() && Codeword(g, c) && NoLeafCheck(Expanded(g)) && Consistent(llr, c) && v < |llr|
    ensures Agrees(AppAt(Expanded(g), llr, t, v), c[v], Resolved(Expanded(g), Given(llr), t, v))
  {
    hide Messages, Known;
    var edges := Expanded(g);
    var els := OfVar(edges, v);
    MessagesFollowErasures(g, llr, c, t);
    var c2v, kc := Messages(edges, llr, t), Known(edges, Given(llr), t);
    forall j | j in els ensures Agrees(c2v[j], c[v], kc[j]) { assert Vars(edges)[j] == v; }
    SumAgrees(els, c2v, kc, -1, c[v]);
  }
}
