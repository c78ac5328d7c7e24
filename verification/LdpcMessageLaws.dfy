/** What the messages of the decoder are, stated on the edge list alone. */
module LdpcMessageLaws {
  import opened Common
  import opened LdpcGraph
  import opened LdpcDecoder

  /** Edge j is another edge of the check of edge i. */
  ghost predicate Other(edges: seq<SparseEdge>, i: nat, j: nat)
    requires i < |edges|
  {
    j < |edges| && j != i && edges[j].check == edges[i].check
  }

  /** The other edges of the check that carry a negative message. */
  ghost function Negatives(edges: seq<SparseEdge>, q: Soft, i: nat): set<nat>
    requires |q| == |edges| && i < |edges|
  {
    set j: nat | j < |edges| && Other(edges, i, j) && q[j] < 0.0
  }

  /** r is what normalised min-sum sends along edge i when q arrives at the checks: three quarters of the
      least magnitude among the other edges, negative when an odd number of them are. */
  ghost predicate MinSumLaw(edges: seq<SparseEdge>, q: Soft, i: nat, r: real)
    requires |q| == |edges| && i < |edges|
  {
    && (forall j: nat | j < |edges| && Other(edges, i, j) :: 4.0 * Abs(r) <= 3.0 * Abs(q[j]))
    && (exists j: nat :: j < |edges| && Other(edges, i, j) && 4.0 * Abs(r) == 3.0 * Abs(q[j]))
    && ((forall j: nat | j < |edges| && Other(edges, i, j) :: q[j] != 0.0) ==>
          (r < 0.0 <==> |Negatives(edges, q, i)| % 2 == 1))
  }

  /** The law leaves no choice. */
  lemma MinSumLawUnique(edges: seq<SparseEdge>, q: Soft, i: nat, r: real, r': real)
    requires |q| == |edges| && i < |edges| && MinSumLaw(edges, q, i, r) && MinSumLaw(edges, q, i, r')
    ensures r == r'
  {
  }

  lemma {:induction false} MinOverMeans(els: seq<nat>, m: Soft, skip: int)
    requires Indexes(els, |m|) && MinOver(els, m, skip).Some?
    ensures forall j | j in els && j != skip :: MinOver(els, m, skip).value <= Abs(m[j])
    ensures exists j :: j in els && j != skip && MinOver(els, m, skip).value == Abs(m[j])
  {
    var n := |els| - 1;
    var rest := MinOver(els[..n], m, skip);
    forall j ensures j in els <==> j in els[..n] || j == els[n] { assert els == els[..n] + [els[n]]; }
    if rest.Some? {
      MinOverMeans(els[..n], m, skip);
    } else {
      NoneMeans(els[..n], m, skip);
    }
  }

  lemma {:induction false} NoneMeans(els: seq<nat>, m: Soft, skip: int)
    requires Indexes(els, |m|) && MinOver(els, m, skip).None?
    ensures forall j | j in els :: j == skip
  {
    if els != [] {
      var n := |els| - 1;
      NoneMeans(els[..n], m, skip);
      assert els == els[..n] + [els[n]];
    }
  }

  ghost function NegativeIn(els: seq<nat>, m: Soft, skip: int): set<nat>
    requires Indexes(els, |m|)
  {
    set j | j in els && j != skip && m[j] < 0.0
  }

  lemma {:induction false} NegOverCounts(els: seq<nat>, m: Soft, skip: int)
    requires Indexes(els, |m|) && forall p, q | 0 <= p < q < |els| :: els[p] < els[q]
    ensures NegOver(els, m, skip) <==> |NegativeIn(els, m, skip)| % 2 == 1
  {
    hide NegativeIn;
    if els == [] {
      NegativeNone(m, skip);
    } else {
      var n := |els| - 1;
      NegOverCounts(els[..n], m, skip);
      assert els == els[..n] + [els[n]] && els[n] !in els[..n];
      NegativeSnoc(els[..n], els[n], m, skip);
    }
  }

  lemma NegativeNone(m: Soft, skip: int)
    ensures |NegativeIn([], m, skip)| == 0
  {
    assert NegativeIn([], m, skip) == {};
  }

  lemma NegativeSnoc(els: seq<nat>, j: nat, m: Soft, skip: int)
    requires Indexes(els, |m|) && j < |m| && j !in els
    ensures |NegativeIn(els + [j], m, skip)| == |NegativeIn(els, m, skip)| + (if j != skip && m[j] < 0.0 then 1 else 0)
  {
    var before := NegativeIn(els, m, skip);
    if j != skip && m[j] < 0.0 {
      assert NegativeIn(els + [j], m, skip) == before + {j};
    } else {
      assert NegativeIn(els + [j], m, skip) == before;
    }
  }

  lemma OthersAre(edges: seq<SparseEdge>, i: nat)
    requires i < |edges|
    ensures forall j: nat :: j in OfCheck(edges, edges[i].check) && j != i <==> Other(edges, i, j)
  {
    forall j: nat ensures j in OfCheck(edges, edges[i].check) && j != i <==> Other(edges, i, j) {
      if j < |edges| { assert Checks(edges)[j] == edges[j].check; }
    }
  }

  /** The check update of the decoder obeys the law. */
  lemma CheckStepLaw(edges: seq<SparseEdge>, q: Soft, i: nat)
    requires |q| == |edges| && i < |edges| && HasPeer(edges, i)
    ensures MinSumLaw(edges, q, i, CheckStep(edges, q)[i])
  {
    hide MinOver, NegOver, Incident;
    var els := OfCheck(edges, edges[i].check);
    OthersAre(edges, i);
    var peer :| 0 <= peer < |edges| && peer != i && edges[peer].check == edges[i].check;
    assert Other(edges, i, peer);
    MinExists(els, q, i, peer);
    MinOverMeans(els, q, i);
    NegOverCounts(els, q, i);
    assert NegativeIn(els, q, i) == Negatives(edges, q, i);
    ScaledLaw(NegOver(els, q, i), MinOver(els, q, i).value);
  }

  lemma ScaledLaw(negative: bool, a: real)
    requires a >= 0.0
    ensures var r := Scaled(negative, Some(a)); 4.0 * Abs(r) == 3.0 * a && (a > 0.0 ==> (r < 0.0 <==> negative))
  {
  }

  /** Sum of the messages into variable v along the first n edges. */
  ghost function Incoming(edges: seq<SparseEdge>, m: Soft, v: nat, n: nat): real
    requires n <= |edges| == |m|
  {
    if n == 0 then 0.0 else Incoming(edges, m, v, n - 1) + (if edges[n - 1].v == v then m[n - 1] else 0.0)
  }

  lemma {:induction false} SumIsIncoming(edges: seq<SparseEdge>, m: Soft, v: nat, n: nat)
    requires n <= |edges| == |m|
    ensures SumOver(Incident(Vars(edges), v, n), m, -1) == Incoming(edges, m, v, n)
  {
    hide SumOver, Incident;
    if n == 0 {
      SumNone(m);
      IncidentStep(Vars(edges), v, 0);
    } else {
      SumIsIncoming(edges, m, v, n - 1);
      IncidentStep(Vars(edges), v, n);
      if edges[n - 1].v == v { SumSnoc(Incident(Vars(edges), v, n - 1), n - 1, m); }
    }
  }

  lemma IncidentStep(keys: seq<nat>, k: nat, n: nat)
    requires n <= |keys|
    ensures n == 0 ==> Incident(keys, k, n) == []
    ensures n > 0 ==>
      Incident(keys, k, n) == if keys[n - 1] == k then Incident(keys, k, n - 1) + [n - 1] else Incident(keys, k, n - 1)
  {
    if n > 0 { assert Incident(keys, k, n - 1) + [] == Incident(keys, k, n - 1); }
  }

  lemma SumNone(m: Soft)
    ensures SumOver([], m, -1) == 0.0
  {
  }

  lemma SumSnoc(els: seq<nat>, j: nat, m: Soft)
    requires Indexes(els, |m|) && j < |m|
    ensures SumOver(els + [j], m, -1) == SumOver(els, m, -1) + m[j]
  {
    assert (els + [j])[..|els|] == els;
  }

  /** What arrives at the checks in iteration t: the a-posteriori value without the edge's own message. */
  ghost function Arriving(edges: seq<SparseEdge>, llr: Soft, t: nat): (q: Soft)
    requires VarsBelow(edges, |llr|)
    ensures |q| == |edges|
  {
    seq(|edges|, i requires 0 <= i < |edges| => AppAt(edges, llr, t, edges[i].v) - Messages(edges, llr, t)[i])
  }

  /** The whole decoder by its laws. Messages start at 0; a-posteriori values are the channel value plus
      all incoming messages; hard decisions are their signs; and the next messages follow from what
      arrives at the checks by the min-sum law. */
  lemma DecoderLaw(edges: seq<SparseEdge>, llr: Soft, t: nat)
    requires VarsBelow(edges, |llr|) && NoLeafCheck(edges)
    ensures forall i | 0 <= i < |edges| :: Messages(edges, llr, 0)[i] == 0.0
    ensures forall v | 0 <= v < |llr| ::
      && AppAt(edges, llr, t, v) == llr[v] + Incoming(edges, Messages(edges, llr, t), v, |edges|)
      && (Hard(edges, llr, t)[v] <==> AppAt(edges, llr, t, v) < 0.0)
    ensures var next := Messages(edges, llr, t + 1);
      forall i | 0 <= i < |edges| :: MinSumLaw(edges, Arriving(edges, llr, t), i, next[i])
  {
    hide MinSumLaw, CheckMessage, SumOver;
    var next := Messages(edges, llr, t + 1);
    forall v | 0 <= v < |llr|
      ensures AppAt(edges, llr, t, v) == llr[v] + Incoming(edges, Messages(edges, llr, t), v, |edges|)
    {
      SumIsIncoming(edges, Messages(edges, llr, t), v, |edges|);
    }
    assert VarStep(edges, llr, Messages(edges, llr, t)) == Arriving(edges, llr, t);
    forall i | 0 <= i < |edges| ensures MinSumLaw(edges, Arriving(edges, llr, t), i, next[i]) {
      assert HasPeer(edges, i);
      CheckStepLaw(edges, Arriving(edges, llr, t), i);
    }
  }

  /** And the answer: the hard decisions of the first iteration that yields a codeword, or of the last. */
  lemma AnswerLaw(g: Graph, llr: Soft, maxIter: int, s: nat)
    requires g.Valid() && |llr| == g.N()
    requires if maxIter <= 0 then s == 0 else s <= maxIter
    requires s < maxIter ==> Codeword(g, Hard(Expanded(g), llr, s))
    requires forall t | 0 <= t < s :: !Codeword(g, Hard(Expanded(g), llr, t))
    ensures FinalWord(g, llr, maxIter) == Hard(Expanded(g), llr, s)
  {
    hide Hard, Codeword, StopFrom;
  }
}
