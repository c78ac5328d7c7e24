/** The imperative decoder: adjacency lists, in-place message updates, and early exit. */
module LdpcMinSum {
  import opened Common
  import opened LdpcGraph
  import opened LdpcDecoder

  // ---------------------------------------------------------------- the decoder

  /** One list per key, holding the positions of that key in ascending order. */
  method BuildLists(keys: seq<nat>, count: nat) returns (lists: array<seq<nat>>)
    requires forall i | 0 <= i < |keys| :: keys[i] < count
    ensures fresh(lists) && lists.Length == count
    ensures forall k | 0 <= k < count :: lists[k] == Incident(keys, k, |keys|)
  {
    lists := new seq<nat>[count](_ => []);
    for i := 0 to |keys|
      invariant forall k | 0 <= k < count :: lists[k] == Incident(keys, k, i)
    {
      lists[keys[i]] := lists[keys[i]] + [i];
    }
  }

  ghost predicate IsLists(lists: array<seq<nat>>, keys: seq<nat>, count: nat)
    reads lists
  {
    lists.Length == count && forall k | 0 <= k < count :: lists[k] == Incident(keys, k, |keys|)
  }

  /** channel value plus all incoming messages. */
  method SumMessages(start: real, els: seq<nat>, c2v: array<real>) returns (sum: real)
    requires Indexes(els, c2v.Length)
    ensures sum == start + SumOver(els, c2v[..], -1)
  {
    sum := start;
    for p := 0 to |els|
      invariant sum == start + SumOver(els[..p], c2v[..], -1)
    {
      assert els[..p + 1][..p] == els[..p];
      sum := sum + c2v[els[p]];
    }
    assert els[..|els|] == els;
  }

  /** The outgoing messages of one variable node. */
  method EmitMessages(sum: real, els: seq<nat>, c2v: array<real>, v2c: array<real>)
    requires c2v.Length == v2c.Length && c2v != v2c && Indexes(els, c2v.Length)
    modifies v2c
    ensures forall i | 0 <= i < v2c.Length :: v2c[i] == if i in els then sum - c2v[i] else old(v2c[i])
  {
    for p := 0 to |els|
      invariant forall i | 0 <= i < v2c.Length :: v2c[i] == if i in els[..p] then sum - c2v[i] else old(v2c[i])
    {
      v2c[els[p]] := sum - c2v[els[p]];
    }
    assert els[..|els|] == els;
  }

  /** All variable nodes: a-posteriori values and outgoing messages. */
  method VariableUpdate(edges: seq<SparseEdge>, llr: Soft, varEdges: array<seq<nat>>,
                        c2v: array<real>, v2c: array<real>, app: array<real>)
    requires VarsBelow(edges, |llr|) && IsLists(varEdges, Vars(edges), |llr|)
    requires c2v.Length == v2c.Length == |edges| && app.Length == |llr|
    requires c2v != v2c && c2v != app && v2c != app
    modifies v2c, app
    ensures app[..] == seq(|llr|, v requires 0 <= v < |llr| => App(edges, llr, old(c2v[..]), v))
    ensures v2c[..] == VarStep(edges, llr, c2v[..])
  {
    hide SumOver;
    ghost var was := c2v[..];
    for v := 0 to |llr|
      invariant c2v[..] == was
      invariant forall u | 0 <= u < v :: app[u] == App(edges, llr, was, u)
      invariant forall i | 0 <= i < |edges| && edges[i].v < v :: v2c[i] == App(edges, llr, was, edges[i].v) - was[i]
    {
      var els := varEdges[v];
      assert els == OfVar(edges, v);
      var sum := SumMessages(llr[v], els, c2v);
      app[v] := sum;
      EmitMessages(sum, els, c2v, v2c);
      forall i | 0 <= i < |edges| && edges[i].v == v ensures i in els { assert Vars(edges)[i] == v; }
    }
  }

  method ListParity(edges: seq<SparseEdge>, els: seq<nat>, hard: Bits) returns (s: bool)
    requires Indexes(els, |edges|) && VarsBelow(edges, |hard|)
    ensures s == XorOver(els, Vars(edges), hard, -1)
  {
    s := false;
    for p := 0 to |els|
      invariant s == XorOver(els[..p], Vars(edges), hard, -1)
    {
      assert els[..p + 1][..p] == els[..p];
      s := s != hard[edges[els[p]].v];
    }
    assert els[..|els|] == els;
  }

  /** The parity of every check on the hard decisions, along the adjacency lists. */
  method SyndromeZero(g: Graph, edges: seq<SparseEdge>, chkEdges: array<seq<nat>>, hard: Bits) returns (ok: bool)
    requires g.Valid() && edges == Expanded(g) && |hard| == g.N() && IsLists(chkEdges, Checks(edges), g.M())
    ensures ok <==> Codeword(g, hard)
  {
    hide CheckParity, XorOver, Incident;
    assert edges[..|edges|] == edges;
    for c := 0 to g.M()
      invariant forall c' | 0 <= c' < c :: !CheckParity(edges, c', hard)
    {
      var s := ListParity(edges, chkEdges[c], hard);
      XorIsParity(edges, c, |edges|, hard);
      if s { return false; }
    }
    return true;
  }

  /** The message along edge i: sign and least magnitude of the other incoming messages. */
  method CheckOne(els: seq<nat>, v2c: array<real>, i: nat) returns (r: real)
    requires Indexes(els, v2c.Length)
    ensures r == Scaled(NegOver(els, v2c[..], i), MinOver(els, v2c[..], i))
  {
    var min1: Option<real> := None;
    var negative := false;
    for p := 0 to |els|
      invariant negative == NegOver(els[..p], v2c[..], i)
      invariant min1 == MinOver(els[..p], v2c[..], i)
    {
      assert els[..p + 1][..p] == els[..p];
      var j := els[p];
      if j == i { continue; }
      min1 := Smaller(Abs(v2c[j]), min1);
      if v2c[j] < 0.0 { negative := !negative; }
    }
    assert els[..|els|] == els;
    r := Scaled(negative, min1);
  }

  /** All check nodes. */
  method CheckUpdate(edges: seq<SparseEdge>, m: nat, chkEdges: array<seq<nat>>, c2v: array<real>, v2c: array<real>)
    requires (forall i | 0 <= i < |edges| :: edges[i].check < m) && IsLists(chkEdges, Checks(edges), m)
    requires c2v.Length == v2c.Length == |edges| && c2v != v2c && NoLeafCheck(edges)
    modifies c2v
    ensures c2v[..] == CheckStep(edges, v2c[..])
  {
    hide NoLeafCheck, Scaled, NegOver, MinOver;
    for c := 0 to m
      invariant forall i | 0 <= i < |edges| && edges[i].check < c :: c2v[i] == CheckMessage(edges, v2c[..], i)
    {
      var els := chkEdges[c];
      for p := 0 to |els|
        invariant forall i | 0 <= i < |edges| && (edges[i].check < c || i in els[..p]) ::
          c2v[i] == CheckMessage(edges, v2c[..], i)
      {
        var r := CheckOne(els, v2c, els[p]);
        c2v[els[p]] := r;
      }
      assert els[..|els|] == els;
    }
  }

  /** The a-posteriori values after the last iteration. */
  method LastApp(edges: seq<SparseEdge>, llr: Soft, varEdges: array<seq<nat>>, c2v: array<real>, app: array<real>)
    requires VarsBelow(edges, |llr|) && IsLists(varEdges, Vars(edges), |llr|)
    requires c2v.Length == |edges| && app.Length == |llr| && c2v != app
    modifies app
    ensures app[..] == seq(|llr|, v requires 0 <= v < |llr| => App(edges, llr, old(c2v[..]), v))
  {
    hide SumOver;
    ghost var was := c2v[..];
    for v := 0 to |llr|
      invariant c2v[..] == was
      invariant forall u | 0 <= u < v :: app[u] == App(edges, llr, was, u)
    {
      assert varEdges[v] == OfVar(edges, v);
      app[v] := SumMessages(llr[v], varEdges[v], c2v);
    }
  }

  /** Computes FinalWord and returns its information part. */
  method DecodeMinsum(llr: Soft, g: Graph, maxIter: int) returns (r: Option<Bits>)
    requires g.Valid() && NoLeafCheck(Expanded(g))
    ensures r.Some? <==> |llr| == g.N()
    ensures r.Some? ==> g.K() <= g.N() && r.value == FinalWord(g, llr, maxIter)[..g.K()]
  {
    InfoFits(g);
    if |llr| != g.N() { return None; }
    var edges := ExpandEdges(g);
    var word := DecodeLoop(llr, g, edges, maxIter);
    return Some(word[..g.K()]);
  }

  method DecodeLoop(llr: Soft, g: Graph, edges: seq<SparseEdge>, maxIter: int) returns (word: Bits)
    requires g.Valid() && |llr| == g.N() && edges == Expanded(g) && NoLeafCheck(edges)
    ensures word == FinalWord(g, llr, maxIter)
  {
    hide App, CheckStep, VarStep, Incident, NoLeafCheck, Codeword, Hard;
    var varEdges := BuildLists(Vars(edges), |llr|);
    var chkEdges := BuildLists(Checks(edges), g.M());
    var c2v := new real[|edges|](_ => 0.0);
    var v2c := new real[|edges|](_ => 0.0);
    var app := new real[|llr|](_ => 0.0);
    assert c2v[..] == Messages(edges, llr, 0);
    var it := 0;
    while it < maxIter
      invariant it == 0 || it <= maxIter
      invariant StopFrom(g, llr, 0, maxIter) == StopFrom(g, llr, it, maxIter)
      invariant c2v[..] == Messages(edges, llr, it)
      invariant IsLists(varEdges, Vars(edges), |llr|) && IsLists(chkEdges, Checks(edges), g.M())
    {
      var hard, done := Decide(g, edges, llr, varEdges, chkEdges, c2v, v2c, app, it);
      if done { return hard; }
      CheckUpdate(edges, g.M(), chkEdges, c2v, v2c);
      it := it + 1;
    }
    LastApp(edges, llr, varEdges, c2v, app);
    word := HardOf(app);
    assert word == Hard(edges, llr, it) by { HardFromApps(edges, llr, it, app[..], word); }
  }

  /** The first half of an iteration: variable update, hard decisions, syndrome. */
  method Decide(g: Graph, edges: seq<SparseEdge>, llr: Soft, varEdges: array<seq<nat>>, chkEdges: array<seq<nat>>,
                c2v: array<real>, v2c: array<real>, app: array<real>, ghost t: nat)
    returns (hard: Bits, done: bool)
    requires g.Valid() && |llr| == g.N() && edges == Expanded(g)
    requires IsLists(varEdges, Vars(edges), |llr|) && IsLists(chkEdges, Checks(edges), g.M())
    requires c2v.Length == v2c.Length == |edges| && app.Length == |llr|
    requires c2v != v2c && c2v != app && v2c != app && c2v[..] == Messages(edges, llr, t)
    modifies v2c, app
    ensures v2c[..] == VarStep(edges, llr, c2v[..])
    ensures hard == Hard(edges, llr, t) && (done <==> Codeword(g, hard))
  {
    hide App, Codeword, Hard, Incident;
    VariableUpdate(edges, llr, varEdges, c2v, v2c, app);
    hard := HardOf(app);
    HardFromApps(edges, llr, t, app[..], hard);
    done := SyndromeZero(g, edges, chkEdges, hard);
  }

  lemma HardFromApps(edges: seq<SparseEdge>, llr: Soft, t: nat, apps: Soft, hard: Bits)
    requires VarsBelow(edges, |llr|) && |hard| == |apps| == |llr|
    requires apps == seq(|llr|, v requires 0 <= v < |llr| => App(edges, llr, Messages(edges, llr, t), v))
    requires forall v | 0 <= v < |hard| :: hard[v] == !(apps[v] >= 0.0)
    ensures hard == Hard(edges, llr, t)
  {
    hide App;
  }

  lemma InfoFits(g: Graph)
    requires g.Valid()
    ensures g.K() <= g.N()
  {
    assert g.nb * g.zc - g.kb * g.zc == (g.nb - g.kb) * g.zc;
  }

  method HardOf(app: array<real>) returns (h: Bits)
    ensures |h| == app.Length && forall v | 0 <= v < |h| :: h[v] == !(app[v] >= 0.0)
  {
    h := [];
    for v := 0 to app.Length
      invariant |h| == v && forall u | 0 <= u < v :: h[u] == !(app[u] >= 0.0)
    {
      h := h + [!(app[v] >= 0.0)];
    }
  }
}
