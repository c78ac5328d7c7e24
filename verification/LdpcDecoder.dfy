/** Flooding normalised min-sum decoding in exact arithmetic, as message passing: what one iteration
    computes, where a run stops, and with which word. */
module LdpcDecoder {
  import opened Common
  import opened LdpcGraph

  // ---------------------------------------------------------------- adjacency lists

  function Vars(edges: seq<SparseEdge>): (k: seq<nat>)
    ensures |k| == |edges|
  {
    seq(|edges|, i requires 0 <= i < |edges| => edges[i].v)
  }

  function Checks(edges: seq<SparseEdge>): (k: seq<nat>)
    ensures |k| == |edges|
  {
    seq(|edges|, i requires 0 <= i < |edges| => edges[i].check)
  }

  /** The indices below n whose key is k, ascending. */
  function Incident(keys: seq<nat>, k: nat, n: nat): (els: seq<nat>)
    requires n <= |keys|
    ensures forall p | 0 <= p < |els| :: els[p] < n && keys[els[p]] == k
    ensures forall i | 0 <= i < n && keys[i] == k :: i in els
    ensures forall p, q | 0 <= p < q < |els| :: els[p] < els[q]
  {
    if n == 0 then [] else Incident(keys, k, n - 1) + (if keys[n - 1] == k then [n - 1] else [])
  }

  function OfVar(edges: seq<SparseEdge>, v: nat): seq<nat> { Incident(Vars(edges), v, |edges|) }

  function OfCheck(edges: seq<SparseEdge>, c: nat): seq<nat> { Incident(Checks(edges), c, |edges|) }

  ghost predicate Indexes(els: seq<nat>, n: nat) {
    forall p | 0 <= p < |els| :: els[p] < n
  }

  // ---------------------------------------------------------------- folds over a list of edges

  /** Sum of the messages on the listed edges other than skip (-1 skips none). */
  function SumOver(els: seq<nat>, m: Soft, skip: int): real
    requires Indexes(els, |m|)
  {
    if els == [] then 0.0
    else
      var j := els[|els| - 1];
      SumOver(els[..|els| - 1], m, skip) + (if j == skip then 0.0 else m[j])
  }

  /** Parity of w over the variables of the listed edges other than skip. */
  function XorOver(els: seq<nat>, vars: seq<nat>, w: Bits, skip: int): bool
    requires Indexes(els, |vars|) && Indexes(vars, |w|)
  {
    if els == [] then false
    else
      var j := els[|els| - 1];
      XorOver(els[..|els| - 1], vars, w, skip) != (j != skip && w[vars[j]])
  }

  /** Is the number of negative messages odd? */
  function NegOver(els: seq<nat>, m: Soft, skip: int): bool
    requires Indexes(els, |m|)
  {
    if els == [] then false
    else
      var j := els[|els| - 1];
      NegOver(els[..|els| - 1], m, skip) != (j != skip && m[j] < 0.0)
  }

  /** Least magnitude; None is the initial infinity. */
  function MinOver(els: seq<nat>, m: Soft, skip: int): Option<real>
    requires Indexes(els, |m|)
  {
    if els == [] then None
    else
      var j := els[|els| - 1];
      var rest := MinOver(els[..|els| - 1], m, skip);
      if j == skip then rest else Smaller(Abs(m[j]), rest)
  }

  function Smaller(a: real, min1: Option<real>): Option<real> {
    if min1.None? || a < min1.value then Some(a) else min1
  }

  // ---------------------------------------------------------------- one iteration

  /** A-posteriori value of variable v. */
  function App(edges: seq<SparseEdge>, llr: Soft, c2v: Soft, v: nat): real
    requires VarsBelow(edges, |llr|) && |c2v| == |edges| && v < |llr|
  {
    llr[v] + SumOver(OfVar(edges, v), c2v, -1)
  }

  function VarStep(edges: seq<SparseEdge>, llr: Soft, c2v: Soft): (v2c: Soft)
    requires VarsBelow(edges, |llr|) && |c2v| == |edges|
    ensures |v2c| == |edges|
  {
    seq(|edges|, i requires 0 <= i < |edges| => App(edges, llr, c2v, edges[i].v) - c2v[i])
  }

  /** The message check c = edges[i].check sends along edge i. */
  function CheckMessage(edges: seq<SparseEdge>, v2c: Soft, i: nat): real
    requires |v2c| == |edges| && i < |edges|
  {
    var els := OfCheck(edges, edges[i].check);
    Scaled(NegOver(els, v2c, i), MinOver(els, v2c, i))
  }

  /** sign * min1 * 0.75. The message of a check with a single edge, where the program multiplies an
      infinite min1, is not modelled: None has no meaning here, and the decoder requires NoLeafCheck. */
  function Scaled(negative: bool, min1: Option<real>): real {
    match min1
    case None => 0.0
    case Some(a) => (if negative then -1.0 else 1.0) * a * 0.75
  }

  function CheckStep(edges: seq<SparseEdge>, v2c: Soft): (c2v: Soft)
    requires |v2c| == |edges|
    ensures |c2v| == |edges|
  {
    seq(|edges|, i requires 0 <= i < |edges| => CheckMessage(edges, v2c, i))
  }

  /** Check-to-variable messages after t iterations. */
  function Messages(edges: seq<SparseEdge>, llr: Soft, t: nat): (c2v: Soft)
    requires VarsBelow(edges, |llr|)
    ensures |c2v| == |edges|
  {
    if t == 0 then seq(|edges|, _ => 0.0)
    else CheckStep(edges, VarStep(edges, llr, Messages(edges, llr, t - 1)))
  }

  /** A-posteriori value of variable v at iteration t. */
  function AppAt(edges: seq<SparseEdge>, llr: Soft, t: nat, v: nat): real
    requires VarsBelow(edges, |llr|) && v < |llr|
  {
    App(edges, llr, Messages(edges, llr, t), v)
  }

  /** Hard decision at iteration t: an a-posteriori value of exactly 0 decides for bit 0. */
  function Hard(edges: seq<SparseEdge>, llr: Soft, t: nat): (w: Bits)
    requires VarsBelow(edges, |llr|)
    ensures |w| == |llr|
  {
    seq(|llr|, v requires 0 <= v < |llr| => !(AppAt(edges, llr, t, v) >= 0.0))
  }

  // ---------------------------------------------------------------- whole runs

  /** The iteration, counted from t, at which the decoder stops. */
  ghost function StopFrom(g: Graph, llr: Soft, t: nat, maxIter: int): (s: nat)
    requires g.Valid() && |llr| == g.N()
    ensures t <= s && (t < maxIter ==> s <= maxIter) && (t >= maxIter ==> s == t)
    ensures s < maxIter ==> Codeword(g, Hard(Expanded(g), llr, s))
    ensures forall u | t <= u < s :: !Codeword(g, Hard(Expanded(g), llr, u))
    decreases maxIter - t
  {
    if t >= maxIter || Codeword(g, Hard(Expanded(g), llr, t)) then t else StopFrom(g, llr, t + 1, maxIter)
  }

  /** The word that ends the run: the first hard decision that is a codeword, or the last one. */
  ghost function FinalWord(g: Graph, llr: Soft, maxIter: int): (w: Bits)
    requires g.Valid() && |llr| == g.N()
    ensures |w| == g.N()
  {
    Hard(Expanded(g), llr, StopFrom(g, llr, 0, maxIter))
  }

  /** No check of the lifted graph has exactly one edge. */
  ghost predicate NoLeafCheck(edges: seq<SparseEdge>) {
    forall i | 0 <= i < |edges| :: HasPeer(edges, i)
  }

  ghost predicate HasPeer(edges: seq<SparseEdge>, i: nat)
    requires i < |edges|
  {
    exists j :: 0 <= j < |edges| && j != i && edges[j].check == edges[i].check
  }

  lemma {:induction false} MinExists(els: seq<nat>, m: Soft, skip: int, j: nat)
    requires Indexes(els, |m|) && j in els && j != skip
    ensures MinOver(els, m, skip).Some?
  {
    var i := |els| - 1;
    if els[i] != j {
      assert j in els[..i];
      MinExists(els[..i], m, skip, j);
    }
  }

  lemma XorNone(vars: seq<nat>, w: Bits, skip: int)
    requires Indexes(vars, |w|)
    ensures !XorOver([], vars, w, skip)
  {
  }

  lemma XorSnoc(els: seq<nat>, j: nat, vars: seq<nat>, w: Bits, skip: int)
    requires Indexes(els, |vars|) && j < |vars| && Indexes(vars, |w|)
    ensures XorOver(els + [j], vars, w, skip) == (XorOver(els, vars, w, skip) != (j != skip && w[vars[j]]))
  {
    assert (els + [j])[..|els|] == els;
  }

  /** The syndrome over an adjacency list is the parity over the edge list. */
  lemma {:induction false} XorIsParity(edges: seq<SparseEdge>, c: nat, n: nat, w: Bits)
    requires n <= |edges| && VarsBelow(edges, |w|)
    ensures XorOver(Incident(Checks(edges), c, n), Vars(edges), w, -1) == CheckParity(edges[..n], c, w)
  {
    hide XorOver;
    if n == 0 {
      XorNone(Vars(edges), w, -1);
    } else {
      XorIsParity(edges, c, n - 1, w);
      assert edges[..n][..n - 1] == edges[..n - 1];
      var els := Incident(Checks(edges), c, n - 1);
      if edges[n - 1].check == c {
        XorSnoc(els, n - 1, Vars(edges), w, -1);
      } else {
        assert Incident(Checks(edges), c, n) == els;
      }
    }
  }
}
