/** Symmetries of whole decoding runs: positive scaling, and sign flips along a codeword. They speak about
    the decoder for graphs without single-edge checks, which is what the decoder requires. */
module LdpcSymmetry {
  import opened Common
  import opened LdpcGraph
  import opened LdpcDecoder

  // ---------------------------------------------------------------- scaling

  function Times(a: real, x: real): real { a * x }

  function ScaleSoft(a: real, x: Soft): (y: Soft)
    ensures |y| == |x|
  {
    seq(|x|, i requires 0 <= i < |x| => Times(a, x[i]))
  }

  lemma Distribute(a: real, x: real, y: real)
    ensures Times(a, x + y) == Times(a, x) + Times(a, y)
    ensures Times(a, x - y) == Times(a, x) - Times(a, y)
    ensures Times(a, 0.0) == 0.0
  {
  }

  lemma ScaledOrder(a: real, x: real, y: real)
    requires a > 0.0
    ensures Times(a, x) < Times(a, y) <==> x < y
    ensures Abs(Times(a, x)) == Times(a, Abs(x))
  {
    Distribute(a, y, x);
    if x < y { assert a * (y - x) > 0.0; }
    if y < x { assert a * (x - y) > 0.0; }
    if x < 0.0 { assert a * -x > 0.0; }
    if x > 0.0 { assert a * x > 0.0; }
  }

  lemma {:induction false} SumScales(els: seq<nat>, m: Soft, skip: int, a: real)
    requires Indexes(els, |m|)
    ensures SumOver(els, ScaleSoft(a, m), skip) == Times(a, SumOver(els, m, skip))
  {
    hide Times;
    if els != [] {
      var i := |els| - 1;
      SumScales(els[..i], m, skip, a);
      Distribute(a, SumOver(els[..i], m, skip), m[els[i]]);
    } else {
      Distribute(a, 0.0, 0.0);
    }
  }

  lemma {:induction false} NegScales(els: seq<nat>, m: Soft, skip: int, a: real)
    requires Indexes(els, |m|) && a > 0.0
    ensures NegOver(els, ScaleSoft(a, m), skip) == NegOver(els, m, skip)
  {
    hide Times;
    Distribute(a, 0.0, 0.0);
    if els != [] {
      NegScales(els[..|els| - 1], m, skip, a);
      ScaledOrder(a, m[els[|els| - 1]], 0.0);
    }
  }

  function ScaleOption(a: real, x: Option<real>): Option<real> {
    match x case None => None case Some(v) => Some(Times(a, v))
  }

  lemma {:induction false} MinScales(els: seq<nat>, m: Soft, skip: int, a: real)
    requires Indexes(els, |m|) && a > 0.0
    ensures MinOver(els, ScaleSoft(a, m), skip) == ScaleOption(a, MinOver(els, m, skip))
  {
    hide Times, Abs;
    if els != [] {
      var i := |els| - 1;
      MinScales(els[..i], m, skip, a);
      ScaledOrder(a, m[els[i]], 0.0);
      var rest := MinOver(els[..i], m, skip);
      if rest.Some? { ScaledOrder(a, Abs(m[els[i]]), rest.value); }
    }
  }

  lemma AppScales(edges: seq<SparseEdge>, llr: Soft, c2v: Soft, v: nat, a: real)
    requires VarsBelow(edges, |llr|) && |c2v| == |edges| && v < |llr|
    ensures App(edges, ScaleSoft(a, llr), ScaleSoft(a, c2v), v) == Times(a, App(edges, llr, c2v, v))
  {
    SumScales(OfVar(edges, v), c2v, -1, a);
    Distribute(a, llr[v], SumOver(OfVar(edges, v), c2v, -1));
  }

  lemma VarStepScales(edges: seq<SparseEdge>, llr: Soft, c2v: Soft, a: real)
    requires VarsBelow(edges, |llr|) && |c2v| == |edges|
    ensures VarStep(edges, ScaleSoft(a, llr), ScaleSoft(a, c2v)) == ScaleSoft(a, VarStep(edges, llr, c2v))
  {
    hide App, Times;
    forall i | 0 <= i < |edges|
      ensures VarStep(edges, ScaleSoft(a, llr), ScaleSoft(a, c2v))[i] == ScaleSoft(a, VarStep(edges, llr, c2v))[i]
    {
      AppScales(edges, llr, c2v, edges[i].v, a);
      Distribute(a, App(edges, llr, c2v, edges[i].v), c2v[i]);
    }
  }

  lemma ScaledScales(negative: bool, x: Option<real>, a: real)
    ensures Scaled(negative, ScaleOption(a, x)) == Times(a, Scaled(negative, x))
  {
  }

  lemma CheckStepScales(edges: seq<SparseEdge>, v2c: Soft, a: real)
    requires |v2c| == |edges| && a > 0.0
    ensures CheckStep(edges, ScaleSoft(a, v2c)) == ScaleSoft(a, CheckStep(edges, v2c))
  {
    hide Times, Scaled, NegOver, MinOver;
    forall i | 0 <= i < |edges|
      ensures CheckStep(edges, ScaleSoft(a, v2c))[i] == ScaleSoft(a, CheckStep(edges, v2c))[i]
    {
      var els := OfCheck(edges, edges[i].check);
      NegScales(els, v2c, i, a);
      MinScales(els, v2c, i, a);
      ScaledScales(NegOver(els, v2c, i), MinOver(els, v2c, i), a);
    }
  }

  lemma {:induction false} MessagesScale(edges: seq<SparseEdge>, llr: Soft, t: nat, a: real)
    requires VarsBelow(edges, |llr|) && a > 0.0
    ensures Messages(edges, ScaleSoft(a, llr), t) == ScaleSoft(a, Messages(edges, llr, t))
  {
    hide VarStep, CheckStep;
    if t > 0 {
      var c2v := Messages(edges, llr, t - 1);
      MessagesScale(edges, llr, t - 1, a);
      VarStepScales(edges, llr, c2v, a);
      CheckStepScales(edges, VarStep(edges, llr, c2v), a);
    }
  }

  lemma HardScales(edges: seq<SparseEdge>, llr: Soft, t: nat, a: real)
    requires VarsBelow(edges, |llr|) && a > 0.0
    ensures Hard(edges, ScaleSoft(a, llr), t) == Hard(edges, llr, t)
  {
    hide Messages, App, Times;
    MessagesScale(edges, llr, t, a);
    Distribute(a, 0.0, 0.0);
    forall v | 0 <= v < |llr| ensures Hard(edges, ScaleSoft(a, llr), t)[v] == Hard(edges, llr, t)[v] {
      AppScales(edges, llr, Messages(edges, llr, t), v, a);
      ScaledOrder(a, AppAt(edges, llr, t, v), 0.0);
    }
  }

  lemma {:induction false} StopScales(g: Graph, llr: Soft, t: nat, maxIter: int, a: real)
    requires g.Valid() && |llr| == g.N() && a > 0.0
    ensures StopFrom(g, ScaleSoft(a, llr), t, maxIter) == StopFrom(g, llr, t, maxIter)
    decreases maxIter - t
  {
    hide Hard;
    HardScales(Expanded(g), llr, t, a);
    if t < maxIter && !Codeword(g, Hard(Expanded(g), llr, t)) {
      StopScales(g, llr, t + 1, maxIter, a);
    }
  }

  /** A positive factor on all LLRs changes neither the stopping iteration nor the output. */
  lemma ScaleInvariance(g: Graph, llr: Soft, maxIter: int, a: real)
    requires g.Valid() && |llr| == g.N() && a > 0.0
    ensures StopFrom(g, ScaleSoft(a, llr), 0, maxIter) == StopFrom(g, llr, 0, maxIter)
    ensures FinalWord(g, ScaleSoft(a, llr), maxIter) == FinalWord(g, llr, maxIter)
  {
    hide Hard;
    StopScales(g, llr, 0, maxIter, a);
    HardScales(Expanded(g), llr, StopFrom(g, llr, 0, maxIter), a);
  }

  // ---------------------------------------------------------------- flips along a codeword

  function Signed(b: bool, x: real): real { if b then -x else x }

  /** Negates the LLRs at the 1-positions of c. */
  function FlipSoft(c: Bits, x: Soft): (y: Soft)
    requires |c| == |x|
    ensures |y| == |x|
  {
    seq(|x|, v requires 0 <= v < |x| => Signed(c[v], x[v]))
  }

  /** Negates the messages on edges whose variable is a 1-position of c. */
  function FlipMessages(edges: seq<SparseEdge>, c: Bits, m: Soft): (m': Soft)
    requires VarsBelow(edges, |c|) && |m| == |edges|
    ensures |m'| == |m|
  {
    seq(|m|, i requires 0 <= i < |m| => Signed(c[edges[i].v], m[i]))
  }

  lemma {:induction false} SumFlips(els: seq<nat>, edges: seq<SparseEdge>, c: Bits, m: Soft, skip: int, b: bool)
    requires VarsBelow(edges, |c|) && |m| == |edges| && Indexes(els, |m|)
    requires forall j | j in els :: c[edges[j].v] == b
    ensures SumOver(els, FlipMessages(edges, c, m), skip) == Signed(b, SumOver(els, m, skip))
  {
    if els != [] {
      assert els[|els| - 1] in els;
      SumFlips(els[..|els| - 1], edges, c, m, skip, b);
    }
  }

  lemma {:induction false} MinFlips(els: seq<nat>, edges: seq<SparseEdge>, c: Bits, m: Soft, skip: int)
    requires VarsBelow(edges, |c|) && |m| == |edges| && Indexes(els, |m|)
    ensures MinOver(els, FlipMessages(edges, c, m), skip) == MinOver(els, m, skip)
  {
    if els != [] { MinFlips(els[..|els| - 1], edges, c, m, skip); }
  }

  /** Without zero messages, the sign of the product changes by the parity of c over the other edges. */
  lemma {:induction false} NegFlips(els: seq<nat>, edges: seq<SparseEdge>, c: Bits, m: Soft, skip: int)
    requires VarsBelow(edges, |c|) && |m| == |edges| && Indexes(els, |m|)
    requires forall j | j in els && j != skip :: m[j] != 0.0
    ensures NegOver(els, FlipMessages(edges, c, m), skip)
      == (NegOver(els, m, skip) != XorOver(els, Vars(edges), c, skip))
  {
    if els != [] {
      assert els[|els| - 1] in els;
      NegFlips(els[..|els| - 1], edges, c, m, skip);
    }
  }

  /** A zero among the other messages makes the least magnitude zero. */
  lemma {:induction false} ZeroMin(els: seq<nat>, m: Soft, skip: int, j: nat)
    requires Indexes(els, |m|) && j in els && j != skip && m[j] == 0.0
    ensures MinOver(els, m, skip) == Some(0.0)
  {
    var i := |els| - 1;
    MinNonNegative(els[..i], m, skip);
    if els[i] != j {
      assert j in els[..i];
      ZeroMin(els[..i], m, skip, j);
    }
  }

  lemma {:induction false} MinNonNegative(els: seq<nat>, m: Soft, skip: int)
    requires Indexes(els, |m|)
    ensures MinOver(els, m, skip).Some? ==> MinOver(els, m, skip).value >= 0.0
  {
    if els != [] { MinNonNegative(els[..|els| - 1], m, skip); }
  }

  lemma {:induction false} XorNoSkip(els: seq<nat>, vars: seq<nat>, w: Bits, i: nat)
    requires Indexes(els, |vars|) && Indexes(vars, |w|) && i !in els
    ensures XorOver(els, vars, w, i) == XorOver(els, vars, w, -1)
  {
    if els != [] {
      assert els[|els| - 1] in els;
      XorNoSkip(els[..|els| - 1], vars, w, i);
    }
  }

  /** Leaving out edge i removes exactly its own bit from the parity. */
  lemma {:induction false} XorSkip(els: seq<nat>, vars: seq<nat>, w: Bits, i: nat)
    requires Indexes(els, |vars|) && Indexes(vars, |w|) && i in els
    requires forall p, q | 0 <= p < q < |els| :: els[p] < els[q]
    ensures XorOver(els, vars, w, -1) == (XorOver(els, vars, w, i) != w[vars[i]])
  {
    var n := |els| - 1;
    if els[n] == i {
      XorNoSkip(els[..n], vars, w, i);
    } else {
      assert i in els[..n];
      XorSkip(els[..n], vars, w, i);
    }
  }

  /** In a codeword, the other bits of a check add up to the bit of edge i. */
  lemma OthersParity(g: Graph, c: Bits, i: nat)
    requires g.Valid() && Codeword(g, c) && i < |Expanded(g)|
    ensures XorOver(OfCheck(Expanded(g), Expanded(g)[i].check), Vars(Expanded(g)), c, i) == c[Expanded(g)[i].v]
  {
    var edges := Expanded(g);
    var k := edges[i].check;
    assert edges[..|edges|] == edges;
    XorIsParity(edges, k, |edges|, c);
    assert Checks(edges)[i] == k;
    XorSkip(OfCheck(edges, k), Vars(edges), c, i);
  }

  lemma CheckMessageFlips(g: Graph, c: Bits, m: Soft, i: nat)
    requires g.Valid() && Codeword(g, c) && |m| == |Expanded(g)| && i < |m|
    ensures CheckMessage(Expanded(g), FlipMessages(Expanded(g), c, m), i)
      == Signed(c[Expanded(g)[i].v], CheckMessage(Expanded(g), m, i))
  {
    var edges := Expanded(g);
    var els := OfCheck(edges, edges[i].check);
    MinFlips(els, edges, c, m, i);
    if j :| j in els && j != i && m[j] == 0.0 {
      ZeroMin(els, m, i, j);
    } else {
      NegFlips(els, edges, c, m, i);
      OthersParity(g, c, i);
    }
  }

  lemma AppFlips(edges: seq<SparseEdge>, llr: Soft, c2v: Soft, c: Bits, v: nat)
    requires VarsBelow(edges, |llr|) && |c2v| == |edges| && v < |llr| == |c|
    ensures App(edges, FlipSoft(c, llr), FlipMessages(edges, c, c2v), v) == Signed(c[v], App(edges, llr, c2v, v))
  {
    var els := OfVar(edges, v);
    forall j | j in els ensures edges[j].v == v { assert Vars(edges)[j] == v; }
    SumFlips(els, edges, c, c2v, -1, c[v]);
  }

  lemma VarStepFlips(edges: seq<SparseEdge>, llr: Soft, c2v: Soft, c: Bits)
    requires VarsBelow(edges, |llr|) && |c2v| == |edges| && |llr| == |c|
    ensures VarStep(edges, FlipSoft(c, llr), FlipMessages(edges, c, c2v))
      == FlipMessages(edges, c, VarStep(edges, llr, c2v))
  {
    hide App;
    forall i | 0 <= i < |edges|
      ensures VarStep(edges, FlipSoft(c, llr), FlipMessages(edges, c, c2v))[i]
           == FlipMessages(edges, c, VarStep(edges, llr, c2v))[i]
    {
      AppFlips(edges, llr, c2v, c, edges[i].v);
    }
  }

  lemma CheckStepFlips(g: Graph, c: Bits, m: Soft)
    requires g.Valid() && Codeword(g, c) && |m| == |Expanded(g)|
    ensures CheckStep(Expanded(g), FlipMessages(Expanded(g), c, m))
      == FlipMessages(Expanded(g), c, CheckStep(Expanded(g), m))
  {
    hide CheckMessage;
    forall i | 0 <= i < |m| {
      CheckMessageFlips(g, c, m, i);
    }
  }

  /** The whole message history is flipped along with the input, zeros included. */
  lemma {:induction false} MessagesFlip(g: Graph, llr: Soft, c: Bits, t: nat)
    requires g.Valid() && Codeword(g, c) && |llr| == g.N()
    ensures Messages(Expanded(g), FlipSoft(c, llr), t) == FlipMessages(Expanded(g), c, Messages(Expanded(g), llr, t))
  {
    hide VarStep, CheckStep;
    var edges := Expanded(g);
    if t > 0 {
      MessagesFlip(g, llr, c, t - 1);
      var c2v := Messages(edges, llr, t - 1);
      VarStepFlips(edges, llr, c2v, c);
      CheckStepFlips(g, c, VarStep(edges, llr, c2v));
    } else {
      assert Messages(edges, FlipSoft(c, llr), 0) == FlipMessages(edges, c, Messages(edges, llr, 0));
    }
  }

  /** The 1-positions of c whose a-posteriori value at iteration t is exactly 0. */
  ghost function Ties(g: Graph, llr: Soft, c: Bits, t: nat): (e: Bits)
    requires g.Valid() && |llr| == g.N() == |c|
    ensures |e| == g.N()
  {
    seq(g.N(), v requires 0 <= v < g.N() => c[v] && AppAt(Expanded(g), llr, t, v) == 0.0)
  }

  /** The hard decision is flipped along c except at the ties, which stay at bit 0. */
  lemma HardFlips(g: Graph, llr: Soft, c: Bits, t: nat)
    requires g.Valid() && Codeword(g, c) && |llr| == g.N()
    ensures Hard(Expanded(g), FlipSoft(c, llr), t) == XorBits(c, XorBits(Hard(Expanded(g), llr, t), Ties(g, llr, c, t)))
  {
    var edges := Expanded(g);
    MessagesFlip(g, llr, c, t);
    forall v | 0 <= v < g.N()
      ensures Hard(edges, FlipSoft(c, llr), t)[v] == XorBits(c, XorBits(Hard(edges, llr, t), Ties(g, llr, c, t)))[v]
    {
      AppFlips(edges, llr, Messages(edges, llr, t), c, v);
    }
  }

  /** So it is a codeword exactly when the original decision with its ties set is one. */
  lemma HardFlipsCodeword(g: Graph, llr: Soft, c: Bits, t: nat)
    requires g.Valid() && Codeword(g, c) && |llr| == g.N()
    ensures Codeword(g, Hard(Expanded(g), FlipSoft(c, llr), t))
      <==> Codeword(g, XorBits(Hard(Expanded(g), llr, t), Ties(g, llr, c, t)))
  {
    hide Hard, Codeword, Ties;
    HardFlips(g, llr, c, t);
    CodewordXor(g, c, XorBits(Hard(Expanded(g), llr, t), Ties(g, llr, c, t)));
  }

  lemma XorTies(w: Bits, c: Bits, e: Bits)
    requires |w| == |c| == |e|
    ensures XorBits(c, XorBits(w, e)) == XorBits(w, c) <==> e == Zeros(|e|)
    ensures XorBits(w, Zeros(|w|)) == w
  {
    if XorBits(c, XorBits(w, e)) == XorBits(w, c) {
      forall v | 0 <= v < |e| ensures !e[v] { assert XorBits(c, XorBits(w, e))[v] == XorBits(w, c)[v]; }
    }
  }

  /** Setting the ties of no earlier iteration gives a codeword, and the last iteration has no ties. */
  ghost predicate TiesHarmless(g: Graph, llr: Soft, c: Bits, s: nat)
    requires g.Valid() && |llr| == g.N() == |c|
  {
    && Ties(g, llr, c, s) == Zeros(g.N())
    && forall t | 0 <= t < s :: !Codeword(g, XorBits(Hard(Expanded(g), llr, t), Ties(g, llr, c, t)))
  }

  /** The flipped run stops at the same iteration with the flipped word. */
  ghost predicate RunFlips(g: Graph, llr: Soft, c: Bits, maxIter: int)
    requires g.Valid() && |llr| == g.N() == |c|
  {
    && StopFrom(g, FlipSoft(c, llr), 0, maxIter) == StopFrom(g, llr, 0, maxIter)
    && FinalWord(g, FlipSoft(c, llr), maxIter) == XorBits(FinalWord(g, llr, maxIter), c)
  }

  /** Negating the LLRs along a codeword c keeps the stopping iteration and adds c to the decoded word
      exactly when the ties of the original run are harmless. */
  lemma FlipsIff(g: Graph, llr: Soft, c: Bits, maxIter: int)
    requires g.Valid() && Codeword(g, c) && |llr| == g.N()
    ensures RunFlips(g, llr, c, maxIter) <==> TiesHarmless(g, llr, c, StopFrom(g, llr, 0, maxIter))
  {
    assert |c| == g.N();
    hide Hard, Codeword, Ties, StopFrom;
    var s, s' := StopFrom(g, llr, 0, maxIter), StopFrom(g, FlipSoft(c, llr), 0, maxIter);
    HardFlips(g, llr, c, s);
    XorTies(Hard(Expanded(g), llr, s), c, Ties(g, llr, c, s));
    forall t | 0 <= t <= s
      ensures Codeword(g, Hard(Expanded(g), FlipSoft(c, llr), t))
        <==> Codeword(g, XorBits(Hard(Expanded(g), llr, t), Ties(g, llr, c, t)))
    {
      HardFlipsCodeword(g, llr, c, t);
    }
    assert TiesHarmless(g, llr, c, s) ==> s <= s';
  }

  /** In particular when no a-posteriori value at a 1-position of c is ever exactly 0. */
  lemma FlipSymmetry(g: Graph, llr: Soft, c: Bits, maxIter: int)
    requires g.Valid() && Codeword(g, c) && |llr| == g.N()
    requires forall t | 0 <= t <= StopFrom(g, llr, 0, maxIter) :: Ties(g, llr, c, t) == Zeros(g.N())
    ensures RunFlips(g, llr, c, maxIter)
  {
    assert |c| == g.N();
    hide Hard, Codeword, Ties, StopFrom, RunFlips;
    forall t | 0 <= t < StopFrom(g, llr, 0, maxIter)
      ensures XorBits(Hard(Expanded(g), llr, t), Ties(g, llr, c, t)) == Hard(Expanded(g), llr, t)
    {
      XorTies(Hard(Expanded(g), llr, t), c, Ties(g, llr, c, t));
    }
    FlipsIff(g, llr, c, maxIter);
  }

  /** A wholly erased word is where it fails, for every codeword but the zero word: negating zeros
      changes nothing. */
  lemma ErasedWordDoesNotFlip(g: Graph, c: Bits, maxIter: int)
    requires g.Valid() && Codeword(g, c) && true in c
    ensures var llr := seq(g.N(), (v: nat) => 0.0); |llr| == |c| && !RunFlips(g, llr, c, maxIter)
  {
    hide Hard, StopFrom;
    var llr: Soft := seq(g.N(), (v: nat) => 0.0);
    assert FlipSoft(c, llr) == llr;
    var v :| 0 <= v < |c| && c[v];
    assert XorBits(FinalWord(g, llr, maxIter), c)[v] != FinalWord(g, llr, maxIter)[v];
  }
}
