/** Whole decoding runs on erasures: knowledge only grows, and once it covers everything the codeword
    is the only outcome. */
module LdpcErasureRuns {
  import opened Common
  import opened LdpcGraph
  import opened Llr
  import opened LdpcDecoder
  import opened LdpcSymmetry
  import opened LdpcErasure

  // ---------------------------------------------------------------- monotonicity and uniqueness

  ghost predicate Below(a: Bits, b: Bits) {
    |a| == |b| && forall i | 0 <= i < |a| && a[i] :: b[i]
  }

  lemma StepMonotone(edges: seq<SparseEdge>, given: Bits, kc: Bits, kc': Bits)
    requires VarsBelow(edges, |given|) && |kc| == |edges| && Below(kc, kc')
    ensures Below(KnownCheckStep(edges, KnownVarStep(edges, given, kc)),
                  KnownCheckStep(edges, KnownVarStep(edges, given, kc')))
  {
    var kv, kv' := KnownVarStep(edges, given, kc), KnownVarStep(edges, given, kc');
    forall i | 0 <= i < |edges| && kv[i] ensures kv'[i] {
      if !given[edges[i].v] {
        var j :| j in OfVar(edges, edges[i].v) && j != i && kc[j];
        assert kc'[j];
      }
    }
  }

  /** Knowledge only grows. */
  lemma {:induction false} KnownGrows(edges: seq<SparseEdge>, given: Bits, t: nat)
    requires VarsBelow(edges, |given|)
    ensures Below(Known(edges, given, t), Known(edges, given, t + 1))
  {
    hide KnownVarStep, KnownCheckStep;
    if t > 0 {
      KnownGrows(edges, given, t - 1);
      StepMonotone(edges, given, Known(edges, given, t - 1), Known(edges, given, t));
    }
  }

  /** d is 0 at the variable of every known edge. */
  ghost predicate Vanishes(edges: seq<SparseEdge>, d: Bits, known: Bits)
    requires VarsBelow(edges, |d|) && |known| == |edges|
  {
    forall i | 0 <= i < |edges| && known[i] :: !d[edges[i].v]
  }

  lemma VarStepVanishes(edges: seq<SparseEdge>, d: Bits, given: Bits, kc: Bits)
    requires |given| == |d| && VarsBelow(edges, |d|) && |kc| == |edges| && Vanishes(edges, d, kc)
    requires forall v | 0 <= v < |d| && given[v] :: !d[v]
    ensures Vanishes(edges, d, KnownVarStep(edges, given, kc))
  {
    forall i | 0 <= i < |edges| && KnownVarStep(edges, given, kc)[i] ensures !d[edges[i].v] {
      var v := edges[i].v;
      if !given[v] {
        var j :| j in OfVar(edges, v) && j != i && kc[j];
        assert Vars(edges)[j] == v;
      }
    }
  }

  lemma CheckStepVanishes(g: Graph, d: Bits, kv: Bits)
    requires g.Valid() && Codeword(g, d) && |kv| == |Expanded(g)| && Vanishes(Expanded(g), d, kv)
    ensures Vanishes(Expanded(g), d, KnownCheckStep(Expanded(g), kv))
  {
    var edges := Expanded(g);
    forall i | 0 <= i < |edges| && KnownCheckStep(edges, kv)[i] ensures !d[edges[i].v] {
      OthersParity(g, d, i);
      XorVanishes(OfCheck(edges, edges[i].check), Vars(edges), d, i);
    }
  }

  /** A codeword that vanishes where the channel speaks vanishes wherever knowledge reaches. */
  lemma {:induction false} KnownVanishes(g: Graph, d: Bits, given: Bits, t: nat)
    requires g.Valid() && Codeword(g, d) && |given| == g.N()
    requires forall v | 0 <= v < g.N() && given[v] :: !d[v]
    ensures Vanishes(Expanded(g), d, Known(Expanded(g), given, t))
  {
    hide KnownVarStep, KnownCheckStep;
    if t > 0 {
      KnownVanishes(g, d, given, t - 1);
      var kc := Known(Expanded(g), given, t - 1);
      VarStepVanishes(Expanded(g), d, given, kc);
      CheckStepVanishes(g, d, KnownVarStep(Expanded(g), given, kc));
    }
  }

  lemma {:induction false} XorVanishes(els: seq<nat>, vars: seq<nat>, w: Bits, skip: int)
    requires Indexes(els, |vars|) && Indexes(vars, |w|)
    requires forall j | j in els && j != skip :: !w[vars[j]]
    ensures !XorOver(els, vars, w, skip)
  {
    if els != [] {
      assert els[|els| - 1] in els;
      XorVanishes(els[..|els| - 1], vars, w, skip);
    }
  }

  /** When erasure message passing covers everything, c is the only codeword consistent with the
      given positions. */
  lemma CoveredUnique(g: Graph, c: Bits, h: Bits, given: Bits, t: nat)
    requires g.Valid() && Codeword(g, c) && Codeword(g, h) && |given| == g.N()
    requires Covered(Expanded(g), given, t)
    requires forall v | 0 <= v < g.N() && given[v] :: h[v] == c[v]
    ensures h == c
  {
    var edges, d := Expanded(g), XorBits(c, h);
    CodewordXor(g, c, h);
    KnownVanishes(g, d, given, t);
    forall v | 0 <= v < g.N() ensures h[v] == c[v] {
      assert Resolved(edges, given, t, v);
      if !given[v] {
        var j :| j in OfVar(edges, v) && j != -1 && Known(edges, given, t)[j];
        assert Vars(edges)[j] == v;
        assert !d[v];
      }
    }
  }

  // ---------------------------------------------------------------- the decoder on erasures

  /** If erasure message passing covers every variable within maxIter rounds, decoding ends with the
      codeword itself, whether it stops early or not. */
  lemma ErasureDecoding(g: Graph, llr: Soft, c: Bits, rounds: nat, maxIter: int)
    requires g.Valid() && Codeword(g, c) && NoLeafCheck(Expanded(g)) && Consistent(llr, c)
    requires Covered(Expanded(g), Given(llr), rounds) && (rounds <= maxIter || rounds == 0)
    ensures FinalWord(g, llr, maxIter) == c
  {
    var edges, given := Expanded(g), Given(llr);
    var s := StopFrom(g, llr, 0, maxIter);
    var h := Hard(edges, llr, s);
    assert s <= rounds by {
      if rounds < s {
        CoveredHard(g, llr, c, rounds);
      }
    }
    if s == rounds {
      CoveredHard(g, llr, c, s);
    } else {
      forall v | 0 <= v < g.N() && given[v] ensures h[v] == c[v] {
        AppFollowsErasures(g, llr, c, s, v);
      }
      CoveredUnique(g, c, h, given, rounds);
    }
  }

  /** Without erasures decoding stops at once, whatever the magnitudes and the iteration limit. */
  lemma NoiselessDecoding(g: Graph, llr: Soft, c: Bits, maxIter: int)
    requires g.Valid() && Codeword(g, c) && NoLeafCheck(Expanded(g)) && Consistent(llr, c) && 0.0 !in llr
    ensures StopFrom(g, llr, 0, maxIter) == 0 && FinalWord(g, llr, maxIter) == c
  {
    assert Covered(Expanded(g), Given(llr), 0) by {
      forall v | 0 <= v < |llr| ensures Given(llr)[v] { assert llr[v] in llr; }
    }
    CoveredHard(g, llr, c, 0);
  }

  lemma CoveredHard(g: Graph, llr: Soft, c: Bits, t: nat)
    requires g.Valid() && Codeword(g, c) && NoLeafCheck(Expanded(g)) && Consistent(llr, c)
    requires Covered(Expanded(g), Given(llr), t)
    ensures Hard(Expanded(g), llr, t) == c
  {
    hide Codeword, NoLeafCheck, AppAt;
    CodewordLength(g, c);
    forall v | 0 <= v < |llr| ensures Hard(Expanded(g), llr, t)[v] == c[v] {
      assert Resolved(Expanded(g), Given(llr), t, v);
      AppFollowsErasures(g, llr, c, t, v);
    }
  }

  // ---------------------------------------------------------------- the exact outcome

  /** c where erasure message passing has resolved it after t rounds, and 0 elsewhere. */
  ghost function ResolvedPart(g: Graph, given: Bits, c: Bits, t: nat): (w: Bits)
    requires g.Valid() && |given| == g.N() == |c|
    ensures |w| == g.N()
  {
    seq(g.N(), v requires 0 <= v < g.N() => c[v] && Resolved(Expanded(g), given, t, v))
  }

  /** c where it has not. */
  ghost function UnresolvedPart(g: Graph, given: Bits, c: Bits, t: nat): (w: Bits)
    requires g.Valid() && |given| == g.N() == |c|
    ensures |w| == g.N()
  {
    seq(g.N(), v requires 0 <= v < g.N() => c[v] && !Resolved(Expanded(g), given, t, v))
  }

  /** On erasures of c the hard decision of every iteration is the part of c that is resolved. */
  lemma HardOnErasures(g: Graph, llr: Soft, c: Bits, t: nat)
    requires g.Valid() && Codeword(g, c) && NoLeafCheck(Expanded(g)) && Consistent(llr, c)
    ensures |c| == g.N() && Hard(Expanded(g), llr, t) == ResolvedPart(g, Given(llr), c, t)
  {
    hide Codeword, NoLeafCheck, AppAt, Resolved;
    CodewordLength(g, c);
    forall v | 0 <= v < g.N() ensures Hard(Expanded(g), llr, t)[v] == ResolvedPart(g, Given(llr), c, t)[v] {
      AppFollowsErasures(g, llr, c, t, v);
    }
  }

  /** The first iteration, counted from t, whose resolved part of c is a codeword, or else maxIter. */
  ghost predicate StopsAt(g: Graph, given: Bits, c: Bits, maxIter: int, s: nat)
    requires g.Valid() && |given| == g.N() == |c|
  {
    && (s < maxIter ==> Codeword(g, ResolvedPart(g, given, c, s)))
    && (if maxIter <= 0 then s == 0 else s <= maxIter)
    && forall t | 0 <= t < s :: !Codeword(g, ResolvedPart(g, given, c, t))
  }

  /** Exactly what decoding returns on erasures of c. The run stops at the first iteration whose resolved
      part of c is a codeword, and returns it; that is c if and only if every 1 of c is resolved there.
      All of this can be read off the graph and the erased positions, without the magnitudes. */
  lemma ErasureOutcome(g: Graph, llr: Soft, c: Bits, maxIter: int)
    requires g.Valid() && Codeword(g, c) && NoLeafCheck(Expanded(g)) && Consistent(llr, c)
    ensures |c| == g.N()
    ensures forall s: nat :: StopFrom(g, llr, 0, maxIter) == s <==> StopsAt(g, Given(llr), c, maxIter, s)
    ensures var s := StopFrom(g, llr, 0, maxIter);
      && FinalWord(g, llr, maxIter) == ResolvedPart(g, Given(llr), c, s)
      && (FinalWord(g, llr, maxIter) == c
          <==> forall v | 0 <= v < g.N() && c[v] :: Resolved(Expanded(g), Given(llr), s, v))
  {
    CodewordLength(g, c);
    hide Codeword, NoLeafCheck, Hard, Resolved, StopFrom;
    var given, s := Given(llr), StopFrom(g, llr, 0, maxIter);
    forall t: nat ensures Hard(Expanded(g), llr, t) == ResolvedPart(g, given, c, t) { HardOnErasures(g, llr, c, t); }
    hide ResolvedPart;
    forall s': nat | StopsAt(g, given, c, maxIter, s') ensures s' == s { }
    ResolvedAll(g, given, c, s);
  }

  lemma ResolvedAll(g: Graph, given: Bits, c: Bits, t: nat)
    requires g.Valid() && |given| == g.N() == |c|
    ensures ResolvedPart(g, given, c, t) == c
      <==> forall v | 0 <= v < g.N() && c[v] :: Resolved(Expanded(g), given, t, v)
    ensures UnresolvedPart(g, given, c, t) == Zeros(g.N())
      <==> forall v | 0 <= v < g.N() && c[v] :: Resolved(Expanded(g), given, t, v)
  {
    hide Resolved;
    if ResolvedPart(g, given, c, t) == c {
      forall v | 0 <= v < g.N() && c[v] ensures Resolved(Expanded(g), given, t, v) {
        assert ResolvedPart(g, given, c, t)[v];
      }
    }
    if UnresolvedPart(g, given, c, t) == Zeros(g.N()) {
      forall v | 0 <= v < g.N() && c[v] ensures Resolved(Expanded(g), given, t, v) {
        assert !UnresolvedPart(g, given, c, t)[v];
      }
    }
  }

  /** For erasures of c, sign-flip symmetry along any codeword d becomes a condition on the erased
      positions alone: at the stopping iteration every 1 of d is resolved, and no earlier iteration
      becomes a codeword when the unresolved part of d is added. */
  lemma FlipsOnErasuresIff(g: Graph, llr: Soft, c: Bits, d: Bits, maxIter: int)
    requires g.Valid() && Codeword(g, c) && Codeword(g, d) && NoLeafCheck(Expanded(g)) && Consistent(llr, c)
    ensures |c| == g.N() == |d|
    ensures var s := StopFrom(g, llr, 0, maxIter);
      RunFlips(g, llr, d, maxIter) <==>
        && (forall v | 0 <= v < g.N() && d[v] :: Resolved(Expanded(g), Given(llr), s, v))
        && forall t | 0 <= t < s ::
             !Codeword(g, XorBits(ResolvedPart(g, Given(llr), c, t), UnresolvedPart(g, Given(llr), d, t)))
  {
    CodewordLength(g, c);
    CodewordLength(g, d);
    hide Codeword, NoLeafCheck, Hard, Resolved, StopFrom, RunFlips, Ties, ResolvedPart, UnresolvedPart;
    var s := StopFrom(g, llr, 0, maxIter);
    FlipsIff(g, llr, d, maxIter);
    forall t | 0 <= t <= s
      ensures Hard(Expanded(g), llr, t) == ResolvedPart(g, Given(llr), c, t)
      ensures Ties(g, llr, d, t) == UnresolvedPart(g, Given(llr), d, t)
    {
      HardOnErasures(g, llr, c, t);
      TiesOnErasures(g, llr, c, d, t);
    }
    ResolvedAll(g, Given(llr), d, s);
  }

  lemma TiesOnErasures(g: Graph, llr: Soft, c: Bits, d: Bits, t: nat)
    requires g.Valid() && Codeword(g, c) && |d| == g.N() && NoLeafCheck(Expanded(g)) && Consistent(llr, c)
    ensures |llr| == g.N() && Ties(g, llr, d, t) == UnresolvedPart(g, Given(llr), d, t)
  {
    hide Codeword, NoLeafCheck, AppAt, Resolved;
    CodewordLength(g, c);
    forall v | 0 <= v < g.N() ensures Ties(g, llr, d, t)[v] == UnresolvedPart(g, Given(llr), d, t)[v] {
      AppFollowsErasures(g, llr, c, t, v);
    }
  }
}
