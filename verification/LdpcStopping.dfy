/** Where erasure message passing gets stuck: stopping sets. */
module LdpcStopping {
  import opened Common
  import opened LdpcGraph
  import opened LdpcDecoder
  import opened LdpcErasure
  import opened LdpcErasureRuns

  // ---------------------------------------------------------------- stopping sets

  /** Some other edge of the same check leads into s. */
  ghost predicate Paired(edges: seq<SparseEdge>, s: iset<nat>, i: nat)
    requires i < |edges|
  {
    exists j :: j in OfCheck(edges, edges[i].check) && j != i && edges[j].v in s
  }

  /** No check has exactly one edge into s. */
  ghost predicate StoppingSet(edges: seq<SparseEdge>, s: iset<nat>) {
    forall i | 0 <= i < |edges| && edges[i].v in s :: Paired(edges, s, i)
  }

  /** No edge into s is known. */
  ghost predicate Untouched(edges: seq<SparseEdge>, s: iset<nat>, known: Bits)
    requires |known| == |edges|
  {
    forall i | 0 <= i < |edges| && edges[i].v in s :: !known[i]
  }

  lemma VarStepUntouched(edges: seq<SparseEdge>, given: Bits, s: iset<nat>, kc: Bits)
    requires VarsBelow(edges, |given|) && |kc| == |edges| && Untouched(edges, s, kc)
    requires forall v | v in s && v < |given| :: !given[v]
    ensures Untouched(edges, s, KnownVarStep(edges, given, kc))
  {
    forall i | 0 <= i < |edges| && edges[i].v in s ensures !KnownVarStep(edges, given, kc)[i] {
      forall j | j in OfVar(edges, edges[i].v) ensures edges[j].v in s { assert Vars(edges)[j] == edges[i].v; }
    }
  }

  lemma CheckStepUntouched(edges: seq<SparseEdge>, s: iset<nat>, kv: Bits)
    requires |kv| == |edges| && StoppingSet(edges, s) && Untouched(edges, s, kv)
    ensures Untouched(edges, s, KnownCheckStep(edges, kv))
  {
    forall i | 0 <= i < |edges| && edges[i].v in s ensures !KnownCheckStep(edges, kv)[i] {
      assert Paired(edges, s, i);
      var j :| j in OfCheck(edges, edges[i].check) && j != i && edges[j].v in s;
    }
  }

  /** A stopping set of erased positions is never resolved, in any number of rounds. */
  lemma {:induction false} StoppingSetStalls(edges: seq<SparseEdge>, given: Bits, s: iset<nat>, t: nat)
    requires VarsBelow(edges, |given|) && StoppingSet(edges, s)
    requires forall v | v in s && v < |given| :: !given[v]
    ensures Untouched(edges, s, Known(edges, given, t))
    ensures forall v | v in s && v < |given| :: !Resolved(edges, given, t, v)
  {
    hide KnownVarStep, KnownCheckStep, StoppingSet;
    if t > 0 {
      StoppingSetStalls(edges, given, s, t - 1);
      var kc := Known(edges, given, t - 1);
      VarStepUntouched(edges, given, s, kc);
      CheckStepUntouched(edges, s, KnownVarStep(edges, given, kc));
    }
    forall v, j | v in s && v < |given| && j in OfVar(edges, v) ensures edges[j].v in s { assert Vars(edges)[j] == v; }
  }

  ghost function Unresolved(edges: seq<SparseEdge>, given: Bits, t: nat): iset<nat>
    requires VarsBelow(edges, |given|)
  {
    iset v: nat | v < |given| && !Resolved(edges, given, t, v)
  }

  /** Once knowledge stops growing, the unresolved variables form a stopping set. */
  lemma StuckIsStopping(edges: seq<SparseEdge>, given: Bits, t: nat)
    requires VarsBelow(edges, |given|) && Known(edges, given, t + 1) == Known(edges, given, t)
    ensures StoppingSet(edges, Unresolved(edges, given, t))
  {
    hide KnownVarStep, KnownCheckStep, Paired, Known, Resolved;
    var kc := Known(edges, given, t);
    assert KnownCheckStep(edges, KnownVarStep(edges, given, kc)) == kc by { KnownNext(edges, given, t); }
    forall i | 0 <= i < |edges| && edges[i].v in Unresolved(edges, given, t)
      ensures Paired(edges, Unresolved(edges, given, t), i)
    {
      var j := StuckPeer(edges, given, kc, i) by { UnresolvedIff(edges, given, t, edges[i].v); }
      UnresolvedIff(edges, given, t, edges[j].v);
      PairedBy(edges, Unresolved(edges, given, t), i, j);
    }
  }

  lemma KnownNext(edges: seq<SparseEdge>, given: Bits, t: nat)
    requires VarsBelow(edges, |given|)
    ensures Known(edges, given, t + 1) == KnownCheckStep(edges, KnownVarStep(edges, given, Known(edges, given, t)))
  {
  }

  lemma PairedBy(edges: seq<SparseEdge>, s: iset<nat>, i: nat, j: nat)
    requires i < |edges| && j in OfCheck(edges, edges[i].check) && j != i && edges[j].v in s
    ensures Paired(edges, s, i)
  {
  }

  lemma UnresolvedIff(edges: seq<SparseEdge>, given: Bits, t: nat, v: nat)
    requires VarsBelow(edges, |given|) && v < |given|
    ensures v in Unresolved(edges, given, t) <==> !given[v] && !KnownAmong(OfVar(edges, v), Known(edges, given, t), -1)
  {
  }

  /** At a fixed point, an edge into an unresolved variable shares its check with another such edge:
      that edge could only be resolved through this check, which would need the first one. */
  lemma StuckPeer(edges: seq<SparseEdge>, given: Bits, kc: Bits, i: nat) returns (j: nat)
    requires VarsBelow(edges, |given|) && |kc| == |edges| && KnownCheckStep(edges, KnownVarStep(edges, given, kc)) == kc
    requires i < |edges| && !given[edges[i].v] && !KnownAmong(OfVar(edges, edges[i].v), kc, -1)
    ensures j in OfCheck(edges, edges[i].check) && j != i
    ensures !given[edges[j].v] && !KnownAmong(OfVar(edges, edges[j].v), kc, -1)
  {
    hide Incident, AllKnown, KnownAmong;
    var c, kv := edges[i].check, KnownVarStep(edges, given, kc);
    assert Vars(edges)[i] == edges[i].v && Checks(edges)[i] == c;
    assert i in OfVar(edges, edges[i].v) && i in OfCheck(edges, c);
    NotKnownAmong(OfVar(edges, edges[i].v), kc, i);
    assert !kc[i] && !kv[i] && !AllKnown(OfCheck(edges, c), kv, i);
    j := UnknownOther(OfCheck(edges, c), kv, i);
    assert Checks(edges)[j] == c && Vars(edges)[j] == edges[j].v;
    assert !kc[j] by { KnownNeeds(OfCheck(edges, c), kv, j, i); }
    UnknownAll(OfVar(edges, edges[j].v), kc, j);
  }

  lemma NotKnownAmong(els: seq<nat>, known: Bits, i: nat)
    requires Indexes(els, |known|) && i in els && !KnownAmong(els, known, -1)
    ensures !known[i] && !KnownAmong(els, known, i)
  {
  }

  lemma UnknownAll(els: seq<nat>, known: Bits, j: nat)
    requires Indexes(els, |known|) && j < |known| && !known[j] && !KnownAmong(els, known, j)
    ensures !KnownAmong(els, known, -1)
  {
  }

  lemma UnknownOther(els: seq<nat>, known: Bits, i: nat) returns (j: nat)
    requires Indexes(els, |known|) && !AllKnown(els, known, i)
    ensures j in els && j != i && !known[j]
  {
    j :| j in els && j != i && !known[j];
  }

  lemma KnownNeeds(els: seq<nat>, known: Bits, j: nat, i: nat)
    requires Indexes(els, |known|) && i in els && i != j && !known[i]
    ensures !AllKnown(els, known, j)
  {
  }

  ghost function Count(b: Bits): nat {
    if b == [] then 0 else Count(b[..|b| - 1]) + (if b[|b| - 1] then 1 else 0)
  }

  lemma {:induction false} CountGrows(a: Bits, b: Bits)
    requires Below(a, b)
    ensures Count(a) <= Count(b) <= |b| && (a != b ==> Count(a) < Count(b))
  {
    if a != [] {
      var n := |a| - 1;
      CountGrows(a[..n], b[..n]);
      assert a == a[..n] + [a[n]] && b == b[..n] + [b[n]];
    }
  }

  /** Each round learns a new edge or knowledge has stopped growing. */
  lemma {:induction false} GrowsOrStuck(edges: seq<SparseEdge>, given: Bits, t: nat)
    requires VarsBelow(edges, |given|)
    ensures Known(edges, given, t + 1) == Known(edges, given, t) || Count(Known(edges, given, t + 1)) >= t + 1
  {
    hide KnownVarStep, KnownCheckStep;
    KnownGrows(edges, given, t);
    CountGrows(Known(edges, given, t), Known(edges, given, t + 1));
    if t > 0 { GrowsOrStuck(edges, given, t - 1); }
  }

  /** Erasure message passing succeeds, within as many rounds as there are edges, exactly when no
      non-empty stopping set lies inside the erased positions. */
  lemma CoverageCharacterised(edges: seq<SparseEdge>, given: Bits)
    requires VarsBelow(edges, |given|)
    ensures Covered(edges, given, |edges|) <==>
      forall s: iset<nat> | StoppingSet(edges, s) && (forall v | v in s :: v < |given| && !given[v]) :: s == iset{}
  {
    hide Known, Resolved, StoppingSet;
    var t := |edges|;
    if Covered(edges, given, t) {
      forall s: iset<nat> | StoppingSet(edges, s) && (forall v | v in s :: v < |given| && !given[v])
        ensures s == iset{}
      {
        StoppingSetStalls(edges, given, s, t);
        if v :| v in s { assert false; }
      }
    } else {
      GrowsOrStuck(edges, given, t);
      KnownGrows(edges, given, t);
      CountGrows(Known(edges, given, t + 1), Known(edges, given, t + 1));
      StuckIsStopping(edges, given, t);
      var v :| 0 <= v < |given| && !Resolved(edges, given, t, v);
      var s := Unresolved(edges, given, t);
      assert v in s;
      forall u | u in s ensures !given[u] { GivenResolved(edges, given, t, u); }
    }
  }

  lemma GivenResolved(edges: seq<SparseEdge>, given: Bits, t: nat, v: nat)
    requires VarsBelow(edges, |given|) && v < |given|
    ensures given[v] ==> Resolved(edges, given, t, v)
  {
  }
}
