/** The HARQ soft buffer: one accumulator per process. */
module Harq {
  import opened Common
  import opened Llr

  datatype HarqProcess = HarqProcess(processId: nat, ndi: int, softBuffer: Soft, rv: int, txCount: nat)

  datatype Event = Upsert(processId: nat, ndi: int, llr: Soft, rv: int) | Clear(processId: nat)

  type Processes = map<nat, HarqProcess>

  /** A retransmission whose length does not fit the stored buffer is rejected. */
  predicate Accepts(procs: Processes, e: Event) {
    e.Upsert? && e.processId in procs && procs[e.processId].ndi == e.ndi ==> |procs[e.processId].softBuffer| == |e.llr|
  }

  function Step(procs: Processes, e: Event): Processes {
    match e
    case Clear(id) => procs - {id}
    case Upsert(id, ndi, llr, rv) =>
      if id !in procs || procs[id].ndi != ndi then
        procs[id := HarqProcess(id, ndi, llr, rv, 1)]
      else if |procs[id].softBuffer| != |llr| then
        procs
      else
        var p := procs[id];
        procs[id := p.(softBuffer := Sum(p.softBuffer, llr), rv := rv, txCount := p.txCount + 1)]
  }

  class HarqBuffer {
    var procs: Processes

    constructor ()
      ensures procs == map[]
    {
      procs := map[];
    }

    /** Starts afresh on a new process or a toggled NDI, and otherwise combines. */
    method UpsertLlr(processId: nat, ndi: int, llr: Soft, rv: int) returns (ok: bool)
      modifies this
      ensures ok == Accepts(old(procs), Upsert(processId, ndi, llr, rv))
      ensures procs == Step(old(procs), Upsert(processId, ndi, llr, rv))
    {
      if processId !in procs || procs[processId].ndi != ndi {
        var p := HarqProcess(processId, ndi, llr, rv, 1);
        procs := procs[processId := p];
        return true;
      }
      var p := procs[processId];
      if |p.softBuffer| != |llr| { return false; }
      var sum := LlrCombine(p.softBuffer, llr);
      procs := procs[processId := p.(softBuffer := sum.value, rv := rv, txCount := p.txCount + 1)];
      return true;
    }

    method Get(processId: nat) returns (r: Option<Soft>)
      ensures r == if processId in procs then Some(procs[processId].softBuffer) else None
    {
      if processId !in procs { return None; }
      return Some(procs[processId].softBuffer);
    }

    method ClearProcess(processId: nat)
      modifies this
      ensures procs == Step(old(procs), Clear(processId))
    {
      procs := procs - {processId};
    }
  }

  // ---------------------------------------------------------------- whole histories

  function Run(h: seq<Event>): Processes {
    if h == [] then map[] else Step(Run(h[..|h| - 1]), h[|h| - 1])
  }

  /** The events of a history that did not throw. */
  function Accepted(h: seq<Event>): seq<Event> {
    if h == [] then []
    else
      var init, e := h[..|h| - 1], h[|h| - 1];
      if Accepts(Run(init), e) then Accepted(init) + [e] else Accepted(init)
  }

  /** Rejected events leave no trace. */
  lemma {:induction false} RejectedIsInvisible(h: seq<Event>)
    ensures Run(Accepted(h)) == Run(h)
    ensures Accepted(Accepted(h)) == Accepted(h)
  {
    if h != [] {
      var init, e := h[..|h| - 1], h[|h| - 1];
      RejectedIsInvisible(init);
      if Accepts(Run(init), e) {
        assert (Accepted(init) + [e])[..|Accepted(init)|] == Accepted(init);
      }
    }
  }

  /** Reading a history backwards: the LLRs received for a process since it last changed its NDI,
      was cleared, or did not exist. */
  function Since(h: seq<Event>, id: nat, ndi: int): seq<Soft> {
    if h == [] then []
    else
      var init, e := h[..|h| - 1], h[|h| - 1];
      if e.processId != id then Since(init, id, ndi)
      else if e.Upsert? && e.ndi == ndi then Since(init, id, ndi) + [e.llr]
      else []
  }

  /** The last event of a process. */
  function Last(h: seq<Event>, id: nat): Option<Event> {
    if h == [] then None
    else if h[|h| - 1].processId == id then Some(h[|h| - 1])
    else Last(h[..|h| - 1], id)
  }

  ghost predicate SameLength(xs: seq<Soft>, n: nat) {
    forall i | 0 <= i < |xs| :: |xs[i]| == n
  }

  function SumAll(xs: seq<Soft>, n: nat): (s: Soft)
    requires SameLength(xs, n)
    ensures |s| == n
  {
    if xs == [] then seq(n, _ => 0.0) else Sum(SumAll(xs[..|xs| - 1], n), xs[|xs| - 1])
  }

  lemma SumAllSnoc(xs: seq<Soft>, x: Soft, n: nat)
    requires SameLength(xs, n) && |x| == n
    ensures SameLength(xs + [x], n) && SumAll(xs + [x], n) == Sum(SumAll(xs, n), x)
  {
    assert (xs + [x])[..|xs|] == xs;
  }

  /** After any history a process exists exactly when its last accepted event was a transmission; it
      then holds the sum and the number of the LLRs accepted since its NDI last changed. */
  lemma HoldsSumSince(h: seq<Event>, id: nat)
    ensures id in Run(h) <==> Last(Accepted(h), id).Some? && Last(Accepted(h), id).value.Upsert?
    ensures id in Run(h) ==>
      HoldsSum(Run(h)[id], Last(Accepted(h), id).value, Since(Accepted(h), id, Run(h)[id].ndi))
  {
    RejectedIsInvisible(h);
    AcceptedHoldsSum(Accepted(h), id);
  }

  lemma {:induction false} AcceptedHoldsSum(h: seq<Event>, id: nat)
    requires Accepted(h) == h
    ensures id in Run(h) <==> Last(h, id).Some? && Last(h, id).value.Upsert?
    ensures id in Run(h) ==> HoldsSum(Run(h)[id], Last(h, id).value, Since(h, id, Run(h)[id].ndi))
  {
    hide HoldsSum, SumAll, Accepted;
    if h != [] {
      var init, e := h[..|h| - 1], h[|h| - 1];
      AcceptedInit(h);
      AcceptedHoldsSum(init, id);
      LastHasId(init, id);
      if e.processId == id && e.Upsert? {
        if id in Run(init) {
          HoldsParts(Run(init)[id], Last(init, id).value, Since(init, id, Run(init)[id].ndi));
        }
        if id in Run(init) && Run(init)[id].ndi == e.ndi {
          SumCombines(Run(init)[id], Last(init, id).value, Since(init, id, e.ndi), e);
        } else {
          if id in Run(init) { SinceOther(init, id, e.ndi); } else { SinceNothing(init, id, e.ndi); }
          SumStarts(e);
        }
      }
    }
  }

  lemma HoldsParts(p: HarqProcess, last: Event, xs: seq<Soft>)
    requires HoldsSum(p, last, xs)
    ensures last.Upsert? && p.processId == last.processId && p.ndi == last.ndi
  {
  }

  /** A retransmission under the same NDI adds to the sum. */
  lemma SumCombines(p: HarqProcess, last: Event, xs: seq<Soft>, e: Event)
    requires HoldsSum(p, last, xs) && e.Upsert? && p.processId == e.processId && p.ndi == e.ndi
    requires |p.softBuffer| == |e.llr|
    ensures HoldsSum(p.(softBuffer := Sum(p.softBuffer, e.llr), rv := e.rv, txCount := p.txCount + 1), e, xs + [e.llr])
  {
    SumAllSnoc(xs, e.llr, |e.llr|);
  }

  /** A first transmission is a sum of one. */
  lemma SumStarts(e: Event)
    requires e.Upsert?
    ensures HoldsSum(HarqProcess(e.processId, e.ndi, e.llr, e.rv, 1), e, [] + [e.llr])
  {
    SumAllSnoc([], e.llr, |e.llr|);
    assert Sum(SumAll([], |e.llr|), e.llr) == e.llr;
  }

  lemma {:induction false} LastHasId(h: seq<Event>, id: nat)
    ensures Last(h, id).Some? ==> Last(h, id).value.processId == id
  {
    if h != [] { LastHasId(h[..|h| - 1], id); }
  }

  ghost predicate HoldsSum(p: HarqProcess, last: Event, xs: seq<Soft>) {
    && last.Upsert? && p.processId == last.processId && p.ndi == last.ndi && p.rv == last.rv
    && SameLength(xs, |p.softBuffer|) && p.softBuffer == SumAll(xs, |p.softBuffer|) && p.txCount == |xs| > 0
  }

  lemma AcceptedInit(h: seq<Event>)
    requires h != [] && Accepted(h) == h
    ensures Accepted(h[..|h| - 1]) == h[..|h| - 1]
    ensures Accepts(Run(h[..|h| - 1]), h[|h| - 1])
  {
    AcceptedShorter(h[..|h| - 1]);
    if Accepts(Run(h[..|h| - 1]), h[|h| - 1]) {
      assert h[..|h| - 1] == (Accepted(h[..|h| - 1]) + [h[|h| - 1]])[..|h| - 1];
    }
  }

  lemma {:induction false} AcceptedShorter(h: seq<Event>)
    ensures |Accepted(h)| <= |h|
  {
    if h != [] { AcceptedShorter(h[..|h| - 1]); }
  }

  /** A process whose last transmission had another NDI has received nothing under this one. */
  lemma {:induction false} SinceOther(h: seq<Event>, id: nat, ndi: int)
    requires Last(h, id).Some? && Last(h, id).value.Upsert? && Last(h, id).value.ndi != ndi
    ensures Since(h, id, ndi) == []
  {
    if h[|h| - 1].processId != id { SinceOther(h[..|h| - 1], id, ndi); }
  }

  lemma {:induction false} SinceNothing(h: seq<Event>, id: nat, ndi: int)
    requires Last(h, id).None? || Last(h, id).value.Clear?
    ensures Since(h, id, ndi) == []
  {
    if h != [] && h[|h| - 1].processId != id { SinceNothing(h[..|h| - 1], id, ndi); }
  }

  /** If everything received since the NDI change leans towards one codeword, so does the buffer. */
  lemma {:induction false} SumAllConsistent(xs: seq<Soft>, c: Bits)
    requires xs != [] && forall i | 0 <= i < |xs| :: Consistent(xs[i], c)
    ensures SameLength(xs, |c|) && Consistent(SumAll(xs, |c|), c)
    ensures forall v | 0 <= v < |c| :: SumAll(xs, |c|)[v] == 0.0 <==> forall i | 0 <= i < |xs| :: xs[i][v] == 0.0
  {
    var n := |xs| - 1;
    if n == 0 {
      assert xs[..0] == [];
      assert SumAll(xs, |c|) == xs[0];
    } else {
      SumAllConsistent(xs[..n], c);
      CombineConsistent(SumAll(xs[..n], |c|), xs[n], c);
      forall v | 0 <= v < |c|
        ensures SumAll(xs, |c|)[v] == 0.0 <==> forall i | 0 <= i < |xs| :: xs[i][v] == 0.0
      {
        assert forall i | 0 <= i < n :: xs[..n][i][v] == xs[i][v];
        if forall i | 0 <= i < n :: xs[..n][i][v] == 0.0 {
          assert forall i | 0 <= i < n :: xs[i][v] == 0.0;
        }
      }
    }
  }
}
