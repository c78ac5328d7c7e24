/** The MAC scheduler: filtering, stable ranking by metric, and packing of resource blocks. */
module Scheduler {
  import opened Common

  datatype UeState = UeState(ueId: nat, avgThroughput: real, instantRate: real, harqActive: int, harqMax: int,
    qosWeight: real, bufferBytes: real, rrcConnected: bool, filteredOut: bool, preferredMcs: int,
    preferredLayers: int, cqi: int)

  datatype PrbAllocation = PrbAllocation(ueId: nat, prbStart: int, prbCount: int, mcs: int, layers: int, metric: real)

  datatype ScheduleResult = ScheduleResult(allocations: seq<PrbAllocation>, selected: seq<nat>, filtered: seq<nat>)

  datatype SchedulerConfig =
    SchedulerConfig(nPrb: int, maxUes: int, maxHarqActive: int, minBufferBytes: real, enableQos: bool)

  function MaxReal(a: real, b: real): real { if a < b then b else a }
  function MinReal(a: real, b: real): real { if b < a then b else a }
  function MaxInt(a: int, b: int): int { if a < b then b else a }
  function MinInt(a: int, b: int): int { if b < a then b else a }

  /** The floor that keeps metric shares positive. */
  const EPSILON: real := 0.000000001

  function PfMetric(ue: UeState): real {
    ue.qosWeight * (ue.instantRate / MaxReal(ue.avgThroughput, EPSILON))
  }

  function CompositeMetric(ue: UeState, enableQos: bool): real {
    var m := PfMetric(ue) * (1.0 + 0.05 * ue.cqi as real) * (1.0 + 0.02 * ue.preferredLayers as real);
    var m := if enableQos then m * MaxReal(0.1, ue.qosWeight) else m;
    m * (1.0 + MinReal(ue.bufferBytes, 1000000.0) / 1000000.0)
      * (1.0 + 0.1 * MaxInt(0, ue.harqMax - ue.harqActive) as real)
  }

  predicate Passes(ue: UeState, cfg: SchedulerConfig) {
    && ue.rrcConnected && !ue.filteredOut && ue.bufferBytes >= cfg.minBufferBytes
    && ue.harqActive < cfg.maxHarqActive && ue.harqActive < ue.harqMax
  }

  // ---------------------------------------------------------------- the metric written out

  /** Inside its limits the metric is proportional to weight times rate over throughput, and grows linearly
      by 1/20 per CQI step, 1/50 per layer, once over a million bytes, and 1/10 per free HARQ process. The
      weight counts twice, but at least 0.1 the second time, when QoS is enabled. */
  lemma MetricValue(ue: UeState, enableQos: bool)
    requires ue.avgThroughput >= 0.000000001 && ue.bufferBytes <= 1000000.0 && ue.harqActive <= ue.harqMax
    ensures CompositeMetric(ue, enableQos) * ue.avgThroughput * 20.0 * 50.0 * 1000000.0 * 10.0
      == ue.qosWeight * ue.instantRate * (20.0 + ue.cqi as real) * (50.0 + ue.preferredLayers as real)
         * (if !enableQos then 1.0 else if ue.qosWeight < 0.1 then 0.1 else ue.qosWeight)
         * (1000000.0 + ue.bufferBytes) * (10.0 + (ue.harqMax - ue.harqActive) as real)
  {
    var d, pf := ue.avgThroughput, PfMetric(ue);
    var c, l := 1.0 + 0.05 * ue.cqi as real, 1.0 + 0.02 * ue.preferredLayers as real;
    var q := if !enableQos then 1.0 else if ue.qosWeight < 0.1 then 0.1 else ue.qosWeight;
    var b, f := 1.0 + ue.bufferBytes / 1000000.0, 1.0 + 0.1 * (ue.harqMax - ue.harqActive) as real;
    PfTimes(ue.qosWeight, ue.instantRate, d);
    assert CompositeMetric(ue, enableQos) == pf * c * l * q * b * f;
    FiveFactors(pf, c, l, q, b, f, d);
    assert 1000000.0 * b == 1000000.0 + ue.bufferBytes;
  }

  lemma PfTimes(w: real, r: real, d: real)
    requires d > 0.0
    ensures w * (r / d) * d == w * r
  {
    assert r / d * d == r;
    assert w * (r / d) * d == w * (r / d * d);
  }

  lemma FiveFactors(pf: real, c: real, l: real, q: real, b: real, f: real, d: real)
    ensures pf * c * l * q * b * f * d * 20.0 * 50.0 * 1000000.0 * 10.0
      == pf * d * (20.0 * c) * (50.0 * l) * q * (1000000.0 * b) * (10.0 * f)
  {
    var x1 := pf * c;
    var x2 := x1 * l;
    var x3 := x2 * q;
    var x4 := x3 * b;
    assert x4 * f * d == x4 * d * f;
    assert x3 * b * d == x3 * d * b;
    assert x2 * q * d == x2 * d * q;
    assert x1 * l * d == x1 * d * l;
    assert pf * c * d == pf * d * c;
    var y1 := pf * d * c;
    Pull(pf * d, c, 20.0);
    Pull(y1, l, 50.0);
    Pull(y1 * l * q, b, 1000000.0);
    Pull(y1 * l * q * b, f, 10.0);
    var y2 := y1 * l;
    assert pf * d * (20.0 * c) == 20.0 * y1;
    assert 20.0 * y1 * (50.0 * l) == 1000.0 * y2;
    assert 1000.0 * y2 * q == 1000.0 * (y2 * q);
    assert 1000.0 * (y2 * q) * (1000000.0 * b) == 1000000000.0 * (y2 * q * b);
    assert 1000000000.0 * (y2 * q * b) * (10.0 * f) == 10000000000.0 * (y2 * q * b * f);
  }

  lemma Pull(x: real, y: real, k: real)
    ensures x * (k * y) == k * (x * y)
  {
  }

  /** Beyond its limits the metric stays what it is at the limit. */
  lemma MetricSaturates(ue: UeState, enableQos: bool)
    ensures ue.avgThroughput <= 0.000000001 ==>
      CompositeMetric(ue, enableQos) == CompositeMetric(ue.(avgThroughput := 0.000000001), enableQos)
    ensures ue.bufferBytes >= 1000000.0 ==>
      CompositeMetric(ue, enableQos) == CompositeMetric(ue.(bufferBytes := 1000000.0), enableQos)
    ensures ue.harqActive >= ue.harqMax ==>
      CompositeMetric(ue, enableQos) == CompositeMetric(ue.(harqActive := ue.harqMax), enableQos)
  {
  }

  /** The five reasons to leave a terminal out. */
  lemma FilteredIff(ue: UeState, cfg: SchedulerConfig)
    ensures !Passes(ue, cfg) <==>
      || !ue.rrcConnected || ue.filteredOut || ue.bufferBytes < cfg.minBufferBytes
      || ue.harqActive >= cfg.maxHarqActive || ue.harqActive >= ue.harqMax
  {
  }

  /** Good channels raise a low MCS hint to 16 or 10, and bad ones lower a high hint to 2. */
  lemma McsMeans(ue: UeState)
    ensures ue.cqi >= 10 && ue.preferredMcs < 16 ==> Mcs(ue) == 16
    ensures 7 <= ue.cqi < 10 && ue.preferredMcs < 10 ==> Mcs(ue) == 10
    ensures ue.cqi <= 2 && ue.preferredMcs > 2 ==> Mcs(ue) == 2
    ensures (3 <= ue.cqi <= 6 || (ue.cqi >= 10 && ue.preferredMcs >= 16) || (7 <= ue.cqi < 10 && ue.preferredMcs >= 10)
             || (ue.cqi <= 2 && ue.preferredMcs <= 2)) ==> Mcs(ue) == ue.preferredMcs
  {
  }

  // ---------------------------------------------------------------- filtering

  function Eligible(ues: seq<UeState>, cfg: SchedulerConfig): (e: seq<UeState>)
    ensures forall i | 0 <= i < |e| :: Passes(e[i], cfg)
  {
    if ues == [] then []
    else
      var n := |ues| - 1;
      Eligible(ues[..n], cfg) + (if Passes(ues[n], cfg) then [ues[n]] else [])
  }

  function FilteredIds(ues: seq<UeState>, cfg: SchedulerConfig): seq<nat> {
    if ues == [] then []
    else
      var n := |ues| - 1;
      FilteredIds(ues[..n], cfg) + (if Passes(ues[n], cfg) then [] else [ues[n].ueId])
  }

  function Ids(ues: seq<UeState>): (ids: seq<nat>)
    ensures |ids| == |ues|
  {
    seq(|ues|, i requires 0 <= i < |ues| => ues[i].ueId)
  }

  /** Filtered and eligible terminals partition the input. */
  lemma {:induction false} FilterPartitions(ues: seq<UeState>, cfg: SchedulerConfig)
    ensures multiset(Ids(Eligible(ues, cfg))) + multiset(FilteredIds(ues, cfg)) == multiset(Ids(ues))
  {
    hide Ids, Passes;
    if ues == [] {
      IdsEmpty();
    } else {
      var n := |ues| - 1;
      var e, f, u := Eligible(ues[..n], cfg), FilteredIds(ues[..n], cfg), ues[n];
      FilterPartitions(ues[..n], cfg);
      IdsSnoc(ues[..n], u);
      assert ues[..n] + [u] == ues;
      if Passes(u, cfg) {
        IdsSnoc(e, u);
        assert FilteredIds(ues, cfg) == f;
      } else {
        assert Eligible(ues, cfg) == e;
        MultisetSnoc(f, u.ueId);
      }
    }
  }

  lemma IdsEmpty()
    ensures Ids([]) == []
  {
  }

  lemma IdsSnoc(ues: seq<UeState>, u: UeState)
    ensures multiset(Ids(ues + [u])) == multiset(Ids(ues)) + multiset{u.ueId}
  {
    assert Ids(ues + [u]) == Ids(ues) + [u.ueId];
  }

  lemma MultisetSnoc(xs: seq<nat>, x: nat)
    ensures multiset(xs + [x]) == multiset(xs) + multiset{x}
  {
  }

  // ---------------------------------------------------------------- stable ranking

  /** Entry i ranks before entry j: a larger metric, or an equal one and an earlier position. */
  predicate RanksBefore(ms: seq<real>, i: nat, j: nat)
    requires i < |ms| && j < |ms|
  {
    ms[i] > ms[j] || (ms[i] == ms[j] && i < j)
  }

  /** idx lists every position below n once, in rank order. */
  ghost predicate Ranking(ms: seq<real>, n: nat, idx: seq<nat>) {
    && n <= |ms| && |idx| == n
    && (forall p | 0 <= p < n :: idx[p] < n)
    && (forall i | 0 <= i < n :: i in idx)
    && forall p, q | 0 <= p < q < n :: RanksBefore(ms, idx[p], idx[q])
  }

  /** Where a new last entry with metric m goes: after everything that is at least as large. */
  function Slot(ms: seq<real>, idx: seq<nat>, m: real): (k: nat)
    requires forall p | 0 <= p < |idx| :: idx[p] < |ms|
    ensures k <= |idx|
    ensures k < |idx| ==> ms[idx[k]] < m
    ensures forall p | 0 <= p < k :: ms[idx[p]] >= m
  {
    if idx == [] then 0
    else if ms[idx[0]] < m then 0
    else 1 + Slot(ms, idx[1..], m)
  }

  /** A stable descending sort, as positions: std::stable_sort computes the one ranking there is. */
  function StableSort(ms: seq<real>, n: nat): (idx: seq<nat>)
    requires n <= |ms|
    ensures Ranking(ms, n, idx)
  {
    if n == 0 then []
    else
      var rest := StableSort(ms, n - 1);
      var k := Slot(ms, rest, ms[n - 1]);
      InsertRanks(ms, n - 1, rest, k);
      rest[..k] + [n - 1] + rest[k..]
  }

  lemma InsertRanks(ms: seq<real>, n: nat, rest: seq<nat>, k: nat)
    requires n < |ms| && Ranking(ms, n, rest) && k <= n
    requires k < n ==> ms[rest[k]] < ms[n]
    requires forall p | 0 <= p < k :: ms[rest[p]] >= ms[n]
    ensures Ranking(ms, n + 1, rest[..k] + [n] + rest[k..])
  {
    var idx := rest[..k] + [n] + rest[k..];
    forall i | 0 <= i < n + 1 ensures i in idx {
      if i < n {
        assert i in rest;
        var p :| 0 <= p < n && rest[p] == i;
        assert idx[if p < k then p else p + 1] == i;
      } else {
        assert idx[k] == n;
      }
    }
    forall p, q | 0 <= p < q < n + 1 ensures RanksBefore(ms, idx[p], idx[q]) {
      if q > k && k < n { assert ms[rest[k]] < ms[n]; assert q - 1 == k || RanksBefore(ms, rest[k], rest[q - 1]); }
    }
  }

  /** There is only one ranking. */
  lemma RankingUnique(ms: seq<real>, n: nat, x: seq<nat>, y: seq<nat>)
    requires Ranking(ms, n, x) && Ranking(ms, n, y)
    ensures x == y
  {
    var p := 0;
    while p < n
      invariant p <= n && x[..p] == y[..p]
    {
      if x[p] != y[p] {
        RankingAhead(ms, n, x, y, p);
        RankingAhead(ms, n, y, x, p);
      }
      assert x[..p + 1] == x[..p] + [x[p]] && y[..p + 1] == y[..p] + [y[p]];
      p := p + 1;
    }
    assert x[..n] == x && y[..n] == y;
  }

  /** If the rankings agree before p, entry p of one ranks before every other candidate of the other. */
  lemma RankingAhead(ms: seq<real>, n: nat, x: seq<nat>, y: seq<nat>, p: nat)
    requires Ranking(ms, n, x) && Ranking(ms, n, y) && p < n && x[..p] == y[..p] && x[p] != y[p]
    ensures RanksBefore(ms, x[p], y[p])
  {
    forall q | 0 <= q < p ensures x[q] == y[q] && RanksBefore(ms, y[q], y[p]) {
      assert x[..p][q] == y[..p][q];
    }
    assert y[p] in x;
    var q :| 0 <= q < n && x[q] == y[p];
  }

  // ---------------------------------------------------------------- packing

  /** What entry i asks for. */
  function Want(nPrb: int, m: real, sum: real): (w: int)
    requires sum > 0.0
    ensures w >= 1
  {
    MaxInt(1, (nPrb as real * (m / sum)).Floor)
  }

  /** The resource blocks left after the first i grants; the last entry takes what remains. */
  function Remaining(wants: seq<int>, nPrb: nat, i: nat): (r: nat)
    requires i <= |wants| && forall k | 0 <= k < |wants| :: wants[k] >= 1
    decreases i, 0
  {
    if i == 0 then nPrb else Remaining(wants, nPrb, i - 1) - Granted(wants, nPrb, i - 1)
  }

  function Granted(wants: seq<int>, nPrb: nat, i: nat): (g: nat)
    requires i < |wants| && forall k | 0 <= k < |wants| :: wants[k] >= 1
    ensures g <= Remaining(wants, nPrb, i)
    decreases i, 1
  {
    var r := Remaining(wants, nPrb, i);
    if i == |wants| - 1 then r else MinInt(wants[i], r)
  }

  /** Sum of the first k numbers. */
  function Total(xs: seq<int>, k: nat): int
    requires k <= |xs|
  {
    if k == 0 then 0 else Total(xs, k - 1) + xs[k - 1]
  }

  /** What is left before entry i is what the requests so far leave over, if anything. */
  lemma {:induction false} RemainingExact(wants: seq<int>, nPrb: nat, i: nat)
    requires i < |wants| && forall k | 0 <= k < |wants| :: wants[k] >= 1
    ensures Remaining(wants, nPrb, i) == MaxInt(0, nPrb - Total(wants, i))
  {
    hide Remaining, Granted;
    if i == 0 {
      NothingGranted(wants, nPrb);
    } else {
      RemainingExact(wants, nPrb, i - 1);
      GrantStep(wants, nPrb, i - 1);
    }
  }

  /** Nothing is clipped when the requests before the last entry fit. */
  lemma NothingClipped(wants: seq<int>, nPrb: nat, i: nat)
    requires i < |wants| && forall k | 0 <= k < |wants| :: wants[k] >= 1
    requires Total(wants, |wants| - 1) <= nPrb
    ensures Granted(wants, nPrb, i) == if i < |wants| - 1 then wants[i] else nPrb - Total(wants, i)
  {
    hide Remaining, Granted;
    RemainingExact(wants, nPrb, i);
    GrantStep(wants, nPrb, i);
    if i < |wants| - 1 { TotalGrows(wants, i + 1, |wants| - 1); }
  }

  lemma {:induction false} TotalGrows(wants: seq<int>, i: nat, j: nat)
    requires i <= j <= |wants| && forall k | 0 <= k < |wants| :: wants[k] >= 1
    ensures Total(wants, i) <= Total(wants, j)
    decreases j
  {
    if i < j { TotalGrows(wants, i, j - 1); }
  }

  lemma NothingGranted(wants: seq<int>, nPrb: nat)
    requires forall k | 0 <= k < |wants| :: wants[k] >= 1
    ensures Remaining(wants, nPrb, 0) == nPrb
  {
  }

  lemma GrantStep(wants: seq<int>, nPrb: nat, i: nat)
    requires i < |wants| && forall k | 0 <= k < |wants| :: wants[k] >= 1
    ensures Remaining(wants, nPrb, i + 1) == Remaining(wants, nPrb, i) - Granted(wants, nPrb, i)
    ensures i < |wants| - 1 ==> Granted(wants, nPrb, i) == MinInt(wants[i], Remaining(wants, nPrb, i))
    ensures i == |wants| - 1 ==> Granted(wants, nPrb, i) == Remaining(wants, nPrb, i)
  {
  }

  // ---------------------------------------------------------------- shares

  /** Sum of the metrics, each at least EPSILON. */
  function MetricSum(ms: seq<real>): (s: real)
    ensures ms != [] ==> s > 0.0
    ensures ms == [] ==> s == 0.0
  {
    if ms == [] then 0.0 else MetricSum(ms[..|ms| - 1]) + MaxReal(EPSILON, ms[|ms| - 1])
  }

  function Share(nPrb: int, m: real, sum: real): real
    requires sum > 0.0
  {
    nPrb as real * (m / sum)
  }

  function Wants(ms: seq<real>, nPrb: int): (w: seq<int>)
    requires ms != []
    ensures |w| == |ms| && forall i | 0 <= i < |w| :: w[i] >= 1
  {
    seq(|ms|, i requires 0 <= i < |ms| => Want(nPrb, ms[i], MetricSum(ms)))
  }

  /** Sum of the first k shares. */
  function ShareTotal(ms: seq<real>, nPrb: int, sum: real, k: nat): real
    requires sum > 0.0 && k <= |ms|
  {
    if k == 0 then 0.0 else ShareTotal(ms, nPrb, sum, k - 1) + Share(nPrb, ms[k - 1], sum)
  }

  lemma {:induction false} SharesAreProportional(ms: seq<real>, nPrb: int, sum: real, k: nat)
    requires sum > 0.0 && k <= |ms| && forall i | 0 <= i < |ms| :: ms[i] >= EPSILON
    ensures ShareTotal(ms, nPrb, sum, k) == Share(nPrb, MetricSum(ms[..k]), sum)
  {
    if k > 0 {
      SharesAreProportional(ms, nPrb, sum, k - 1);
      assert ms[..k][..k - 1] == ms[..k - 1];
      ShareAdds(nPrb, MetricSum(ms[..k - 1]), ms[k - 1], sum);
    } else {
      assert 0.0 / sum == 0.0;
    }
  }

  lemma ShareAdds(nPrb: int, a: real, b: real, sum: real)
    requires sum > 0.0
    ensures Share(nPrb, a + b, sum) == Share(nPrb, a, sum) + Share(nPrb, b, sum)
  {
    var n := nPrb as real;
    assert (a + b) / sum == a / sum + b / sum;
    assert n * (a / sum + b / sum) == n * (a / sum) + n * (b / sum);
  }

  /** With shares of at least one, requests lie less than one below their shares. */
  lemma {:induction false} WantsNearShares(ms: seq<real>, nPrb: int, k: nat)
    requires ms != [] && k <= |ms|
    requires forall i | 0 <= i < |ms| :: Share(nPrb, ms[i], MetricSum(ms)) >= 1.0
    ensures Total(Wants(ms, nPrb), k) as real <= ShareTotal(ms, nPrb, MetricSum(ms), k)
    ensures k > 0 ==> ShareTotal(ms, nPrb, MetricSum(ms), k) < (Total(Wants(ms, nPrb), k) + k) as real
  {
    if k > 0 {
      WantsNearShares(ms, nPrb, k - 1);
      var s := Share(nPrb, ms[k - 1], MetricSum(ms));
      assert s.Floor as real <= s < (s.Floor + 1) as real;
      assert s >= 1.0;
      assert Wants(ms, nPrb)[k - 1] == s.Floor;
    }
  }

  /** When all metrics reach EPSILON and all shares reach one block, nothing is clipped: every entry
      but the last gets the floor of its share, and the last gets at least its share and, when it is
      not alone, less than n - 1 blocks more. */
  lemma FairShares(ms: seq<real>, nPrb: nat)
    requires ms != [] && (forall i | 0 <= i < |ms| :: ms[i] >= EPSILON)
    requires forall i | 0 <= i < |ms| :: Share(nPrb, ms[i], MetricSum(ms)) >= 1.0
    ensures forall i | 0 <= i < |ms| - 1 ::
      Granted(Wants(ms, nPrb), nPrb, i) == Share(nPrb, ms[i], MetricSum(ms)).Floor
    ensures var n := |ms| - 1;
      var last, share := Granted(Wants(ms, nPrb), nPrb, n) as real, Share(nPrb, ms[n], MetricSum(ms));
      share <= last && (n > 0 ==> last < share + n as real)
  {
    hide Share, MetricSum, Want;
    var n, sum, w := |ms| - 1, MetricSum(ms), Wants(ms, nPrb);
    SharesAreProportional(ms, nPrb, sum, n + 1);
    assert ms[..n + 1] == ms;
    WholeShare(nPrb, sum);
    WantsNearShares(ms, nPrb, n);
    assert Total(w, n) as real <= ShareTotal(ms, nPrb, sum, n) == nPrb as real - Share(nPrb, ms[n], sum);
    NothingClipped(w, nPrb, n);
    forall i | 0 <= i < n ensures Granted(w, nPrb, i) == Share(nPrb, ms[i], sum).Floor {
      NothingClipped(w, nPrb, i);
      WantIsFloor(nPrb, ms[i], sum);
    }
  }

  lemma WholeShare(nPrb: int, sum: real)
    requires sum > 0.0
    ensures Share(nPrb, sum, sum) == nPrb as real
  {
    assert sum / sum == 1.0;
  }

  lemma WantIsFloor(nPrb: int, m: real, sum: real)
    requires sum > 0.0 && Share(nPrb, m, sum) >= 1.0
    ensures Want(nPrb, m, sum) == Share(nPrb, m, sum).Floor
  {
  }

  // ---------------------------------------------------------------- the program

  function Mcs(ue: UeState): int {
    if ue.cqi >= 10 then MaxInt(ue.preferredMcs, 16)
    else if ue.cqi >= 7 then MaxInt(ue.preferredMcs, 10)
    else if ue.cqi <= 2 then MinInt(ue.preferredMcs, 2)
    else ue.preferredMcs
  }

  function Metrics(ues: seq<UeState>, enableQos: bool): (ms: seq<real>)
    ensures |ms| == |ues|
  {
    seq(|ues|, i requires 0 <= i < |ues| => CompositeMetric(ues[i], enableQos))
  }

  /** The best n terminals in rank order. */
  function Best(ues: seq<UeState>, enableQos: bool, n: nat): (b: seq<UeState>)
    requires n <= |ues|
    ensures |b| == n
  {
    var idx := StableSort(Metrics(ues, enableQos), |ues|);
    seq(n, p requires 0 <= p < n => ues[idx[p]])
  }

  /** Grant i of the selected terminals. */
  function Grant(sel: seq<UeState>, cfg: SchedulerConfig, i: nat): PrbAllocation
    requires i < |sel| && cfg.nPrb > 0
  {
    var ms := Metrics(sel, cfg.enableQos);
    var w := Wants(ms, cfg.nPrb);
    PrbAllocation(sel[i].ueId, cfg.nPrb - Remaining(w, cfg.nPrb, i), Granted(w, cfg.nPrb, i), Mcs(sel[i]),
                  sel[i].preferredLayers, ms[i])
  }

  method SumMetrics(ms: seq<real>) returns (sum: real)
    ensures sum == MetricSum(ms)
  {
    sum := 0.0;
    for i := 0 to |ms|
      invariant sum == MetricSum(ms[..i])
    {
      assert ms[..i + 1][..i] == ms[..i];
      sum := sum + MaxReal(EPSILON, ms[i]);
    }
    assert ms[..|ms|] == ms;
  }

  /** Packs the selected terminals one after the other. */
  method Pack(sel: seq<UeState>, cfg: SchedulerConfig) returns (allocations: seq<PrbAllocation>)
    requires sel != [] && cfg.nPrb > 0
    ensures |allocations| == |sel| && forall i | 0 <= i < |sel| :: allocations[i] == Grant(sel, cfg, i)
  {
    hide CompositeMetric, Want, MetricSum, Mcs, Remaining, Granted;
    var ms := Metrics(sel, cfg.enableQos);
    var sum := SumMetrics(ms);
    ghost var w := Wants(ms, cfg.nPrb);
    allocations := [];
    var cursor, remaining := 0, cfg.nPrb;
    assert Remaining(w, cfg.nPrb, 0) == cfg.nPrb by { NothingGranted(w, cfg.nPrb); }
    for i := 0 to |sel|
      invariant remaining == Remaining(w, cfg.nPrb, i) && cursor == cfg.nPrb - remaining
      invariant |allocations| == i && forall k | 0 <= k < i :: allocations[k] == Grant(sel, cfg, k)
    {
      var n := if i == |sel| - 1 then remaining else Want(cfg.nPrb, ms[i], sum);
      if n > remaining { n := remaining; }
      GrantStep(w, cfg.nPrb, i);
      allocations := allocations + [PrbAllocation(sel[i].ueId, cursor, n, Mcs(sel[i]), sel[i].preferredLayers, ms[i])];
      cursor := cursor + n;
      remaining := remaining - n;
    }
  }

  /** Filter, rank, select, pack. */
  method Schedule(cfg: SchedulerConfig, ues: seq<UeState>) returns (r: Option<ScheduleResult>)
    ensures r.Some? <==> cfg.nPrb > 0 && cfg.maxUes > 0
    ensures r.Some? ==> r.value.filtered == FilteredIds(ues, cfg)
    ensures r.Some? ==>
      var e := Eligible(ues, cfg);
      var n := MinInt(cfg.maxUes, |e|);
      var sel := Best(e, cfg.enableQos, n);
      && r.value.selected == Ids(sel) && |r.value.allocations| == n
      && forall i | 0 <= i < n :: r.value.allocations[i] == Grant(sel, cfg, i)
  {
    hide CompositeMetric, Grant;
    if cfg.nPrb <= 0 || cfg.maxUes <= 0 { return None; }
    var eligible: seq<UeState>, filtered: seq<nat> := [], [];
    for i := 0 to |ues|
      invariant eligible == Eligible(ues[..i], cfg) && filtered == FilteredIds(ues[..i], cfg)
    {
      assert ues[..i + 1][..i] == ues[..i];
      if Passes(ues[i], cfg) { eligible := eligible + [ues[i]]; } else { filtered := filtered + [ues[i].ueId]; }
    }
    assert ues[..|ues|] == ues;
    var sel := Best(eligible, cfg.enableQos, MinInt(cfg.maxUes, |eligible|));
    if sel == [] { return Some(ScheduleResult([], [], filtered)); }
    var allocations := Pack(sel, cfg);
    return Some(ScheduleResult(allocations, Ids(sel), filtered));
  }

  // ---------------------------------------------------------------- what a schedule guarantees

  /** For any metric values the allocations follow one another without gap or overlap, from block 0 to
      the last block. */
  lemma AllocationsTile(sel: seq<UeState>, cfg: SchedulerConfig)
    requires sel != [] && cfg.nPrb > 0
    ensures Grant(sel, cfg, 0).prbStart == 0
    ensures forall i | 0 <= i < |sel| :: Grant(sel, cfg, i).prbCount >= 0
    ensures forall i | 0 <= i < |sel| - 1 ::
      Grant(sel, cfg, i + 1).prbStart == Grant(sel, cfg, i).prbStart + Grant(sel, cfg, i).prbCount
    ensures Grant(sel, cfg, |sel| - 1).prbStart + Grant(sel, cfg, |sel| - 1).prbCount == cfg.nPrb
  {
    hide CompositeMetric, Want, MetricSum, Mcs;
  }

  /** What the terminals ask for, in rank order. */
  function Requests(sel: seq<UeState>, cfg: SchedulerConfig): (w: seq<int>)
    requires sel != []
    ensures |w| == |sel| && forall i | 0 <= i < |w| :: w[i] >= 1
  {
    Wants(Metrics(sel, cfg.enableQos), cfg.nPrb)
  }

  /** The sum of the metrics, where one below 1e-9 counts as 1e-9. */
  lemma MetricSumMeans(ms: seq<real>, m: real)
    ensures MetricSum([]) == 0.0
    ensures MetricSum(ms + [m]) == MetricSum(ms) + (if m < 0.000000001 then 0.000000001 else m)
  {
    assert (ms + [m])[..|ms|] == ms;
  }

  /** A terminal asks for the whole blocks in its share, but for at least one. Its share is to all the
      blocks what its metric is to the sum of the metrics. */
  lemma RequestMeans(sel: seq<UeState>, cfg: SchedulerConfig, i: nat) returns (share: real)
    requires i < |sel|
    ensures share * MetricSum(Metrics(sel, cfg.enableQos)) == cfg.nPrb as real * CompositeMetric(sel[i], cfg.enableQos)
    ensures MetricSum(Metrics(sel, cfg.enableQos)) > 0.0
    ensures IsRequest(Requests(sel, cfg)[i], share)
  {
    hide CompositeMetric, MetricSum, IsRequest, Want, Share;
    var m, sum := CompositeMetric(sel[i], cfg.enableQos), MetricSum(Metrics(sel, cfg.enableQos));
    SumPositive(Metrics(sel, cfg.enableQos));
    share := Share(cfg.nPrb, m, sum);
    ShareTimes(cfg.nPrb, m, sum);
    WantOfShare(cfg.nPrb, m, sum);
    FloorIsRequest(share);
  }

  predicate IsRequest(w: int, share: real) {
    if share < 1.0 then w == 1 else w as real <= share < w as real + 1.0
  }

  lemma ShareTimes(nPrb: int, m: real, sum: real)
    requires sum > 0.0
    ensures Share(nPrb, m, sum) * sum == nPrb as real * m
  {
    assert m / sum * sum == m;
    assert nPrb as real * (m / sum) * sum == nPrb as real * (m / sum * sum);
  }

  lemma WantOfShare(nPrb: int, m: real, sum: real)
    requires sum > 0.0
    ensures Want(nPrb, m, sum) == MaxInt(1, Share(nPrb, m, sum).Floor)
  {
  }

  lemma FloorIsRequest(s: real)
    ensures IsRequest(MaxInt(1, s.Floor), s)
  {
    var k := s.Floor;
    assert k as real <= s;
    assert s < (k + 1) as real;
  }

  lemma SumPositive(ms: seq<real>)
    requires ms != []
    ensures MetricSum(ms) > 0.0
  {
  }

  /** The other fields of a grant are those of its terminal. */
  lemma GrantFields(sel: seq<UeState>, cfg: SchedulerConfig, i: nat)
    requires i < |sel| && cfg.nPrb > 0
    ensures var a := Grant(sel, cfg, i);
      && a.ueId == sel[i].ueId && a.layers == sel[i].preferredLayers && a.mcs == Mcs(sel[i])
      && a.metric == CompositeMetric(sel[i], cfg.enableQos)
  {
    hide CompositeMetric, Mcs, Remaining, Granted;
  }

  /** Every terminal but the last is granted what it asks for, or what is left when that is less; the last
      is granted all that is left. */
  lemma GrantMeans(sel: seq<UeState>, cfg: SchedulerConfig, i: nat)
    requires i < |sel| && cfg.nPrb > 0
    ensures var a, w := Grant(sel, cfg, i), Requests(sel, cfg);
      var left := if Total(w, i) < cfg.nPrb then cfg.nPrb - Total(w, i) else 0;
      && a.prbStart == cfg.nPrb - left
      && a.prbCount == if i < |sel| - 1 && w[i] < left then w[i] else left
  {
    hide Remaining, Granted, Wants, Metrics;
    RemainingExact(Requests(sel, cfg), cfg.nPrb, i);
    GrantStep(Requests(sel, cfg), cfg.nPrb, i);
  }

  /** A selected terminal is left without resource blocks exactly when the terminals before it ask for
      all of them. */
  lemma StarvedIff(sel: seq<UeState>, cfg: SchedulerConfig, i: nat)
    requires i < |sel| && cfg.nPrb > 0
    ensures Grant(sel, cfg, i).prbCount == 0 <==> Total(Requests(sel, cfg), i) >= cfg.nPrb
  {
    hide Remaining, Granted, Wants, Metrics;
    RemainingExact(Requests(sel, cfg), cfg.nPrb, i);
    GrantStep(Requests(sel, cfg), cfg.nPrb, i);
  }

  /** So every selected terminal gets a resource block exactly when the requests of all but the last
      leave at least one over. */
  lemma AllServedIff(sel: seq<UeState>, cfg: SchedulerConfig)
    requires sel != [] && cfg.nPrb > 0
    ensures (forall i | 0 <= i < |sel| :: Grant(sel, cfg, i).prbCount >= 1)
      <==> Total(Requests(sel, cfg), |sel| - 1) < cfg.nPrb
  {
    hide Grant, Requests;
    var w, n := Requests(sel, cfg), |sel| - 1;
    forall i | 0 <= i < |sel|
      ensures Grant(sel, cfg, i).prbCount >= 1 <==> Total(w, i) < cfg.nPrb
      ensures Total(w, i) <= Total(w, n)
    {
      GrantsNonNegative(sel, cfg, i);
      StarvedIff(sel, cfg, i);
      TotalGrows(w, i, n);
    }
  }

  lemma GrantsNonNegative(sel: seq<UeState>, cfg: SchedulerConfig, i: nat)
    requires i < |sel| && cfg.nPrb > 0
    ensures Grant(sel, cfg, i).prbCount >= 0
  {
  }

  /** With more selected terminals than resource blocks, whatever their metrics, all from number nPrb on
      are left without. */
  lemma TooManySelected(sel: seq<UeState>, cfg: SchedulerConfig, i: nat)
    requires 0 < cfg.nPrb <= i < |sel|
    ensures Grant(sel, cfg, i).prbCount == 0
  {
    TotalAtLeast(Requests(sel, cfg), i);
    StarvedIff(sel, cfg, i);
  }

  lemma {:induction false} TotalAtLeast(wants: seq<int>, k: nat)
    requires k <= |wants| && forall i | 0 <= i < |wants| :: wants[i] >= 1
    ensures Total(wants, k) >= k
  {
    if k > 0 { TotalAtLeast(wants, k - 1); }
  }

  /** Every terminal left out ranks after every selected one: the selection is the stable top n. */
  lemma SelectionIsTop(ues: seq<UeState>, enableQos: bool, n: nat)
    requires n <= |ues|
    ensures var ms := Metrics(ues, enableQos);
      var idx := StableSort(ms, |ues|);
      && (forall p | 0 <= p < n :: idx[p] < |ues| && Best(ues, enableQos, n)[p] == ues[idx[p]])
      && forall i, p | 0 <= i < |ues| && i !in idx[..n] && 0 <= p < n :: RanksBefore(ms, idx[p], i)
  {
    hide CompositeMetric, StableSort;
    var ms := Metrics(ues, enableQos);
    var idx := StableSort(ms, |ues|);
    forall q | 0 <= q < n ensures idx[q] in idx[..n] { assert idx[..n][q] == idx[q]; }
    forall i, p | 0 <= i < |ues| && i !in idx[..n] && 0 <= p < n ensures RanksBefore(ms, idx[p], i) {
      assert i in idx;
      var q :| 0 <= q < |ues| && idx[q] == i;
    }
  }
}
