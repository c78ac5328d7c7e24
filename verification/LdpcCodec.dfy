/** The public LDPC entry points: from parameters to graph, then encode, decode and check. */
module LdpcCodec {
  import opened Common
  import opened LdpcGraph
  import opened LdpcEncoder
  import opened LdpcDecoder
  import opened LdpcMinSum
  import opened LdpcTables

  /** A base-graph table: the 3GPP constants are an argument of the model. */
  datatype BaseTable = BaseTable(mb: nat, nb: nat, kb: nat, edges: seq<BaseEdge>) {
    ghost predicate Valid() {
      && 0 < kb < nb == kb + mb
      && forall i | 0 <= i < |edges| :: edges[i].row < mb && edges[i].col < nb && |edges[i].shift| == 8
    }
  }

  datatype Tables = Tables(bg1: BaseTable, bg2: BaseTable) {
    function Of(bg: BaseGraph): BaseTable { if bg == BG1 then bg1 else bg2 }

    ghost predicate Valid() { bg1.Valid() && bg2.Valid() }

    /** The dimensions of the two base graphs of section 5.3.2 of TS 38.212. */
    ghost predicate Standard() {
      && Valid() && bg1.mb == 46 && bg1.nb == 68 && bg1.kb == 22
      && bg2.mb == 42 && bg2.nb == 52 && bg2.kb == 10
    }
  }

  /** Optional settings use 0 or a negative value for "derive it". */
  datatype LdpcParams = LdpcParams(bg: BaseGraph, zc: int, iLs: int, maxIter: int, infoBits: int, kb: int, mbUse: int)

  /** Iterations when the caller does not say. */
  const DEFAULT_MAX_ITER := 25

  /** The edges that remain when only the first mb rows and nb columns are used. */
  function Kept(edges: seq<BaseEdge>, mb: int, nb: int): (k: seq<BaseEdge>)
    ensures forall i | 0 <= i < |k| :: k[i] in edges && k[i].row < mb && k[i].col < nb
  {
    if edges == [] then []
    else
      var e := edges[|edges| - 1];
      Kept(edges[..|edges| - 1], mb, nb) + (if e.row < mb && e.col < nb then [e] else [])
  }

  /** Truncation keeps every edge inside the remaining rows and columns, as often as the table has it. */
  lemma {:induction false} KeptCount(edges: seq<BaseEdge>, mb: int, nb: int, e: BaseEdge)
    ensures multiset(Kept(edges, mb, nb))[e] == if e.row < mb && e.col < nb then multiset(edges)[e] else 0
  {
    hide Kept;
    if edges == [] {
      KeptNone(mb, nb);
    } else {
      var init, last := edges[..|edges| - 1], edges[|edges| - 1];
      assert init + [last] == edges;
      KeptCount(init, mb, nb, e);
      KeptSnoc(init, last, mb, nb);
      CountSnoc(init, last, e);
      CountSnoc(Kept(init, mb, nb), last, e);
    }
  }

  lemma KeptNone(mb: int, nb: int)
    ensures Kept([], mb, nb) == []
  {
  }

  lemma CountSnoc(edges: seq<BaseEdge>, last: BaseEdge, e: BaseEdge)
    ensures multiset(edges + [last])[e] == multiset(edges)[e] + (if last == e then 1 else 0)
  {
  }

  lemma KeptSnoc(edges: seq<BaseEdge>, last: BaseEdge, mb: int, nb: int)
    ensures Kept(edges + [last], mb, nb)
      == if last.row < mb && last.col < nb then Kept(edges, mb, nb) + [last] else Kept(edges, mb, nb)
  {
    assert (edges + [last])[..|edges|] == edges;
  }

  /** idx lists, in ascending order, the positions of the table that are kept. */
  ghost predicate Selects(idx: seq<nat>, edges: seq<BaseEdge>, kept: seq<BaseEdge>, mb: int, nb: int) {
    && |idx| == |kept|
    && (forall k | 0 <= k < |idx| :: idx[k] < |edges| && kept[k] == edges[idx[k]])
    && (forall k, l | 0 <= k < l < |idx| :: idx[k] < idx[l])
    && forall i | 0 <= i < |edges| :: i in idx <==> edges[i].row < mb && edges[i].col < nb
  }

  lemma {:induction false} KeptInOrder(edges: seq<BaseEdge>, mb: int, nb: int) returns (idx: seq<nat>)
    ensures Selects(idx, edges, Kept(edges, mb, nb), mb, nb)
  {
    hide Selects, Kept;
    if edges == [] {
      idx := [];
      SelectsNothing(mb, nb);
    } else {
      var init, last := edges[..|edges| - 1], edges[|edges| - 1];
      assert init + [last] == edges;
      idx := KeptInOrder(init, mb, nb);
      SelectsSnoc(idx, init, Kept(init, mb, nb), last, mb, nb);
      KeptSnoc(init, last, mb, nb);
      if last.row < mb && last.col < nb { idx := idx + [|init|]; }
    }
  }

  lemma SelectsNothing(mb: int, nb: int)
    ensures Selects([], [], Kept([], mb, nb), mb, nb)
  {
  }

  lemma SelectsSnoc(idx: seq<nat>, edges: seq<BaseEdge>, kept: seq<BaseEdge>, e: BaseEdge, mb: int, nb: int)
    requires Selects(idx, edges, kept, mb, nb)
    ensures if e.row < mb && e.col < nb then Selects(idx + [|edges|], edges + [e], kept + [e], mb, nb)
            else Selects(idx, edges + [e], kept, mb, nb)
  {
    hide Selects;
    if e.row < mb && e.col < nb {
      SelectsKept(idx, edges, kept, e, mb, nb);
    } else {
      SelectsDropped(idx, edges, kept, e, mb, nb);
    }
  }

  lemma SelectsKept(idx: seq<nat>, edges: seq<BaseEdge>, kept: seq<BaseEdge>, e: BaseEdge, mb: int, nb: int)
    requires Selects(idx, edges, kept, mb, nb) && e.row < mb && e.col < nb
    ensures Selects(idx + [|edges|], edges + [e], kept + [e], mb, nb)
  {
    var all, idx' := edges + [e], idx + [|edges|];
    forall k | 0 <= k < |idx'| ensures idx'[k] < |all| && (kept + [e])[k] == all[idx'[k]] {
      if k < |idx| { assert idx'[k] == idx[k]; }
    }
    forall i | 0 <= i < |all| ensures i in idx' <==> all[i].row < mb && all[i].col < nb {
      if i < |edges| { assert all[i] == edges[i] && (i in idx' <==> i in idx); }
    }
  }

  lemma SelectsDropped(idx: seq<nat>, edges: seq<BaseEdge>, kept: seq<BaseEdge>, e: BaseEdge, mb: int, nb: int)
    requires Selects(idx, edges, kept, mb, nb) && !(e.row < mb && e.col < nb)
    ensures Selects(idx, edges + [e], kept, mb, nb)
  {
    var all := edges + [e];
    forall i | 0 <= i < |all| ensures i in idx <==> all[i].row < mb && all[i].col < nb {
      if i < |edges| { assert all[i] == edges[i]; }
    }
  }

  /** What a truncated graph is: mbUse rows, just enough columns, and exactly the edges of the table that
      lie inside, in the order of the table. */
  lemma TruncatedGraph(p: LdpcParams, tables: Tables, g: Graph)
    requires IsGraphOf(p, tables, g) && p.mbUse > 0
    ensures g.mb == p.mbUse && g.nb == g.kb + p.mbUse
    ensures forall e ::
      multiset(g.edges)[e] == (if e.row < g.mb && e.col < g.nb then multiset(tables.Of(p.bg).edges)[e] else 0)
    ensures exists idx :: Selects(idx, tables.Of(p.bg).edges, g.edges, g.mb, g.nb)
  {
    hide SelectsLifting;
    var t := tables.Of(p.bg);
    forall e ensures multiset(g.edges)[e] == if e.row < g.mb && e.col < g.nb then multiset(t.edges)[e] else 0 {
      KeptCount(t.edges, g.mb, g.nb, e);
    }
    var idx := KeptInOrder(t.edges, g.mb, g.nb);
    assert Selects(idx, t.edges, g.edges, g.mb, g.nb);
  }

  /** The lifting size and lifting-set index a parameter set selects. */
  ghost predicate SelectsLifting(p: LdpcParams, zc: int, iLs: int) {
    && (if p.zc > 0 then zc == p.zc && LiftingSize(zc)
        else p.infoBits > 0 && LeastFit(zc, p.infoBits, KbSel(p.infoBits, p.bg)))
    && (if p.iLs >= 0 then iLs == p.iLs <= 7 else iLs >= 0 && IsRowOf(zc, iLs))
  }

  /** g is the graph make_graph builds from p. */
  ghost predicate IsGraphOf(p: LdpcParams, tables: Tables, g: Graph) {
    var t := tables.Of(p.bg);
    && SelectsLifting(p, g.zc, g.iLs)
    && g.kb == (if p.kb > 0 then p.kb else t.kb) && 0 < g.kb < t.nb
    && (if p.mbUse > 0 then
          p.mbUse <= t.mb && g.mb == p.mbUse && g.nb == g.kb + g.mb && g.edges == Kept(t.edges, g.mb, g.nb)
        else g.mb == t.mb && g.nb == t.nb && g.edges == t.edges)
    && (p.infoBits > 0 ==> p.infoBits <= g.K())
  }

  method SelectGraphLifting(p: LdpcParams) returns (r: Option<(nat, nat)>)
    ensures r.Some? ==> SelectsLifting(p, r.value.0, r.value.1)
    ensures r.None? ==> forall zc, iLs :: !SelectsLifting(p, zc, iLs)
  {
    var zc: nat, iLs: nat;
    if p.zc > 0 {
      zc := p.zc;
      var ils := ILsForZc(p.zc);
      if ils.None? { return None; }
      iLs := if p.iLs >= 0 then p.iLs else ils.value;
    } else {
      if p.infoBits <= 0 { return None; }
      var lift := SelectLifting(p.infoBits, p.bg);
      if lift.None? {
        NothingFits(p.infoBits, KbSel(p.infoBits, p.bg));
        return None;
      }
      zc := lift.value.zc;
      iLs := if p.iLs >= 0 then p.iLs else lift.value.iLs;
    }
    if iLs > 7 { return None; }
    return Some((zc, iLs));
  }

  lemma NothingFits(kBits: int, kb: nat)
    requires kBits > kb * 384
    ensures forall z :: !LeastFit(z, kBits, kb)
  {
    TableValues();
    forall z | LiftingSize(z) ensures kb * z < kBits { MulOrder(kb, z, 384); }
  }

  lemma SelectionUnique(p: LdpcParams, zc: int, iLs: int, zc': int, iLs': int)
    requires SelectsLifting(p, zc, iLs) && SelectsLifting(p, zc', iLs')
    ensures zc == zc' && iLs == iLs'
  {
    if p.zc <= 0 {
      var i :| 0 <= i < 8 && RowHas(i, zc);
      var j :| 0 <= j < 8 && Entry(i, j) == zc;
      var i' :| 0 <= i' < 8 && RowHas(i', zc');
      var j' :| 0 <= j' < 8 && Entry(i', j') == zc';
    }
  }

  /** The lifting in words: a given Zc is taken when the table has it, and otherwise the least size that fits
      the information bits; a given set index is taken when it is at most 7, and otherwise the row of Zc. */
  lemma LiftingChosen(p: LdpcParams, zc: int, iLs: int)
    requires SelectsLifting(p, zc, iLs)
    ensures p.zc > 0 ==> zc == p.zc
    ensures p.zc <= 0 ==> KbSel(p.infoBits, p.bg) * zc >= p.infoBits
    ensures p.zc <= 0 ==> forall z | LiftingSize(z) && KbSel(p.infoBits, p.bg) * z >= p.infoBits :: zc <= z
    ensures p.iLs >= 0 ==> iLs == p.iLs
    ensures p.iLs < 0 ==> 0 <= iLs < 8 && RowHas(iLs, zc)
  {
    hide Entry;
    if p.zc <= 0 {
      var kb := KbSel(p.infoBits, p.bg);
      forall z | LiftingSize(z) && kb * z >= p.infoBits ensures zc <= z {
        var i :| 0 <= i < 8 && RowHas(i, z);
        var j :| 0 <= j < 8 && Entry(i, j) == z;
      }
    }
  }

  /** When no lifting is found: a given Zc the table does not have, no information bits to choose by, more
      of them than fit 384, or a set index above 7. */
  lemma LiftingRefusedIff(p: LdpcParams)
    ensures (forall zc, iLs :: !SelectsLifting(p, zc, iLs)) <==>
      || (p.zc > 0 && !LiftingSize(p.zc))
      || (p.zc <= 0 && (p.infoBits <= 0 || p.infoBits > KbSel(p.infoBits, p.bg) * 384))
      || p.iLs > 7
  {
    hide LeastFit, IsRowOf;
    if p.zc > 0 {
      if LiftingSize(p.zc) && p.iLs <= 7 {
        var i := FirstRow(p.zc);
        assert SelectsLifting(p, p.zc, if p.iLs >= 0 then p.iLs else i);
      }
    } else if p.infoBits > 0 {
      var kb := KbSel(p.infoBits, p.bg);
      if p.infoBits > kb * 384 {
        NothingFits(p.infoBits, kb);
      } else if p.iLs <= 7 {
        var z := LeastFitExists(p.infoBits, p.bg);
        var i := FirstRow(z) by { assert LiftingSize(z) by { FittingIsSize(z, p.infoBits, kb); } }
        assert SelectsLifting(p, z, if p.iLs >= 0 then p.iLs else i);
      }
    }
  }

  lemma FittingIsSize(z: int, n: int, kb: nat)
    requires LeastFit(z, n, kb)
    ensures LiftingSize(z)
  {
  }

  lemma FirstRow(z: int) returns (i: nat)
    requires LiftingSize(z)
    ensures IsRowOf(z, i)
  {
    hide RowHas;
    var last :| 0 <= last < 8 && RowHas(last, z);
    i := 0;
    while !RowHas(i, z)
      invariant i <= last && forall k | 0 <= k < i :: !RowHas(k, z)
      decreases last - i
    {
      i := i + 1;
    }
  }

  lemma LeastFitExists(kBits: int, bg: BaseGraph) returns (z: int)
    requires kBits <= KbSel(kBits, bg) * 384
    ensures LeastFit(z, kBits, KbSel(kBits, bg))
  {
    TableValues();
    hide Entry;
    var kb := KbSel(kBits, bg);
    z := 384;
    assert Entry(1, 7) == 384 && RowHas(1, 384);
    for n := 0 to 64
      invariant LiftingSize(z) && kb * z >= kBits
      invariant forall k | 0 <= k < n && Entry(k / 8, k % 8) > 0 && kb * Entry(k / 8, k % 8) >= kBits ::
        z <= Entry(k / 8, k % 8)
    {
      var e := Entry(n / 8, n % 8);
      if e > 0 && kb * e >= kBits && e < z {
        assert RowHas(n / 8, e);
        z := e;
      }
    }
    forall i, j | 0 <= i < 8 && 0 <= j < 8 && Entry(i, j) > 0 && kb * Entry(i, j) >= kBits ensures z <= Entry(i, j) {
      var k := 8 * i + j;
      assert k / 8 == i && k % 8 == j;
    }
  }

  /** Which parameters are refused once the lifting is chosen: a kb not below the number of columns, more
      rows than the table has, and more information bits than columns hold. */
  lemma GraphRefusedIff(p: LdpcParams, tables: Tables, zc: nat, iLs: nat)
    requires tables.Valid() && SelectsLifting(p, zc, iLs)
    ensures var t := tables.Of(p.bg);
      var kb := if p.kb > 0 then p.kb else t.kb;
      (forall g :: !IsGraphOf(p, tables, g)) <==> kb >= t.nb || p.mbUse > t.mb || p.infoBits > kb * zc
  {
    hide SelectsLifting, IsGraphOf;
    var t := tables.Of(p.bg);
    var kb: nat := if p.kb > 0 then p.kb else t.kb;
    if kb < t.nb && p.mbUse <= t.mb && p.infoBits <= kb * zc { BuiltGraph(p, tables, zc, iLs); }
    forall g | IsGraphOf(p, tables, g) ensures kb < t.nb && p.mbUse <= t.mb && p.infoBits <= kb * zc {
      GraphWithin(p, tables, g);
      SelectionUnique(p, g.zc, g.iLs, zc, iLs);
    }
  }

  lemma GraphWithin(p: LdpcParams, tables: Tables, g: Graph)
    requires IsGraphOf(p, tables, g)
    ensures SelectsLifting(p, g.zc, g.iLs) && g.kb == (if p.kb > 0 then p.kb else tables.Of(p.bg).kb)
    ensures g.kb < tables.Of(p.bg).nb && p.mbUse <= tables.Of(p.bg).mb && p.infoBits <= g.kb * g.zc
  {
    hide SelectsLifting;
  }

  lemma BuiltGraph(p: LdpcParams, tables: Tables, zc: nat, iLs: nat)
    requires tables.Valid() && SelectsLifting(p, zc, iLs)
    requires var t := tables.Of(p.bg);
      var kb := if p.kb > 0 then p.kb else t.kb;
      kb < t.nb && p.mbUse <= t.mb && p.infoBits <= kb * zc
    ensures exists g :: IsGraphOf(p, tables, g)
  {
    hide SelectsLifting;
    var t := tables.Of(p.bg);
    var kb: nat := if p.kb > 0 then p.kb else t.kb;
    var g := if p.mbUse > 0 then Graph(p.mbUse, kb + p.mbUse, kb, zc, iLs, Kept(t.edges, p.mbUse, kb + p.mbUse))
             else Graph(t.mb, t.nb, kb, zc, iLs, t.edges);
    assert IsGraphOf(p, tables, g);
  }

  /** Succeeds exactly when the parameters describe a graph, which is then the only one. The filler
      is what information bits leave over of the systematic part. */
  method MakeGraph(p: LdpcParams, tables: Tables) returns (r: Option<Graph>, filler: nat)
    ensures r.Some? ==> forall g :: IsGraphOf(p, tables, g) <==> g == r.value
    ensures r.None? ==> forall g :: !IsGraphOf(p, tables, g)
    ensures r.Some? ==> filler == if p.infoBits > 0 then r.value.K() - p.infoBits else 0
  {
    hide SelectsLifting;
    filler := 0;
    var t := tables.Of(p.bg);
    var kb: int := if p.kb > 0 then p.kb else t.kb;
    var lift := SelectGraphLifting(p);
    if lift.None? { return None, 0; }
    var (zc, iLs) := lift.value;
    forall z: int, i: int | SelectsLifting(p, z, i) ensures z == zc && i == iLs { SelectionUnique(p, z, i, zc, iLs); }
    if !(0 < kb < t.nb) { return None, 0; }
    var mb, nb, edges := t.mb, t.nb, t.edges;
    if p.mbUse > 0 {
      if p.mbUse > t.mb { return None, 0; }
      mb := p.mbUse;
      nb := kb + mb;
      var kept: seq<BaseEdge> := [];
      for i := 0 to |edges|
        invariant kept == Kept(edges[..i], mb, nb)
      {
        assert edges[..i + 1][..i] == edges[..i];
        if edges[i].row < mb && edges[i].col < nb { kept := kept + [edges[i]]; }
      }
      assert edges[..|edges|] == edges;
      edges := kept;
    }
    var g := Graph(mb, nb, kb, zc, iLs, edges);
    if p.infoBits > 0 {
      if p.infoBits > g.K() { return None, 0; }
      filler := g.K() - p.infoBits;
    }
    return Some(g), filler;
  }

  /** The graph is always fit for decoding and the syndrome test. It is fit for encoding exactly when
      rows are truncated or the caller has not enlarged kb. */
  lemma GraphFitsIff(p: LdpcParams, tables: Tables, g: Graph)
    requires tables.Valid() && IsGraphOf(p, tables, g)
    ensures g.Valid()
    ensures g.Encodable() <==> p.mbUse > 0 || p.kb <= tables.Of(p.bg).kb
  {
    var t := tables.Of(p.bg);
    if p.mbUse > 0 {
      forall i | 0 <= i < |g.edges|
        ensures g.edges[i].row < g.mb && g.edges[i].col < g.nb && |g.edges[i].shift| == 8
      {
        assert g.edges[i] in t.edges;
      }
    }
  }

  /** So enlarging kb of any table is accepted, up to the number of columns, and gives a graph whose
      parity columns run past the end of a row. */
  lemma EnlargedKb(p: LdpcParams, tables: Tables, zc: nat, iLs: nat)
    requires tables.Valid() && SelectsLifting(p, zc, iLs) && p.infoBits <= p.kb * zc
    requires p.mbUse <= 0 && tables.Of(p.bg).kb < p.kb < tables.Of(p.bg).nb
    ensures var t := tables.Of(p.bg);
      var g := Graph(t.mb, t.nb, p.kb, zc, iLs, t.edges);
      IsGraphOf(p, tables, g) && !g.Encodable() && g.N() < g.K() + g.M()
  {
    hide SelectsLifting;
    var t := tables.Of(p.bg);
    MulAtLeast(zc, p.kb + t.mb - t.nb);
    assert p.kb * zc + t.mb * zc - t.nb * zc == zc * (p.kb + t.mb - t.nb);
    assert zc > 0 by { SelectedPositive(p, zc, iLs); }
  }

  lemma SelectedPositive(p: LdpcParams, zc: int, iLs: int)
    requires SelectsLifting(p, zc, iLs)
    ensures zc > 0
  {
  }

  /** The program's own tables have such inputs: kb = 11 with the second base graph and Zc = 2. */
  lemma EnlargedKbExample(tables: Tables)
    requires tables.Standard()
    ensures var g := Graph(42, 52, 11, 2, 0, tables.bg2.edges);
      IsGraphOf(LdpcParams(BG2, 2, -1, 25, 20, 11, -1), tables, g) && !g.Encodable()
  {
    assert Entry(0, 0) == 2 && RowHas(0, 2);
    EnlargedKb(LdpcParams(BG2, 2, -1, 25, 20, 11, -1), tables, 2, 0);
  }

  /** The parameters ldpc_encode really uses: missing information bits default to the input length. */
  function EncodeParams(info: seq<nat>, p: LdpcParams): LdpcParams {
    if p.infoBits < 0 then p.(infoBits := |info|) else p
  }

  /** Stated information bits are used as they are. Otherwise the length of the input counts, and then the
      input always fits the graph. */
  lemma EncodeDefaults(info: seq<nat>, p: LdpcParams, tables: Tables, g: Graph)
    ensures p.infoBits >= 0 ==> (IsGraphOf(EncodeParams(info, p), tables, g) <==> IsGraphOf(p, tables, g))
    ensures p.infoBits < 0 && IsGraphOf(EncodeParams(info, p), tables, g) ==> |info| <= g.K()
    ensures p.infoBits < 0 ==>
      (IsGraphOf(EncodeParams(info, p), tables, g) <==> IsGraphOf(p.(infoBits := |info|), tables, g))
  {
    hide SelectsLifting;
  }

  /** Encodes the information bits followed by zero filler. When the elimination is reached, its parity
      columns have to fit; every other input is answered or rejected as the program does. */
  method LdpcEncode(info: seq<nat>, p: LdpcParams, tables: Tables) returns (r: Option<Bits>)
    requires tables.Valid()
    requires AreBits(info) ==>
      forall g | IsGraphOf(EncodeParams(info, p), tables, g) && |info| <= g.K() :: g.Encodable()
    ensures r.Some? ==> AreBits(info) && exists g :: EncodesFor(g, info, p, tables, r.value)
    ensures r.None? ==> !AreBits(info) || forall g :: IsGraphOf(EncodeParams(info, p), tables, g) ==>
      g.Valid() && (g.K() < |info| || !ParityNonsingular(g))
  {
    hide ParityNonsingular, Encodes, SelectsLifting;
    for i := 0 to |info|
      invariant forall j | 0 <= j < i :: info[j] == 0 || info[j] == 1
    {
      if info[i] != 0 && info[i] != 1 { return None; }
    }
    var pp := EncodeParams(info, p);
    var og, filler := MakeGraph(pp, tables);
    if og.None? { return None; }
    var g := og.value;
    GraphFitsIff(pp, tables, g);
    if |info| > g.K() { return None; }
    var padded := ToBits(info) + Zeros(g.K() - |info|);
    r := EncodeGe(padded, g);
    if r.Some? { assert EncodesFor(g, info, p, tables, r.value); }
  }

  /** cw is the one codeword that encodes the padded information word in the graph of p. */
  ghost predicate EncodesFor(g: Graph, info: seq<nat>, p: LdpcParams, tables: Tables, cw: Bits) {
    && IsGraphOf(EncodeParams(info, p), tables, g) && g.Valid() && |info| <= g.K()
    && IsTheEncoding(g, ToBits(info) + Zeros(g.K() - |info|), cw)
  }

  method LdpcSyndromeOk(cw: Bits, p: LdpcParams, tables: Tables) returns (r: Option<bool>)
    requires tables.Valid()
    ensures r.Some? ==> exists g :: IsGraphOf(p, tables, g) && g.Valid() && |cw| == g.N() && r.value == Codeword(g, cw)
    ensures r.None? ==> forall g :: IsGraphOf(p, tables, g) ==> |cw| != g.N()
  {
    hide SelectsLifting;
    var og, filler := MakeGraph(p, tables);
    if og.None? { return None; }
    GraphFitsIff(p, tables, og.value);
    r := SyndromeOk(og.value, cw);
  }

  /** Decoding needs every check of the graph to have at least two edges. */
  method LdpcDecode(llr: Soft, p: LdpcParams, tables: Tables) returns (r: Option<Bits>)
    requires tables.Valid()
    requires forall g :: IsGraphOf(p, tables, g) && g.Valid() ==> NoLeafCheck(Expanded(g))
    ensures r.Some? ==> exists g :: IsGraphOf(p, tables, g) && DecodesTo(g, llr, p.maxIter, r.value)
    ensures r.None? ==> forall g :: IsGraphOf(p, tables, g) ==> |llr| != g.N()
  {
    hide SelectsLifting, NoLeafCheck;
    if p.zc == 0 && p.infoBits <= 0 {
      assert forall zc, iLs :: !SelectsLifting(p, zc, iLs) by { NoInfoBits(p); }
      return None;
    }
    var og, filler := MakeGraph(p, tables);
    if og.None? { return None; }
    GraphFitsIff(p, tables, og.value);
    r := DecodeMinsum(llr, og.value, p.maxIter);
  }

  lemma NoInfoBits(p: LdpcParams)
    requires p.zc == 0 && p.infoBits <= 0
    ensures forall zc, iLs :: !SelectsLifting(p, zc, iLs)
  {
  }

  ghost predicate DecodesTo(g: Graph, llr: Soft, maxIter: int, bits: Bits) {
    g.Valid() && |llr| == g.N() >= g.K() && bits == FinalWord(g, llr, maxIter)[..g.K()]
  }
}
