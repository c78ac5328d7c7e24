/** Splitting a transport block into code blocks, and joining them again. */
module Segmentation {
  import opened Common
  import opened Crc
  import opened LdpcGraph
  import opened LdpcTables
  import opened LdpcCodec

  datatype SegmentationConfig =
    SegmentationConfig(maxCbInfoBits: nat, attachCrc: bool, bg: BaseGraph, rate: real, autoSelect: bool)

  datatype CodeBlockPlan =
    CodeBlockPlan(bits: Bits, fillerBits: int, kLdpc: nat, zc: nat, iLs: nat, bg: BaseGraph, ldpc: LdpcParams)

  datatype SegmentationResult = SegmentationResult(blocks: seq<CodeBlockPlan>, totalFiller: int, count: nat)

  // ---------------------------------------------------------------- sizes

  /** a / b rounded up. */
  function DivUp(a: nat, b: nat): (q: nat)
    requires b > 0
  {
    (a + b - 1) / b
  }

  lemma DivUpBounds(a: nat, b: nat)
    requires b > 0
    ensures a <= DivUp(a, b) * b < a + b
  {
    var x := a + b - 1;
    assert x == b * (x / b) + x % b;
  }

  lemma DivUpLeast(a: nat, b: nat, q: nat)
    requires b > 0
    ensures a <= q * b <==> DivUp(a, b) <= q
  {
    DivUpBounds(a, b);
    hide DivUp;
    var d := DivUp(a, b);
    if d <= q {
      Scale(b, d, q);
      assert b * d == d * b && b * q == q * b;
    } else if a <= q * b {
      assert (q + 1) * b == q * b + b;
      MulCancelLess(d, q + 1, b);
    }
  }

  /** CRC bits per block. */
  function CrcBits(c: nat, cfg: SegmentationConfig): nat { if c > 1 && cfg.attachCrc then 24 else 0 }

  /** Block length for c blocks, CRC included. */
  function BlockBits(b: nat, c: nat, cfg: SegmentationConfig): nat
    requires c > 0
  {
    DivUp(b + c * CrcBits(c, cfg), c)
  }

  /** The CRC share of the block length comes out exactly, so the payload is ceil(B / C). */
  lemma PayloadBits(b: nat, c: nat, cfg: SegmentationConfig)
    requires c > 0
    ensures BlockBits(b, c, cfg) == DivUp(b, c) + CrcBits(c, cfg)
  {
    var l := CrcBits(c, cfg);
    var x := b + c - 1;
    assert x == c * (x / c) + x % c;
    assert c * (x / c + l) == c * (x / c) + c * l;
    ModUnique(x + c * l, c, x / c + l, x % c);
  }

  /** The first estimate of the number of blocks. */
  function FirstCount(b: nat, cfg: SegmentationConfig): nat
    requires cfg.maxCbInfoBits > 0
  {
    if b > cfg.maxCbInfoBits then DivUp(b, cfg.maxCbInfoBits) else 1
  }

  /** The test that ends the refinement loop. */
  predicate Fits(b: nat, c: nat, cfg: SegmentationConfig)
    requires c > 0
  {
    BlockBits(b, c, cfg) - CrcBits(c, cfg) <= cfg.maxCbInfoBits
  }

  /** The block count is ceil(B / Kcb), the refinement loop never runs, no payload exceeds Kcb, and
      only the last block is padded, with at least one bit of its own. */
  lemma CountProperties(b: nat, cfg: SegmentationConfig)
    requires b > 0 && cfg.maxCbInfoBits > 0
    ensures var c := FirstCount(b, cfg);
      var kInfo := DivUp(b, c);
      && c == DivUp(b, cfg.maxCbInfoBits) > 0 && Fits(b, c, cfg)
      && kInfo <= cfg.maxCbInfoBits && (c - 1) * kInfo < b <= c * kInfo
  {
    hide DivUp;
    var k := cfg.maxCbInfoBits;
    DivUpBounds(b, k);
    DivUpLeast(b, k, 1);
    DivUpLeast(b, k, 0);
    var c := FirstCount(b, cfg);
    PayloadBits(b, c, cfg);
    DivUpBounds(b, c);
    DivUpLeast(b, c, k);
    assert k * c == c * k;
    LastBlock(b, k, c, DivUp(b, c));
  }

  lemma LastBlock(b: nat, k: nat, c: nat, kInfo: nat)
    requires 0 < c && c * k < b + k && b <= kInfo * c && kInfo <= k
    ensures (c - 1) * kInfo < b <= c * kInfo
  {
    var d := c - 1;
    assert d * k == c * k - k;
    Scale(d, kInfo, k);
    assert kInfo * c == c * kInfo;
  }

  lemma Scale(d: nat, x: nat, y: nat)
    requires x <= y
    ensures d * x <= d * y
  {
  }

  // ---------------------------------------------------------------- blocks

  /** Payload c: the next kInfo bits, padded with zeros. */
  function Payload(tb: Bits, kInfo: nat, offset: nat): (p: Bits)
    requires offset <= |tb|
    ensures |p| == kInfo
  {
    var take := if kInfo <= |tb| - offset then kInfo else |tb| - offset;
    tb[offset..offset + take] + Zeros(kInfo - take)
  }

  function Protected(payload: Bits, l: nat): Bits { if l > 0 then Attached(payload, CRC24B) else payload }

  function Offset(tb: Bits, kInfo: nat, c: nat): (o: nat)
    ensures o <= |tb|
  {
    if c * kInfo <= |tb| then c * kInfo else |tb|
  }

  function BgFor(n: nat, cfg: SegmentationConfig): Option<BaseGraph> {
    if cfg.autoSelect then BasegraphFor(n, cfg.rate) else Some(cfg.bg)
  }

  /** A base graph and a lifting size exist for blocks of n bits. */
  predicate Liftable(n: nat, cfg: SegmentationConfig) {
    BgFor(n, cfg).Some? && n <= KbSel(n, BgFor(n, cfg).value) * 384
  }

  /** The plan of one block. */
  ghost predicate PlanOf(plan: CodeBlockPlan, bits: Bits, cfg: SegmentationConfig) {
    && plan.bits == bits && BgFor(|bits|, cfg) == Some(plan.bg)
    && LeastFit(plan.zc, |bits|, KbSel(|bits|, plan.bg)) && IsRowOf(plan.zc, plan.iLs)
    && plan.kLdpc == DefaultKb(plan.bg) * plan.zc && plan.fillerBits == plan.kLdpc - |bits| >= 0
    && plan.ldpc == LdpcParams(plan.bg, plan.zc, plan.iLs, DEFAULT_MAX_ITER, |bits|, DefaultKb(plan.bg), -1)
  }

  /** The graph of a plan: its whole base graph, lifted as planned. */
  function PlanGraph(plan: CodeBlockPlan, tables: Tables): Graph {
    var t := tables.Of(plan.bg);
    Graph(t.mb, t.nb, t.kb, plan.zc, plan.iLs, t.edges)
  }

  /** The parameters stored in a plan describe exactly that graph, which is fit for encoding and has
      room for the block and the planned filler. */
  lemma PlanGraphFits(plan: CodeBlockPlan, bits: Bits, cfg: SegmentationConfig, tables: Tables)
    requires PlanOf(plan, bits, cfg) && tables.Standard()
    ensures var g := PlanGraph(plan, tables);
      && (forall g' :: IsGraphOf(plan.ldpc, tables, g') <==> g' == g)
      && g.Valid() && g.Encodable() && g.K() == plan.kLdpc == |bits| + plan.fillerBits
      && g.K() == (if plan.bg == BG1 then 22 else 10) * plan.zc && plan.ldpc.maxIter == 25
  {
    hide LeastFit, BgFor, KbSel;
    var g, p := PlanGraph(plan, tables), plan.ldpc;
    assert LiftingSize(plan.zc) by { FitsIsSize(plan.zc, |bits|, KbSel(|bits|, plan.bg)); }
    hide LiftingSize, IsRowOf;
    assert IsGraphOf(p, tables, g);
    GraphFitsIff(p, tables, g);
  }

  lemma FitsIsSize(z: int, n: int, kb: nat)
    requires LeastFit(z, n, kb)
    ensures LiftingSize(z)
  {
  }

  method PlanBlock(bits: Bits, cfg: SegmentationConfig) returns (r: Option<CodeBlockPlan>)
    ensures r.Some? <==> Liftable(|bits|, cfg)
    ensures r.Some? ==> PlanOf(r.value, bits, cfg)
  {
    hide LeastFit, IsRowOf;
    var bg := cfg.bg;
    if cfg.autoSelect {
      var s := SelectBasegraph(|bits|, cfg.rate);
      if s.None? { return None; }
      bg := s.value;
    }
    var lift := SelectLifting(|bits|, bg);
    if lift.None? { return None; }
    var k := lift.value.kb * lift.value.zc;
    FillerNonNegative(|bits|, bg, lift.value.zc);
    var ldpc := LdpcParams(bg, lift.value.zc, lift.value.iLs, DEFAULT_MAX_ITER, |bits|, lift.value.kb, -1);
    return Some(CodeBlockPlan(bits, k - |bits|, k, lift.value.zc, lift.value.iLs, bg, ldpc));
  }

  lemma FillerNonNegative(n: nat, bg: BaseGraph, z: nat)
    requires LeastFit(z, n, KbSel(n, bg))
    ensures DefaultKb(bg) * z >= n
  {
    MulOrder(z, KbSel(n, bg), DefaultKb(bg));
  }

  /** Everything segmentation needs of its input. */
  predicate Segmentable(b: nat, cfg: SegmentationConfig) {
    && cfg.maxCbInfoBits >= 40
    && var c := FirstCount(b, cfg);
       c > 0 && Fits(b, c, cfg) && Liftable(BlockBits(b, c, cfg), cfg)
  }

  /** The result of segmentation. */
  ghost predicate SegmentsOf(tb: Bits, cfg: SegmentationConfig, r: SegmentationResult)
    requires tb != [] && cfg.maxCbInfoBits > 0
  {
    var c := FirstCount(|tb|, cfg);
    && c > 0 && r.count == c == |r.blocks|
    && r.totalFiller == TotalFiller(r.blocks)
    && PlansOf(r.blocks, tb, DivUp(|tb|, c), CrcBits(c, cfg), cfg)
  }

  function TotalFiller(blocks: seq<CodeBlockPlan>): int {
    if blocks == [] then 0 else TotalFiller(blocks[..|blocks| - 1]) + blocks[|blocks| - 1].fillerBits
  }

  method CountBlocks(b: nat, cfg: SegmentationConfig) returns (c: nat, ok: bool)
    requires b > 0 && cfg.maxCbInfoBits >= 40
    ensures ok ==> c == FirstCount(b, cfg) > 0 && Fits(b, c, cfg)
    ensures !ok ==> !Fits(b, FirstCount(b, cfg), cfg)
  {
    c := 1;
    DivUpLeast(b, cfg.maxCbInfoBits, 0);
    if b <= cfg.maxCbInfoBits {
      CountProperties(b, cfg);
      return c, true;
    }
    c := DivUp(b, cfg.maxCbInfoBits);
    while !Fits(b, c, cfg)
      invariant c >= FirstCount(b, cfg) > 0
      invariant c > FirstCount(b, cfg) ==> !Fits(b, FirstCount(b, cfg), cfg)
      decreases 10000 - c
    {
      c := c + 1;
      if c >= 10000 { return c, false; }
    }
    CountProperties(b, cfg);
    return c, true;
  }

  /** blocks[i] plans the i-th payload, for every i. */
  ghost predicate PlansOf(blocks: seq<CodeBlockPlan>, tb: Bits, kInfo: nat, l: nat, cfg: SegmentationConfig) {
    forall i | 0 <= i < |blocks| :: PlanOf(blocks[i], Protected(Payload(tb, kInfo, Offset(tb, kInfo, i)), l), cfg)
  }

  lemma NextPlan(blocks: seq<CodeBlockPlan>, plan: CodeBlockPlan, tb: Bits, kInfo: nat, l: nat, cfg: SegmentationConfig)
    requires PlansOf(blocks, tb, kInfo, l, cfg)
    requires PlanOf(plan, Protected(Payload(tb, kInfo, Offset(tb, kInfo, |blocks|)), l), cfg)
    ensures PlansOf(blocks + [plan], tb, kInfo, l, cfg)
    ensures TotalFiller(blocks + [plan]) == TotalFiller(blocks) + plan.fillerBits
  {
    hide PlanOf, Protected, Payload, Offset;
    NextFiller(blocks, plan);
    hide TotalFiller;
    forall i | 0 <= i < |blocks| + 1
      ensures PlanOf((blocks + [plan])[i], Protected(Payload(tb, kInfo, Offset(tb, kInfo, i)), l), cfg)
    {
      if i < |blocks| { assert (blocks + [plan])[i] == blocks[i]; }
    }
  }

  lemma NextFiller(blocks: seq<CodeBlockPlan>, plan: CodeBlockPlan)
    ensures TotalFiller(blocks + [plan]) == TotalFiller(blocks) + plan.fillerBits
  {
    assert (blocks + [plan])[..|blocks|] == blocks;
  }

  /** Succeeds exactly on segmentable sizes; an empty block gives no code blocks. */
  method SegmentTransportBlock(tb: Bits, cfg: SegmentationConfig) returns (r: Option<SegmentationResult>)
    ensures tb == [] ==> r == Some(SegmentationResult([], 0, 0))
    ensures tb != [] ==> (r.Some? <==> Segmentable(|tb|, cfg))
    ensures tb != [] && r.Some? ==> SegmentsOf(tb, cfg, r.value)
  {
    hide PlanOf, Liftable, DivUp, Payload, Protected, Offset, Fits;
    if tb == [] { return Some(SegmentationResult([], 0, 0)); }
    if cfg.maxCbInfoBits < 40 { return None; }
    var c, ok := CountBlocks(|tb|, cfg);
    if !ok { return None; }
    var l := CrcBits(c, cfg);
    PayloadBits(|tb|, c, cfg);
    r := PlanAll(tb, c, BlockBits(|tb|, c, cfg) - l, l, cfg);
  }

  /** The loop over the c blocks. */
  method PlanAll(tb: Bits, c: nat, kInfo: nat, l: nat, cfg: SegmentationConfig) returns (r: Option<SegmentationResult>)
    requires c > 0 && (l == 0 || l == 24)
    ensures r.Some? <==> Liftable(kInfo + l, cfg)
    ensures r.Some? ==> r.value.count == c == |r.value.blocks| && PlansOf(r.value.blocks, tb, kInfo, l, cfg)
    ensures r.Some? ==> r.value.totalFiller == TotalFiller(r.value.blocks)
  {
    hide PlanOf, Liftable, Payload, Protected, Offset, TotalFiller;
    assert TotalFiller([]) == 0 by { NoFiller(); }
    NextOffset(tb, kInfo, 0);
    var offset := 0;
    var blocks: seq<CodeBlockPlan> := [];
    var total := 0;
    for i := 0 to c
      invariant offset == Offset(tb, kInfo, i)
      invariant |blocks| == i && total == TotalFiller(blocks)
      invariant i > 0 ==> Liftable(kInfo + l, cfg)
      invariant PlansOf(blocks, tb, kInfo, l, cfg)
    {
      var bits := Protect(Payload(tb, kInfo, offset), l);
      NextOffset(tb, kInfo, i);
      offset := offset + (if kInfo <= |tb| - offset then kInfo else |tb| - offset);
      var plan := PlanBlock(bits, cfg);
      if plan.None? { return None; }
      NextPlan(blocks, plan.value, tb, kInfo, l, cfg);
      total := total + plan.value.fillerBits;
      blocks := blocks + [plan.value];
    }
    return Some(SegmentationResult(blocks, total, c));
  }

  lemma NoFiller()
    ensures TotalFiller([]) == 0
  {
  }

  method Protect(payload: Bits, l: nat) returns (bits: Bits)
    ensures bits == Protected(payload, l) && |bits| == |payload| + (if l > 0 then 24 else 0)
  {
    if l == 0 { return payload; }
    var attached := CrcAttach(FromBits(payload), CRC24B);
    return attached.value;
  }

  lemma NextOffset(tb: Bits, kInfo: nat, i: nat)
    ensures Offset(tb, kInfo, 0) == 0
    ensures Offset(tb, kInfo, i + 1)
      == Offset(tb, kInfo, i) + (if kInfo <= |tb| - Offset(tb, kInfo, i) then kInfo else |tb| - Offset(tb, kInfo, i))
  {
    assert (i + 1) * kInfo == i * kInfo + kInfo;
  }

  // ---------------------------------------------------------------- joining

  function Flatten(xs: seq<Bits>): Bits {
    if xs == [] then [] else Flatten(xs[..|xs| - 1]) + xs[|xs| - 1]
  }

  method ConcatenateCodeBlocks(cbs: seq<Bits>, fillerBits: nat) returns (r: Option<Bits>)
    ensures r == if fillerBits <= |Flatten(cbs)| then Some(Flatten(cbs)[..|Flatten(cbs)| - fillerBits]) else None
  {
    var out: Bits := [];
    for i := 0 to |cbs|
      invariant out == Flatten(cbs[..i])
    {
      assert cbs[..i + 1][..i] == cbs[..i];
      out := out + cbs[i];
    }
    assert cbs[..|cbs|] == cbs;
    assert out[..|out|] == out;
    if fillerBits > 0 {
      if |out| < fillerBits { return None; }
      out := out[..|out| - fillerBits];
    }
    return Some(out);
  }

  /** The payload of a plan: its bits without the CRC. */
  function Stripped(blocks: seq<CodeBlockPlan>, l: nat): (xs: seq<Bits>)
    requires forall i | 0 <= i < |blocks| :: |blocks[i].bits| >= l
    ensures |xs| == |blocks|
  {
    seq(|blocks|, i requires 0 <= i < |blocks| => blocks[i].bits[..|blocks[i].bits| - l])
  }

  /** Appending the payload taken at o extends a prefix of o bits. */
  lemma PayloadExtends(tb: Bits, kInfo: nat, o: nat, joined: Bits)
    requires o == |joined| <= |tb| && joined == tb[..o]
    ensures var o' := o + (if kInfo <= |tb| - o then kInfo else |tb| - o);
      o' <= o + kInfo && joined + Payload(tb, kInfo, o) == tb[..o'] + Zeros(o + kInfo - o')
  {
    var take := if kInfo <= |tb| - o then kInfo else |tb| - o;
    assert tb[..o] + tb[o..o + take] == tb[..o + take];
  }

  /** The first i payloads joined are the first i * kInfo bits, padded at the end. */
  lemma {:induction false} FlattenPayloads(tb: Bits, kInfo: nat, xs: seq<Bits>)
    requires forall i | 0 <= i < |xs| :: xs[i] == Payload(tb, kInfo, Offset(tb, kInfo, i))
    requires |xs| > 0 ==> (|xs| - 1) * kInfo <= |tb|
    ensures Offset(tb, kInfo, |xs|) <= |xs| * kInfo
    ensures Flatten(xs) == tb[..Offset(tb, kInfo, |xs|)] + Zeros(|xs| * kInfo - Offset(tb, kInfo, |xs|))
  {
    if xs != [] {
      var n := |xs| - 1;
      if n > 0 { assert (n - 1) * kInfo <= n * kInfo; }
      FlattenPayloads(tb, kInfo, xs[..n]);
      NextOffset(tb, kInfo, n);
      assert (n + 1) * kInfo == n * kInfo + kInfo;
      var o := Offset(tb, kInfo, n);
      assert o == n * kInfo;
      assert xs[n] == Payload(tb, kInfo, o);
      hide Offset;
      PayloadExtends(tb, kInfo, o, Flatten(xs[..n]));
    }
  }

  lemma PlanParts(plan: CodeBlockPlan, p: Bits, l: nat, cfg: SegmentationConfig)
    requires PlanOf(plan, Protected(p, l), cfg) && (l == 0 || l == 24)
    ensures |plan.bits| == |p| + l && plan.bits[..|p|] == p && (l > 0 ==> Passes(plan.bits, CRC24B))
  {
    hide LeastFit, IsRowOf, BgFor, Passes;
    AttachedPasses(p, CRC24B);
  }

  lemma EndOffset(tb: Bits, kInfo: nat, c: nat)
    requires c * kInfo >= |tb|
    ensures Offset(tb, kInfo, c) == |tb|
  {
  }

  /** Several blocks carry a CRC of 24 bits each, when asked for, and pass it; a single block carries none.
      Joining the blocks without CRCs gives the transport block followed by the padding, which is zero. */
  ghost predicate Rebuilds(blocks: seq<CodeBlockPlan>, tb: Bits, cfg: SegmentationConfig)
    requires blocks != []
  {
    var c := |blocks|;
    var l, padding := if c > 1 && cfg.attachCrc then 24 else 0, c * DivUp(|tb|, c) - |tb|;
    && (forall i | 0 <= i < c :: |blocks[i].bits| == DivUp(|tb|, c) + l && (l > 0 ==> Passes(blocks[i].bits, CRC24B)))
    && 0 <= padding <= |Flatten(Stripped(blocks, l))|
    && Flatten(Stripped(blocks, l)) == tb + Zeros(padding)
    && Flatten(Stripped(blocks, l))[..|Flatten(Stripped(blocks, l))| - padding] == tb
  }

  /** Stripping the CRCs and joining the blocks without the padding gives back the transport block,
      and when there are several blocks each of them passes its CRC. */
  lemma SegmentationRoundTrip(tb: Bits, cfg: SegmentationConfig, r: SegmentationResult)
    requires tb != [] && cfg.maxCbInfoBits > 0 && SegmentsOf(tb, cfg, r)
    ensures r.count == |r.blocks| > 0 && Rebuilds(r.blocks, tb, cfg)
  {
    hide Payload, DivUp, LeastFit, IsRowOf, Attached, Passes, PlanOf, Protected, Offset, Flatten;
    var b, c := |tb|, r.count;
    var l, kInfo := CrcBits(c, cfg), DivUp(b, c);
    CountProperties(b, cfg);
    forall i | 0 <= i < c
      ensures |r.blocks[i].bits| == kInfo + l
      ensures r.blocks[i].bits[..kInfo] == Payload(tb, kInfo, Offset(tb, kInfo, i))
      ensures l > 0 ==> Passes(r.blocks[i].bits, CRC24B)
    {
      PlanParts(r.blocks[i], Payload(tb, kInfo, Offset(tb, kInfo, i)), l, cfg);
    }
    var xs := Stripped(r.blocks, l);
    FlattenPayloads(tb, kInfo, xs);
    assert Offset(tb, kInfo, c) == b by { EndOffset(tb, kInfo, c); }
    assert tb[..b] == tb;
    assert Flatten(xs)[..b] == tb;
  }

  /** All blocks of a transport block are alike: the same base graph, the chosen one unless it is selected
      automatically, the same lifting and the same filler, which add up to the total. */
  lemma BlocksAlike(tb: Bits, cfg: SegmentationConfig, r: SegmentationResult, i: nat)
    requires tb != [] && cfg.maxCbInfoBits > 0 && SegmentsOf(tb, cfg, r) && i < |r.blocks|
    ensures r.blocks[i].zc == r.blocks[0].zc && r.blocks[i].iLs == r.blocks[0].iLs && r.blocks[i].bg == r.blocks[0].bg
    ensures r.blocks[i].kLdpc == r.blocks[0].kLdpc && r.blocks[i].fillerBits == r.blocks[0].fillerBits
    ensures !cfg.autoSelect ==> r.blocks[i].bg == cfg.bg
    ensures r.totalFiller == |r.blocks| * r.blocks[0].fillerBits
  {
    hide Rebuilds, SegmentsOf, TotalFiller;
    var c, l := |r.blocks|, CrcBits(|r.blocks|, cfg);
    SegmentationRoundTrip(tb, cfg, r);
    forall k | 0 <= k < c
      ensures r.blocks[k].zc == r.blocks[0].zc && r.blocks[k].iLs == r.blocks[0].iLs && r.blocks[k].bg == r.blocks[0].bg
      ensures r.blocks[k].kLdpc == r.blocks[0].kLdpc && r.blocks[k].fillerBits == r.blocks[0].fillerBits
      ensures !cfg.autoSelect ==> r.blocks[k].bg == cfg.bg
    {
      BlockLength(tb, cfg, r, k);
      BlockLength(tb, cfg, r, 0);
      SamePlan(r.blocks[k], r.blocks[0], cfg);
    }
    SameFiller(r.blocks, r.blocks[0].fillerBits);
    assert r.totalFiller == TotalFiller(r.blocks) by { TotalOf(tb, cfg, r); }
  }

  lemma TotalOf(tb: Bits, cfg: SegmentationConfig, r: SegmentationResult)
    requires tb != [] && cfg.maxCbInfoBits > 0 && SegmentsOf(tb, cfg, r)
    ensures r.totalFiller == TotalFiller(r.blocks)
  {
    hide PlansOf;
  }

  lemma BlockLength(tb: Bits, cfg: SegmentationConfig, r: SegmentationResult, k: nat)
    requires tb != [] && cfg.maxCbInfoBits > 0 && SegmentsOf(tb, cfg, r) && k < |r.blocks|
    ensures |r.blocks| > 0 && |r.blocks[k].bits| == DivUp(|tb|, |r.blocks|) + CrcBits(|r.blocks|, cfg)
    ensures PlanOf(r.blocks[k], r.blocks[k].bits, cfg)
  {
    var c := |r.blocks|;
    var kInfo, l := DivUp(|tb|, c), CrcBits(c, cfg);
    hide DivUp, LeastFit, IsRowOf, BgFor, Payload, Offset, KbSel;
    var p := Payload(tb, kInfo, Offset(tb, kInfo, k));
    assert PlanOf(r.blocks[k], Protected(p, l), cfg);
    PlanParts(r.blocks[k], p, l, cfg);
  }

  lemma SamePlan(a: CodeBlockPlan, b: CodeBlockPlan, cfg: SegmentationConfig)
    requires PlanOf(a, a.bits, cfg) && PlanOf(b, b.bits, cfg) && |a.bits| == |b.bits|
    ensures a.zc == b.zc && a.iLs == b.iLs && a.bg == b.bg && a.kLdpc == b.kLdpc && a.fillerBits == b.fillerBits
    ensures !cfg.autoSelect ==> a.bg == cfg.bg
  {
    LeastFitUnique(a.zc, b.zc, |a.bits|, KbSel(|a.bits|, a.bg));
    hide LeastFit, RowHas;
  }

  lemma LeastFitUnique(z: int, z': int, n: int, kb: nat)
    requires LeastFit(z, n, kb) && LeastFit(z', n, kb)
    ensures z == z'
  {
    var i :| 0 <= i < 8 && RowHas(i, z);
    var j :| 0 <= j < 8 && Entry(i, j) == z;
    var i' :| 0 <= i' < 8 && RowHas(i', z');
    var j' :| 0 <= j' < 8 && Entry(i', j') == z';
  }

  lemma {:induction false} SameFiller(blocks: seq<CodeBlockPlan>, f: int)
    requires forall k | 0 <= k < |blocks| :: blocks[k].fillerBits == f
    ensures TotalFiller(blocks) == |blocks| * f
  {
    if blocks != [] {
      SameFiller(blocks[..|blocks| - 1], f);
      assert |blocks| * f == (|blocks| - 1) * f + f;
    }
  }

  /** With automatic base graphs above rate 1/4 and blocks that fit the first base graph with their CRC,
      only transport blocks below 12 bits are refused. */
  lemma AutomaticSegmentable(b: nat, cfg: SegmentationConfig)
    requires b > 0 && cfg.autoSelect && cfg.rate > 0.25 && 40 <= cfg.maxCbInfoBits <= 8448 - 24
    ensures Segmentable(b, cfg) <==> b >= 12
  {
    hide Liftable, DivUp;
    SegmentableIff(b, cfg);
    CountProperties(b, cfg);
    var c, l := FirstCount(b, cfg), CrcBits(FirstCount(b, cfg), cfg);
    var kInfo := DivUp(b, c);
    DivUpLeast(b, cfg.maxCbInfoBits, 1);
    if c == 1 {
      DivUpLeast(b, 1, b);
      DivUpLeast(b, 1, b - 1);
    } else if kInfo < 20 {
      // Fewer than 20 bits a block would need more than the first estimate of blocks.
      Scale(c, kInfo, 19);
      DivUpLeast(b, cfg.maxCbInfoBits, c - 1);
      Scale(c - 1, 40, cfg.maxCbInfoBits);
    }
    if kInfo + l >= 12 { SelectionLiftable(kInfo + l, cfg.rate); }
    LiftableIff(kInfo + l, cfg);
  }

  lemma LiftableIff(n: nat, cfg: SegmentationConfig)
    requires cfg.autoSelect
    ensures Liftable(n, cfg) <==> n >= 12 && n <= KbSel(n, BasegraphFor(n, cfg.rate).value) * 384
  {
  }

  /** The refinement test always passes at once, so only the size limits decide. */
  lemma SegmentableIff(b: nat, cfg: SegmentationConfig)
    requires b > 0
    ensures Segmentable(b, cfg) <==>
      && cfg.maxCbInfoBits >= 40
      && var c := DivUp(b, cfg.maxCbInfoBits);
         c > 0 && Liftable(DivUp(b, c) + CrcBits(c, cfg), cfg)
  {
    if cfg.maxCbInfoBits >= 40 {
      CountProperties(b, cfg);
      PayloadBits(b, FirstCount(b, cfg), cfg);
    }
  }
}
