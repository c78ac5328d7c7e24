/** From transport block to transport block: segmentation, encoding, rate matching, modulation, soft
    demodulation, HARQ combining and min-sum decoding put together. */
module Chain {
  import opened Common
  import opened Llr
  import opened LdpcGraph
  import opened LdpcEncoder
  import opened LdpcDecoder
  import opened LdpcCodec
  import opened LdpcErasure
  import opened LdpcErasureRuns
  import opened RateMatching
  import opened RateMatchingLaws
  import opened Harq
  import opened Segmentation
  import M = Modulation
  import C = ComplexNumbers

  /** One received transmission: how it was rate matched, and its LLRs. */
  datatype Reception = Reception(cfg: RateMatchConfig, llr: Soft)

  /** Every received LLR is non-zero and has the sign of the bit that was sent. */
  ghost predicate Clean(rx: Reception, cw: Bits) {
    Punctured(rx.cfg) < |cw| && Consistent(rx.llr, Matched(rx.cfg, cw)) && 0.0 !in rx.llr
  }

  /** The LLR vectors combined in the soft buffer are the de-rate-matched receptions. */
  ghost predicate Combined(xs: seq<Soft>, rxs: seq<Reception>, cw: Bits) {
    && |xs| == |rxs|
    && forall i | 0 <= i < |rxs| :: Clean(rxs[i], cw) && xs[i] == Dematched(rxs[i].cfg, |cw|, rxs[i].llr)
  }

  /** Position v was sent in at least one of the receptions, through a copy that survives de-rate-matching:
      the last one in the buffer, which is the only one in a buffer no longer than the unpunctured part. */
  ghost predicate EverSent(rxs: seq<Reception>, cw: Bits, v: nat)
    requires v < |cw|
  {
    exists i :: 0 <= i < |rxs| && Punctured(rxs[i].cfg) < |cw| && Sent(rxs[i].cfg, |cw|, |rxs[i].llr|, v)
  }

  /** The combined buffer leans towards the codeword, and speaks exactly where a surviving copy of the
      bit was sent. */
  lemma BufferErasures(xs: seq<Soft>, rxs: seq<Reception>, cw: Bits)
    requires xs != [] && Combined(xs, rxs, cw)
    ensures SameLength(xs, |cw|) && Consistent(SumAll(xs, |cw|), cw)
    ensures forall v | 0 <= v < |cw| :: SumAll(xs, |cw|)[v] != 0.0 <==> EverSent(rxs, cw, v)
  {
    forall i | 0 <= i < |xs| ensures Consistent(xs[i], cw) { DematchConsistent(rxs[i].cfg, cw, rxs[i].llr); }
    SumAllConsistent(xs, cw);
    forall v | 0 <= v < |cw| ensures SumAll(xs, |cw|)[v] != 0.0 <==> EverSent(rxs, cw, v) {
      forall i | 0 <= i < |xs| ensures xs[i][v] != 0.0 <==> Sent(rxs[i].cfg, |cw|, |rxs[i].llr|, v) {
        DematchErasures(rxs[i].cfg, cw, rxs[i].llr, v);
      }
    }
  }

  ghost function SentMask(rxs: seq<Reception>, cw: Bits): (k: Bits)
    ensures |k| == |cw|
  {
    seq(|cw|, v requires 0 <= v < |cw| => EverSent(rxs, cw, v))
  }

  lemma EncodesParts(g: Graph, info: Bits, cw: Bits)
    requires g.Valid() && Encodes(g, info, cw)
    ensures Codeword(g, cw) && |cw| == g.N() >= g.K() && cw[..g.K()] == info
  {
  }

  /** Whatever happened before, once a process has accepted clean receptions of one codeword under its
      current NDI, in any redundancy versions and lengths, decoding its soft buffer returns the
      information bits, provided erasure message passing from the positions that were sent covers
      the graph within maxIter rounds. */
  lemma RetransmissionsDecode(g: Graph, info: Bits, cw: Bits, h: seq<Event>, id: nat, rxs: seq<Reception>,
                              rounds: nat, maxIter: int)
    requires g.Valid() && NoLeafCheck(Expanded(g)) && Encodes(g, info, cw)
    requires id in Run(h) && Combined(Since(Accepted(h), id, Run(h)[id].ndi), rxs, cw)
    requires |cw| == g.N() && Covered(Expanded(g), SentMask(rxs, cw), rounds) && rounds <= maxIter
    ensures |Run(h)[id].softBuffer| == g.N() >= g.K()
    ensures FinalWord(g, Run(h)[id].softBuffer, maxIter)[..g.K()] == info
  {
    hide Encodes, NoLeafCheck, Combined, Run, Since, Accepted, Covered, EverSent;
    var xs, buffer := Since(Accepted(h), id, Run(h)[id].ndi), Run(h)[id].softBuffer;
    EncodesParts(g, info, cw);
    HoldsSumSince(h, id);
    BufferErasures(xs, rxs, cw);
    assert |buffer| == |cw| by { assert |xs[0]| == |cw|; }
    assert Given(buffer) == SentMask(rxs, cw);
    ErasureDecoding(g, buffer, cw, rounds, maxIter);
  }

  /** Sending the selected bits as QAM symbols and receiving each within the scale s on both axes is a
      clean reception. */
  lemma SymbolsAreClean(cfg: RateMatchConfig, cw: Bits, syms: seq<C.Complex>, h: nat, s: real, noiseVar: real)
    requires Punctured(cfg) < |cw| && s > 0.0 && noiseVar > 0.0 && M.AllClose(syms, Matched(cfg, cw), h, s)
    ensures Clean(Reception(cfg, M.SoftAll(syms, h, s, noiseVar)), cw)
  {
    M.SoftSequenceCorrect(syms, Matched(cfg, cw), h, s, noiseVar);
  }

  /** A run that stops early stops at a codeword, and re-encoding the information bits it returns gives
      exactly that word. */
  lemma EarlyStopReEncodes(g: Graph, llr: Soft, maxIter: int, cw: Bits)
    requires g.Valid() && ParityNonsingular(g) && g.nb == g.kb + g.mb && |llr| == g.N() >= g.K()
    requires StopFrom(g, llr, 0, maxIter) < maxIter
    ensures var w := FinalWord(g, llr, maxIter); Encodes(g, w[..g.K()], cw) <==> cw == w
  {
    hide ParityNonsingular, Codeword, Hard, Graph.Valid, Encodes;
    var w := FinalWord(g, llr, maxIter);
    assert Codeword(g, w);
    CodewordEncodes(g, w);
    if Encodes(g, w[..g.K()], cw) { ReEncode(g, w, cw); }
  }

  // ---------------------------------------------------------------- the whole transport block

  /** One transmission of a codeword: how it was rate matched, the received symbols, bits per axis, the
      scale of the constellation, and the noise variance the demodulator assumes. */
  datatype Transmission =
    Transmission(cfg: RateMatchConfig, syms: seq<C.Complex>, half: nat, scale: real, noiseVar: real)

  /** Every symbol arrived within the scale of the constellation on both axes. */
  ghost predicate WithinScale(tx: Transmission, cw: Bits) {
    && Punctured(tx.cfg) < |cw| && tx.scale > 0.0 && tx.noiseVar > 0.0
    && M.AllClose(tx.syms, Matched(tx.cfg, cw), tx.half, tx.scale)
  }

  /** What the soft demodulator makes of it. */
  function Demodulated(tx: Transmission): Reception {
    Reception(tx.cfg, if tx.noiseVar > 0.0 then M.SoftAll(tx.syms, tx.half, tx.scale, tx.noiseVar) else [])
  }

  function AllDemodulated(txs: seq<Transmission>): (rxs: seq<Reception>)
    ensures |rxs| == |txs|
  {
    seq(|txs|, i requires 0 <= i < |txs| => Demodulated(txs[i]))
  }

  /** The de-rate-matched LLR vectors of all transmissions. */
  ghost function AllDematched(txs: seq<Transmission>, n: nat): (xs: seq<Soft>)
    requires forall i | 0 <= i < |txs| :: Punctured(txs[i].cfg) < n
    ensures |xs| == |txs|
  {
    seq(|txs|, i requires 0 <= i < |txs| => Dematched(txs[i].cfg, n, Demodulated(txs[i]).llr))
  }

  /** One code block on its way: its codeword, its transmissions, everything that happened to the HARQ
      buffer, and the process that collected it. */
  datatype BlockRun = BlockRun(cw: Bits, txs: seq<Transmission>, history: seq<Event>, id: nat)

  /** The block was encoded by the parameters of its plan. Each transmission arrived within the scale.
      The HARQ process has accepted exactly these transmissions since its NDI last changed. Erasure
      message passing from the positions they carry covers the graph in time. */
  ghost predicate Carried(plan: CodeBlockPlan, tables: Tables, run: BlockRun, rounds: nat) {
    var g, procs := PlanGraph(plan, tables), Run(run.history);
    && EncodesFor(g, FromBits(plan.bits), plan.ldpc, tables, run.cw) && NoLeafCheck(Expanded(g))
    && (forall i | 0 <= i < |run.txs| :: WithinScale(run.txs[i], run.cw))
    && run.id in procs
    && Since(Accepted(run.history), run.id, procs[run.id].ndi) == AllDematched(run.txs, |run.cw|)
    && rounds <= plan.ldpc.maxIter && |run.cw| == g.N()
    && Covered(Expanded(g), SentMask(AllDemodulated(run.txs), run.cw), rounds)
  }

  lemma TransmissionIsClean(tx: Transmission, cw: Bits)
    requires WithinScale(tx, cw)
    ensures Punctured(tx.cfg) < |cw| && Demodulated(tx).cfg == tx.cfg && Clean(Demodulated(tx), cw)
  {
    hide Clean, M.AllClose, M.SoftAll, Matched;
    SymbolsAreClean(tx.cfg, cw, tx.syms, tx.half, tx.scale, tx.noiseVar);
  }

  lemma DematchedAreCombined(txs: seq<Transmission>, cw: Bits)
    requires forall i | 0 <= i < |txs| :: WithinScale(txs[i], cw) && Punctured(txs[i].cfg) < |cw|
    ensures Combined(AllDematched(txs, |cw|), AllDemodulated(txs), cw)
  {
    hide Clean, Dematched, WithinScale, Demodulated;
    forall i | 0 <= i < |txs|
      ensures Punctured(txs[i].cfg) < |cw| && Demodulated(txs[i]).cfg == txs[i].cfg && Clean(Demodulated(txs[i]), cw)
    {
      TransmissionIsClean(txs[i], cw);
    }
  }

  lemma EncodedByPlan(plan: CodeBlockPlan, tables: Tables, g: Graph, cw: Bits)
    requires EncodesFor(g, FromBits(plan.bits), plan.ldpc, tables, cw)
    ensures g.Valid() && |plan.bits| <= g.K()
    ensures Encodes(g, plan.bits + Zeros(g.K() - |plan.bits|), cw) && |cw| == g.N()
  {
    hide Encodes, IsGraphOf;
    assert ToBits(FromBits(plan.bits)) == plan.bits;
    assert Encodes(g, plan.bits + Zeros(g.K() - |plan.bits|), cw);
    EncodesParts(g, plan.bits + Zeros(g.K() - |plan.bits|), cw);
  }

  /** Decoding the soft buffer with the parameters of the plan returns the block and its zero filler. */
  lemma BlockDecodes(plan: CodeBlockPlan, tables: Tables, run: BlockRun, rounds: nat)
    requires Carried(plan, tables, run, rounds)
    ensures var g := PlanGraph(plan, tables);
      && run.id in Run(run.history) && g.Valid() && |plan.bits| <= g.K()
      && DecodesTo(g, Run(run.history)[run.id].softBuffer, plan.ldpc.maxIter, plan.bits + Zeros(g.K() - |plan.bits|))
  {
    hide Encodes, NoLeafCheck, Covered, Run, Since, Accepted, EncodesFor;
    hide PlanGraph, SentMask, AllDematched, WithinScale;
    var g := PlanGraph(plan, tables);
    EncodedByPlan(plan, tables, g, run.cw);
    forall i | 0 <= i < |run.txs| ensures Punctured(run.txs[i].cfg) < |run.cw| {
      TransmissionIsClean(run.txs[i], run.cw);
    }
    DematchedAreCombined(run.txs, run.cw);
    var info := plan.bits + Zeros(g.K() - |plan.bits|);
    RetransmissionsDecode(g, info, run.cw, run.history, run.id, AllDemodulated(run.txs), rounds, plan.ldpc.maxIter);
  }

  /** The process holds a soft buffer of the length the decoder accepts for the parameters of the plan. */
  ghost predicate Decodable(plan: CodeBlockPlan, tables: Tables, run: BlockRun) {
    var g := PlanGraph(plan, tables);
    run.id in Run(run.history) && g.Valid() && |Run(run.history)[run.id].softBuffer| == g.N() >= |plan.bits|
  }

  /** The decoded block with its filler removed. */
  ghost function Received(plan: CodeBlockPlan, tables: Tables, run: BlockRun): (p: CodeBlockPlan)
    requires Decodable(plan, tables, run)
  {
    var soft := Run(run.history)[run.id].softBuffer;
    plan.(bits := FinalWord(PlanGraph(plan, tables), soft, plan.ldpc.maxIter)[..|plan.bits|])
  }

  lemma ReceivedIsPlan(plan: CodeBlockPlan, tables: Tables, run: BlockRun, rounds: nat)
    requires Carried(plan, tables, run, rounds)
    ensures Decodable(plan, tables, run) && Received(plan, tables, run) == plan
  {
    hide Carried, Run, FinalWord, PlanGraph;
    BlockDecodes(plan, tables, run, rounds);
    var g, soft := PlanGraph(plan, tables), Run(run.history)[run.id].softBuffer;
    var word := FinalWord(g, soft, plan.ldpc.maxIter);
    assert word[..g.K()][..|plan.bits|] == word[..|plan.bits|];
  }

  ghost function AllReceived(blocks: seq<CodeBlockPlan>, tables: Tables, runs: seq<BlockRun>): (ps: seq<CodeBlockPlan>)
    requires |runs| == |blocks| && forall i | 0 <= i < |blocks| :: Decodable(blocks[i], tables, runs[i])
    ensures |ps| == |blocks|
  {
    seq(|blocks|, i requires 0 <= i < |blocks| => Received(blocks[i], tables, runs[i]))
  }

  /** The whole chain. Segment a transport block; encode every code block in the graph of its plan; send
      it any number of times, rate matched to any lengths and redundancy versions, as QAM symbols that
      arrive within the scale of the constellation; demodulate softly, undo rate matching, and combine in
      a HARQ buffer with any history; decode with the parameters of the plan. If erasure message passing
      from the positions sent covers each graph in time, the decoded blocks pass their CRCs, and joining
      them without CRCs and padding gives the transport block. */
  lemma TransportBlockDelivered(tb: Bits, cfg: SegmentationConfig, r: SegmentationResult, tables: Tables,
                                runs: seq<BlockRun>, rounds: nat)
    requires tb != [] && cfg.maxCbInfoBits > 0 && SegmentsOf(tb, cfg, r) && |runs| == |r.blocks|
    requires forall i | 0 <= i < |r.blocks| :: Carried(r.blocks[i], tables, runs[i], rounds)
    ensures r.count == |r.blocks| > 0
    ensures forall i | 0 <= i < |r.blocks| :: Decodable(r.blocks[i], tables, runs[i])
    ensures Rebuilds(AllReceived(r.blocks, tables, runs), tb, cfg)
  {
    hide SegmentsOf, Carried, Rebuilds, Decodable, Received;
    SegmentationRoundTrip(tb, cfg, r);
    forall i | 0 <= i < |r.blocks|
      ensures Decodable(r.blocks[i], tables, runs[i]) && Received(r.blocks[i], tables, runs[i]) == r.blocks[i]
    {
      ReceivedIsPlan(r.blocks[i], tables, runs[i], rounds);
    }
    assert AllReceived(r.blocks, tables, runs) == r.blocks;
  }
}
