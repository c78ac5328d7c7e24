/** Soft recovery is the adjoint of bit selection, exactly when nothing received is overwritten. */
module RateMatchingLaws {
  import opened Common
  import opened Llr
  import opened RateMatching

  function Dematched(cfg: RateMatchConfig, n: nat, llr: Soft): (full: Soft)
    requires Punctured(cfg) < n
    ensures |full| == n
  {
    seq(n, p requires 0 <= p < n => Recovered(cfg, n, llr, p))
  }

  function Inner(a: Soft, b: Soft, k: nat): real
    requires k <= |a| && k <= |b|
  {
    if k == 0 then 0.0 else Inner(a, b, k - 1) + a[k - 1] * b[k - 1]
  }

  /** The inner product of the LLRs with the values selected by the index map. */
  function Gathered(cfg: RateMatchConfig, n: nat, llr: Soft, x: Soft, k: nat): real
    requires Punctured(cfg) < n == |x| && k <= |llr|
  {
    if k == 0 then 0.0 else Gathered(cfg, n, llr, x, k - 1) + llr[k - 1] * x[MatchIndex(cfg, n, k - 1)]
  }

  /** Buffer position b is the last copy of its codeword position. */
  predicate Kept(cfg: RateMatchConfig, n: nat, b: nat)
    requires Punctured(cfg) < n
  {
    BufferSize(cfg, n) <= b + (n - Punctured(cfg))
  }

  /** None of the first e transmitted bits lands on a position that is overwritten later. */
  ghost predicate NothingLost(cfg: RateMatchConfig, n: nat, e: nat)
    requires Punctured(cfg) < n
  {
    forall i | 0 <= i < e :: Kept(cfg, n, BufferIndex(cfg, n, i))
  }

  ghost predicate IsAdjoint(cfg: RateMatchConfig, n: nat, e: nat)
    requires Punctured(cfg) < n
  {
    forall llr: Soft, x: Soft | |llr| == e && |x| == n ::
      Inner(Dematched(cfg, n, llr), x, n) == Gathered(cfg, n, llr, x, e)
  }

  // ---------------------------------------------------------------- collected values

  lemma {:induction false} CollectedAgree(cfg: RateMatchConfig, n: nat, llr: Soft, llr': Soft, k: nat, b: nat)
    requires Punctured(cfg) < n && k <= |llr| && k <= |llr'|
    requires forall i | 0 <= i < k :: llr[i] == llr'[i]
    ensures Collected(cfg, n, llr, k, b) == Collected(cfg, n, llr', k, b)
  {
    if k > 0 { CollectedAgree(cfg, n, llr, llr', k - 1, b); }
  }

  /** One more LLR changes one recovered value. */
  lemma RecoveredSnoc(cfg: RateMatchConfig, n: nat, llr: Soft, l: real)
    requires Punctured(cfg) < n && Kept(cfg, n, BufferIndex(cfg, n, |llr|))
    ensures var p := MatchIndex(cfg, n, |llr|);
      Dematched(cfg, n, llr + [l]) == Dematched(cfg, n, llr)[p := Dematched(cfg, n, llr)[p] + l]
  {
    var k, punch, nCb := |llr|, Punctured(cfg), BufferSize(cfg, n);
    var b, p := BufferIndex(cfg, n, k), MatchIndex(cfg, n, k);
    LastCopyUnique(b, n - punch, nCb);
    var was, now := Dematched(cfg, n, llr), Dematched(cfg, n, llr + [l]);
    forall q | 0 <= q < n ensures now[q] == if q == p then was[q] + l else was[q] {
      if punch <= q < punch + nCb {
        var c := LastCopy(q - punch, n - punch, nCb);
        CollectedAgree(cfg, n, llr, llr + [l], k, c);
        assert c == b <==> q == p;
      }
    }
  }

  lemma {:induction false} InnerAdd(a: Soft, x: Soft, j: nat, l: real, k: nat)
    requires k <= |a| == |x| && j < |a|
    ensures Inner(a[j := a[j] + l], x, k) == Inner(a, x, k) + (if j < k then l * x[j] else 0.0)
  {
    if k > 0 {
      InnerAdd(a, x, j, l, k - 1);
      if j == k - 1 { assert (a[j] + l) * x[j] == a[j] * x[j] + l * x[j]; }
    }
  }

  lemma {:induction false} InnerZero(a: Soft, x: Soft, k: nat)
    requires k <= |a| && k <= |x| && forall i | 0 <= i < k :: a[i] == 0.0
    ensures Inner(a, x, k) == 0.0
  {
    if k > 0 { InnerZero(a, x, k - 1); }
  }

  lemma {:induction false} GatheredAgree(cfg: RateMatchConfig, n: nat, llr: Soft, llr': Soft, x: Soft, k: nat)
    requires Punctured(cfg) < n == |x| && k <= |llr| && k <= |llr'|
    requires forall i | 0 <= i < k :: llr[i] == llr'[i]
    ensures Gathered(cfg, n, llr, x, k) == Gathered(cfg, n, llr', x, k)
  {
    if k > 0 { GatheredAgree(cfg, n, llr, llr', x, k - 1); }
  }

  lemma {:induction false} AdjointWhenKept(cfg: RateMatchConfig, n: nat, llr: Soft, x: Soft)
    requires Punctured(cfg) < n == |x| && NothingLost(cfg, n, |llr|)
    ensures Inner(Dematched(cfg, n, llr), x, n) == Gathered(cfg, n, llr, x, |llr|)
  {
    hide Recovered, MatchIndex, BufferIndex;
    if llr == [] {
      assert forall p | 0 <= p < n :: Dematched(cfg, n, [])[p] == 0.0 by { NothingRecovered(cfg, n); }
      InnerZero(Dematched(cfg, n, llr), x, n);
    } else {
      var k := |llr| - 1;
      var init, l := llr[..k], llr[k];
      assert llr == init + [l];
      AdjointWhenKept(cfg, n, init, x);
      RecoveredSnoc(cfg, n, init, l);
      InnerAdd(Dematched(cfg, n, init), x, MatchIndex(cfg, n, k), l, n);
      GatheredAgree(cfg, n, init, llr, x, k);
    }
  }

  lemma NothingRecovered(cfg: RateMatchConfig, n: nat)
    requires Punctured(cfg) < n
    ensures forall p | 0 <= p < n :: Recovered(cfg, n, [], p) == 0.0
  {
  }

  // ---------------------------------------------------------------- the failing case

  function Unit(i: nat, e: nat): (u: Soft)
    ensures |u| == e
  {
    seq(e, j => if j == i then 1.0 else 0.0)
  }

  lemma {:induction false} UnitCollected(cfg: RateMatchConfig, n: nat, i: nat, e: nat, k: nat, b: nat)
    requires Punctured(cfg) < n && k <= e && b != BufferIndex(cfg, n, i)
    ensures Collected(cfg, n, Unit(i, e), k, b) == 0.0
  {
    if k > 0 { UnitCollected(cfg, n, i, e, k - 1, b); }
  }

  lemma {:induction false} UnitGathered(cfg: RateMatchConfig, n: nat, i: nat, e: nat, x: Soft, k: nat)
    requires Punctured(cfg) < n == |x| && k <= e && forall p | 0 <= p < n :: x[p] == 1.0
    ensures Gathered(cfg, n, Unit(i, e), x, k) == if i < k then 1.0 else 0.0
  {
    if k > 0 { UnitGathered(cfg, n, i, e, x, k - 1); }
  }

  /** An LLR that lands on an overwritten position disappears. */
  lemma LostUnit(cfg: RateMatchConfig, n: nat, e: nat, i: nat)
    requires Punctured(cfg) < n && i < e && !Kept(cfg, n, BufferIndex(cfg, n, i))
    ensures !IsAdjoint(cfg, n, e)
  {
    var x: Soft := seq(n, _ => 1.0);
    var u := Unit(i, e);
    forall p | 0 <= p < n ensures Dematched(cfg, n, u)[p] == 0.0 {
      if Punctured(cfg) <= p < Punctured(cfg) + BufferSize(cfg, n) {
        UnitCollected(cfg, n, i, e, e, LastCopy(p - Punctured(cfg), n - Punctured(cfg), BufferSize(cfg, n)));
      }
    }
    InnerZero(Dematched(cfg, n, u), x, n);
    UnitGathered(cfg, n, i, e, x, e);
  }

  /** Recovery is the adjoint of selection exactly when no transmitted bit lands on a buffer position
      that a later copy overwrites; a buffer no longer than the unpunctured block suffices. */
  lemma AdjointIff(cfg: RateMatchConfig, n: nat, e: nat)
    requires Punctured(cfg) < n
    ensures IsAdjoint(cfg, n, e) <==> NothingLost(cfg, n, e)
    ensures BufferSize(cfg, n) <= n - Punctured(cfg) ==> IsAdjoint(cfg, n, e)
  {
    if NothingLost(cfg, n, e) {
      forall llr: Soft, x: Soft | |llr| == e && |x| == n
        ensures Inner(Dematched(cfg, n, llr), x, n) == Gathered(cfg, n, llr, x, e)
      {
        AdjointWhenKept(cfg, n, llr, x);
      }
    } else {
      var i :| 0 <= i < e && !Kept(cfg, n, BufferIndex(cfg, n, i));
      LostUnit(cfg, n, e, i);
    }
  }

  // ---------------------------------------------------------------- repetition counts

  /** How often the first k transmitted bits come from buffer position b. */
  function Hits(cfg: RateMatchConfig, n: nat, k: nat, b: nat): nat
    requires Punctured(cfg) < n
  {
    if k == 0 then 0 else Hits(cfg, n, k - 1, b) + (if BufferIndex(cfg, n, k - 1) == b then 1 else 0)
  }

  /** How far position b lies behind the starting position, going round. */
  function Lag(cfg: RateMatchConfig, n: nat, b: nat): (d: nat)
    requires Punctured(cfg) < n && b < BufferSize(cfg, n)
    ensures d < BufferSize(cfg, n)
  {
    var nCb := BufferSize(cfg, n);
    var k0 := StartOffset(cfg, nCb);
    if b >= k0 then b - k0 else b + nCb - k0
  }

  lemma HitsPosition(cfg: RateMatchConfig, n: nat, i: nat, b: nat)
    requires Punctured(cfg) < n && b < BufferSize(cfg, n)
    ensures BufferIndex(cfg, n, i) == b <==> i % BufferSize(cfg, n) == Lag(cfg, n, b)
  {
    var nCb := BufferSize(cfg, n);
    var k0 := StartOffset(cfg, nCb);
    var r := i % nCb;
    ModAdd(i, k0, nCb);
    assert (k0 + i) % nCb == (r + k0) % nCb;
    if r + k0 < nCb { ModUnique(r + k0, nCb, 0, r + k0); } else { ModUnique(r + k0, nCb, 1, r + k0 - nCb); }
  }

  /** Counting up by one: the quotient grows when the remainder wraps. */
  lemma NextDivMod(i: nat, m: nat)
    requires m > 0
    ensures if i % m + 1 < m then (i + 1) % m == i % m + 1 && (i + 1) / m == i / m
            else (i + 1) % m == 0 && (i + 1) / m == i / m + 1
  {
    var q, r := i / m, i % m;
    assert i == m * q + r;
    if r + 1 < m {
      ModUnique(i + 1, m, q, r + 1);
    } else {
      assert m * (q + 1) == m * q + m;
      ModUnique(i + 1, m, q + 1, 0);
    }
  }

  /** Every buffer position is sent floor(E / Ncb) times, plus once for those the last partial round reaches. */
  lemma {:induction false} HitCount(cfg: RateMatchConfig, n: nat, e: nat, b: nat)
    requires Punctured(cfg) < n && b < BufferSize(cfg, n)
    ensures Hits(cfg, n, e, b) == e / BufferSize(cfg, n) + (if Lag(cfg, n, b) < e % BufferSize(cfg, n) then 1 else 0)
  {
    hide BufferIndex, Lag;
    if e > 0 {
      HitCount(cfg, n, e - 1, b);
      HitsPosition(cfg, n, e - 1, b);
      NextDivMod(e - 1, BufferSize(cfg, n));
      var d := Lag(cfg, n, b);
    } else {
      ModUnique(0, BufferSize(cfg, n), 0, 0);
    }
  }

  // ---------------------------------------------------------------- signs

  lemma {:induction false} CollectedLeans(cfg: RateMatchConfig, n: nat, llr: Soft, k: nat, b: nat, bit: bool)
    requires Punctured(cfg) < n && k <= |llr|
    requires forall i | 0 <= i < k && BufferIndex(cfg, n, i) == b :: Leans(llr[i], bit)
    ensures Leans(Collected(cfg, n, llr, k, b), bit)
  {
    if k > 0 { CollectedLeans(cfg, n, llr, k - 1, b, bit); }
  }

  /** The bits selected from a codeword. */
  function Matched(cfg: RateMatchConfig, coded: Bits): (e: Bits)
    requires Punctured(cfg) < |coded|
    ensures |e| == cfg.eBits
  {
    seq(cfg.eBits, i requires 0 <= i < cfg.eBits => coded[MatchIndex(cfg, |coded|, i)])
  }

  /** LLRs that lean towards the selected bits are recovered as LLRs that lean towards the codeword,
      for any buffer size; punctured positions stay 0. */
  lemma DematchConsistent(cfg: RateMatchConfig, coded: Bits, llr: Soft)
    requires Punctured(cfg) < |coded| && Consistent(llr, Matched(cfg, coded))
    ensures Consistent(Dematched(cfg, |coded|, llr), coded)
    ensures forall p | 0 <= p < Punctured(cfg) :: Dematched(cfg, |coded|, llr)[p] == 0.0
  {
    var n, punch := |coded|, Punctured(cfg);
    forall p | punch <= p < n && p - punch < BufferSize(cfg, n) ensures Leans(Recovered(cfg, n, llr, p), coded[p]) {
      var b := LastCopy(p - punch, n - punch, BufferSize(cfg, n));
      forall i | 0 <= i < |llr| && BufferIndex(cfg, n, i) == b ensures Leans(llr[i], coded[p]) {
        assert Leans(llr[i], Matched(cfg, coded)[i]);
      }
      CollectedLeans(cfg, n, llr, |llr|, b, coded[p]);
    }
  }

  /** Non-zero LLRs leaning to the same bit never cancel. */
  lemma {:induction false} CollectedZero(cfg: RateMatchConfig, n: nat, llr: Soft, k: nat, b: nat, bit: bool)
    requires Punctured(cfg) < n && k <= |llr|
    requires forall i | 0 <= i < k && BufferIndex(cfg, n, i) == b :: Leans(llr[i], bit) && llr[i] != 0.0
    ensures Collected(cfg, n, llr, k, b) == 0.0 <==> Hits(cfg, n, k, b) == 0
  {
    if k > 0 {
      CollectedZero(cfg, n, llr, k - 1, b, bit);
      CollectedLeans(cfg, n, llr, k - 1, b, bit);
    }
  }

  /** Codeword position p is sent at least once in e bits (through its last copy in the buffer). */
  predicate Sent(cfg: RateMatchConfig, n: nat, e: nat, p: nat)
    requires Punctured(cfg) < n && p < n
  {
    var punch, nCb := Punctured(cfg), BufferSize(cfg, n);
    punch <= p < punch + nCb && Hits(cfg, n, e, LastCopy(p - punch, n - punch, nCb)) > 0
  }

  /** With no erased input, exactly the positions sent are recovered. */
  lemma DematchErasures(cfg: RateMatchConfig, coded: Bits, llr: Soft, p: nat)
    requires Punctured(cfg) < |coded| && Consistent(llr, Matched(cfg, coded)) && 0.0 !in llr && p < |coded|
    ensures Dematched(cfg, |coded|, llr)[p] != 0.0 <==> Sent(cfg, |coded|, |llr|, p)
  {
    var n, punch := |coded|, Punctured(cfg);
    if punch <= p < punch + BufferSize(cfg, n) {
      var b := LastCopy(p - punch, n - punch, BufferSize(cfg, n));
      forall i | 0 <= i < |llr| && BufferIndex(cfg, n, i) == b ensures Leans(llr[i], coded[p]) && llr[i] != 0.0 {
        assert Leans(llr[i], Matched(cfg, coded)[i]) && llr[i] in llr;
      }
      CollectedZero(cfg, n, llr, |llr|, b, coded[p]);
    }
  }
}
