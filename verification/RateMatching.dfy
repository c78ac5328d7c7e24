/** Circular-buffer rate matching and its soft inverse (section 5.4.2.1 of 3GPP TS 38.212). */
module RateMatching {
  import opened Common

  datatype RateMatchConfig =
    RateMatchConfig(eBits: nat, rv: int, nCb: nat, zc: int, bg: BaseGraph, punctureFirst2z: bool)

  // ---------------------------------------------------------------- starting positions

  function Coefficient(bg: BaseGraph, rv: nat): nat
    requires rv < 4
  {
    match bg
    case BG1 => [0, 17, 33, 56][rv]
    case BG2 => [0, 13, 25, 43][rv]
  }

  function Columns(bg: BaseGraph): nat { if bg == BG1 then 66 else 50 }

  /** A coefficient in sixty-sixths or fiftieths of the buffer, rounded down to a multiple of Zc. */
  function K0(nCb: nat, zc: nat, bg: BaseGraph, rv: nat): nat
    requires zc > 0 && rv < 4
  {
    RoundedStart(Coefficient(bg, rv), Columns(bg), nCb, zc)
  }

  function RoundedStart(c: nat, cols: nat, nCb: nat, zc: nat): nat
    requires zc > 0 && cols > 0
  {
    DivNat(c * nCb, cols * zc) * zc
  }

  function DivNat(x: nat, d: nat): (q: nat)
    requires d > 0
    ensures q * d <= x < q * d + d
  {
    x / d
  }

  /** Every starting position is a multiple of Zc inside the buffer, and they do not decrease. */
  lemma K0Properties(nCb: nat, zc: nat, bg: BaseGraph, rv: nat)
    requires nCb > 0 && zc > 0 && rv < 4
    ensures K0(nCb, zc, bg, rv) % zc == 0 && K0(nCb, zc, bg, rv) < nCb
    ensures rv < 3 ==> K0(nCb, zc, bg, rv) <= K0(nCb, zc, bg, rv + 1)
    ensures rv == 0 ==> K0(nCb, zc, bg, rv) == 0
  {
    hide RoundedStart;
    StartMultiple(Coefficient(bg, rv), Columns(bg), nCb, zc);
    StartBelow(Coefficient(bg, rv), Columns(bg), nCb, zc);
    if rv < 3 { StartMonotone(Coefficient(bg, rv), Coefficient(bg, rv + 1), Columns(bg), nCb, zc); }
    if rv == 0 { StartZero(Columns(bg), nCb, zc); }
  }

  lemma StartMultiple(c: nat, cols: nat, nCb: nat, zc: nat)
    requires zc > 0 && cols > 0
    ensures RoundedStart(c, cols, nCb, zc) % zc == 0
  {
    var q := DivNat(c * nCb, cols * zc);
    ModUnique(q * zc, zc, q, 0);
  }

  lemma StartBelow(c: nat, cols: nat, nCb: nat, zc: nat)
    requires zc > 0 && c < cols && nCb > 0
    ensures RoundedStart(c, cols, nCb, zc) < nCb
  {
    var q := DivNat(c * nCb, cols * zc);
    assert q * (cols * zc) == (q * zc) * cols;
    assert c * nCb < cols * nCb;
    MulCancelLess(q * zc, nCb, cols);
  }

  lemma StartMonotone(c: nat, c': nat, cols: nat, nCb: nat, zc: nat)
    requires zc > 0 && cols > 0 && c <= c'
    ensures RoundedStart(c, cols, nCb, zc) <= RoundedStart(c', cols, nCb, zc)
  {
    assert c * nCb <= c' * nCb;
    DivMonotone(c * nCb, c' * nCb, cols * zc);
  }

  lemma StartZero(cols: nat, nCb: nat, zc: nat)
    requires zc > 0 && cols > 0
    ensures RoundedStart(0, cols, nCb, zc) == 0
  {
    var q := DivNat(0, cols * zc);
    MulCancelLess(q, 1, cols * zc);
  }

  lemma DivMonotone(x: nat, y: nat, d: nat)
    requires d > 0 && x <= y
    ensures DivNat(x, d) <= DivNat(y, d)
  {
    var a, b := DivNat(x, d), DivNat(y, d);
    assert (b + 1) * d == b * d + d;
    MulCancelLess(a, b + 1, d);
  }

  method RvK0Positions(nCb: nat, zc: int, bg: BaseGraph) returns (r: Option<seq<nat>>)
    ensures r.Some? <==> zc > 0 && nCb > 0
    ensures r.Some? ==> |r.value| == 4 && forall rv | 0 <= rv < 4 :: r.value[rv] == K0(nCb, zc, bg, rv)
  {
    if zc <= 0 || nCb == 0 { return None; }
    var out: seq<nat> := [];
    for rv := 0 to 4
      invariant |out| == rv && forall u | 0 <= u < rv :: out[u] == K0(nCb, zc, bg, u)
    {
      out := out + [K0(nCb, zc, bg, rv)];
    }
    return Some(out);
  }

  /** The redundancy version reduced to 0..3, for negative values too. */
  function Version(rv: int): (r: nat)
    ensures r == rv % 4 < 4
  {
    TruncMod(TruncMod(rv, 4) + 4, 4)
  }

  /** Where reading starts: k0, or a quarter step when Zc is unknown. */
  function StartOffset(cfg: RateMatchConfig, nCb: nat): (k0: nat)
    requires nCb > 0
    ensures k0 < nCb
  {
    if cfg.zc > 0 then
      K0(nCb, cfg.zc, cfg.bg, Version(cfg.rv)) % nCb
    else
      nCb * Version(cfg.rv) / 4
  }

  // ---------------------------------------------------------------- the index map

  function Punctured(cfg: RateMatchConfig): nat {
    if cfg.punctureFirst2z && cfg.zc > 0 then 2 * cfg.zc else 0
  }

  /** Size of the circular buffer for a code block of n bits. */
  function BufferSize(cfg: RateMatchConfig, n: nat): nat
    requires Punctured(cfg) < n
  {
    if cfg.nCb == 0 then n - Punctured(cfg) else cfg.nCb
  }

  /** The buffer position of transmitted bit i. */
  function BufferIndex(cfg: RateMatchConfig, n: nat, i: nat): (b: nat)
    requires Punctured(cfg) < n
    ensures b < BufferSize(cfg, n)
  {
    var nCb := BufferSize(cfg, n);
    (StartOffset(cfg, nCb) + i) % nCb
  }

  /** The codeword position of transmitted bit i. */
  function MatchIndex(cfg: RateMatchConfig, n: nat, i: nat): (p: nat)
    requires Punctured(cfg) < n
    ensures Punctured(cfg) <= p < n
  {
    Punctured(cfg) + BufferIndex(cfg, n, i) % (n - Punctured(cfg))
  }

  /** Where transmitted bit i comes from, written out. Reading starts at k0, for which section 5.4.2.1 of
      TS 38.212 gives fractions of the buffer in units of Zc, or a quarter step when Zc is unknown, and
      goes round the buffer; the buffer repeats the code block without its punctured first 2 Zc bits. */
  lemma MatchIndexMeans(cfg: RateMatchConfig, n: nat, i: nat)
    requires Punctured(cfg) < n
    ensures var punch := if cfg.punctureFirst2z && cfg.zc > 0 then 2 * cfg.zc else 0;
      var nCb := if cfg.nCb == 0 then n - punch else cfg.nCb;
      var rv := cfg.rv % 4;
      var c := if cfg.bg == BG1 then [0, 17, 33, 56][rv] else [0, 13, 25, 43][rv];
      var cols := if cfg.bg == BG1 then 66 else 50;
      var k0 := if cfg.zc > 0 then c * nCb / (cols * cfg.zc) * cfg.zc else nCb * rv / 4;
      && k0 < nCb && MatchIndex(cfg, n, i) == punch + (k0 + i) % nCb % (n - punch)
      && MatchIndex(cfg, n, 0) == punch + k0 % (n - punch)
      && (cfg.zc > 0 && nCb == cols * cfg.zc ==> k0 == c * cfg.zc)
  {
    var nCb, rv := BufferSize(cfg, n), Version(cfg.rv);
    hide K0, Coefficient;
    if cfg.zc > 0 { StartFromK0(cfg, nCb); } else { StartFromQuarter(cfg, nCb); }
    K0Written(nCb, if cfg.zc > 0 then cfg.zc else 1, cfg.bg, rv);
    hide StartOffset;
    ModUnique(StartOffset(cfg, nCb), nCb, 0, StartOffset(cfg, nCb));
  }

  lemma StartFromK0(cfg: RateMatchConfig, nCb: nat)
    requires nCb > 0 && cfg.zc > 0
    ensures StartOffset(cfg, nCb) == K0(nCb, cfg.zc, cfg.bg, Version(cfg.rv)) < nCb
  {
    hide K0;
    K0Properties(nCb, cfg.zc, cfg.bg, Version(cfg.rv));
    ModUnique(K0(nCb, cfg.zc, cfg.bg, Version(cfg.rv)), nCb, 0, K0(nCb, cfg.zc, cfg.bg, Version(cfg.rv)));
  }

  lemma StartFromQuarter(cfg: RateMatchConfig, nCb: nat)
    requires nCb > 0 && cfg.zc <= 0
    ensures StartOffset(cfg, nCb) == nCb * Version(cfg.rv) / 4 < nCb
  {
  }

  lemma K0Written(nCb: nat, zc: nat, bg: BaseGraph, rv: nat)
    requires zc > 0 && rv < 4
    ensures var c := if bg == BG1 then [0, 17, 33, 56][rv] else [0, 13, 25, 43][rv];
      var cols := if bg == BG1 then 66 else 50;
      && K0(nCb, zc, bg, rv) == c * nCb / (cols * zc) * zc
      && (nCb == cols * zc ==> K0(nCb, zc, bg, rv) == c * zc)
  {
    var c, cols := Coefficient(bg, rv), Columns(bg);
    if nCb == cols * zc { ModUnique(c * nCb, nCb, c, 0) by { assert c * nCb == nCb * c; } }
  }

  /** Selects eBits bits, never one of the first 2 Zc when those are punctured. */
  method RateMatch(coded: Bits, cfg: RateMatchConfig) returns (r: Option<Bits>)
    ensures r.Some? <==> cfg.eBits > 0 && |coded| > Punctured(cfg)
    ensures r.Some? ==> |r.value| == cfg.eBits
    ensures r.Some? ==> forall i | 0 <= i < cfg.eBits :: r.value[i] == coded[MatchIndex(cfg, |coded|, i)]
  {
    if coded == [] || cfg.eBits == 0 { return None; }
    var systematic := coded;
    if cfg.punctureFirst2z && cfg.zc > 0 {
      var punch := 2 * cfg.zc;
      if |coded| <= punch { return None; }
      systematic := coded[punch..];
    }
    var nCb := if cfg.nCb == 0 then |systematic| else cfg.nCb;
    var buf := new bool[nCb];
    for i := 0 to nCb
      invariant forall b | 0 <= b < i :: buf[b] == systematic[b % |systematic|]
    {
      buf[i] := systematic[i % |systematic|];
    }
    var k0 := StartOffset(cfg, nCb);
    var out: Bits := [];
    for i := 0 to cfg.eBits
      invariant |out| == i && forall j | 0 <= j < i :: out[j] == coded[MatchIndex(cfg, |coded|, j)]
      invariant forall b | 0 <= b < nCb :: buf[b] == systematic[b % |systematic|]
    {
      out := out + [buf[(k0 + i) % nCb]];
    }
    return Some(out);
  }

  // ---------------------------------------------------------------- soft recovery

  /** What the first k transmitted LLRs add up to at buffer position b. */
  function Collected(cfg: RateMatchConfig, n: nat, llr: Soft, k: nat, b: nat): real
    requires Punctured(cfg) < n && k <= |llr|
  {
    if k == 0 then 0.0
    else Collected(cfg, n, llr, k - 1, b) + (if BufferIndex(cfg, n, k - 1) == b then llr[k - 1] else 0.0)
  }

  /** The last buffer position that is copied to residue q, when there is one. */
  function LastCopy(q: nat, size: nat, nCb: nat): (b: nat)
    requires q < size && q < nCb
    ensures b < nCb <= b + size && b % size == q
  {
    var k := (nCb - 1 - q) / size;
    assert nCb - 1 - q == size * k + (nCb - 1 - q) % size;
    ModUnique(q + size * k, size, k, q);
    q + size * k
  }

  /** The recovered LLR of codeword position p. When the buffer is longer than the unpunctured part,
      later copies overwrite earlier ones. */
  function Recovered(cfg: RateMatchConfig, n: nat, llr: Soft, p: nat): real
    requires Punctured(cfg) < n && p < n
  {
    var punch, nCb := Punctured(cfg), BufferSize(cfg, n);
    if p < punch || p - punch >= nCb then 0.0
    else Collected(cfg, n, llr, |llr|, LastCopy(p - punch, n - punch, nCb))
  }

  lemma LastCopyUnique(b: nat, size: nat, nCb: nat)
    requires 0 < size && b < nCb <= b + size
    ensures b % size < nCb && LastCopy(b % size, size, nCb) == b
  {
    var q := b % size;
    var c := LastCopy(q, size, nCb);
    var x, y := b / size, c / size;
    assert b == size * x + q && c == size * y + q;
    assert size * (x - y) == b - c;
    if x > y { MulAtLeast(size, x - y); }
    if x < y { MulAtLeast(size, y - x); }
  }

  /** Sum of the first k transmitted LLRs that were read at buffer position b. */
  function ReadAt(cfg: RateMatchConfig, n: nat, llr: Soft, k: nat, b: nat): real
    requires Punctured(cfg) < n && k <= |llr|
  {
    if k == 0 then 0.0
    else ReadAt(cfg, n, llr, k - 1, b) + (if BufferIndex(cfg, n, k - 1) != b then 0.0 else llr[k - 1])
  }

  /** What each codeword position recovers: nothing when it is punctured or beyond the buffer, and otherwise
      the sum of the LLRs read at the last buffer position that holds it. */
  lemma RecoveredMeans(cfg: RateMatchConfig, n: nat, llr: Soft, p: nat, b: nat)
    requires Punctured(cfg) < n && p < n
    ensures p < Punctured(cfg) || p - Punctured(cfg) >= BufferSize(cfg, n) ==> Recovered(cfg, n, llr, p) == 0.0
    ensures b < BufferSize(cfg, n) <= b + (n - Punctured(cfg)) && p == Punctured(cfg) + b % (n - Punctured(cfg)) ==>
      Recovered(cfg, n, llr, p) == ReadAt(cfg, n, llr, |llr|, b)
  {
    var size, nCb := n - Punctured(cfg), BufferSize(cfg, n);
    if b < nCb <= b + size && p == Punctured(cfg) + b % size {
      LastCopyUnique(b, size, nCb);
      CollectedIsRead(cfg, n, llr, |llr|, b);
    }
  }

  lemma {:induction false} CollectedIsRead(cfg: RateMatchConfig, n: nat, llr: Soft, k: nat, b: nat)
    requires Punctured(cfg) < n && k <= |llr|
    ensures Collected(cfg, n, llr, k, b) == ReadAt(cfg, n, llr, k, b)
  {
    if k > 0 { CollectedIsRead(cfg, n, llr, k - 1, b); }
  }

  method RateDematch(llr: Soft, cfg: RateMatchConfig, n: nat) returns (r: Option<Soft>)
    ensures r.Some? <==> n > Punctured(cfg)
    ensures r.Some? ==> |r.value| == n && forall p | 0 <= p < n :: r.value[p] == Recovered(cfg, n, llr, p)
  {
    if n == 0 { return None; }
    var full := new real[n](_ => 0.0);
    var punch := 0;
    if cfg.punctureFirst2z && cfg.zc > 0 {
      punch := 2 * cfg.zc;
      if n <= punch { return None; }
    }
    var nCb := if cfg.nCb == 0 then n - punch else cfg.nCb;
    var buf := new real[nCb](_ => 0.0);
    var k0 := StartOffset(cfg, nCb);
    for i := 0 to |llr|
      invariant forall p | 0 <= p < n :: full[p] == 0.0
      invariant forall b | 0 <= b < nCb :: buf[b] == Collected(cfg, n, llr, i, b)
    {
      buf[(k0 + i) % nCb] := buf[(k0 + i) % nCb] + llr[i];
    }
    CopyOut(cfg, n, llr, buf, full);
    return Some(full[..]);
  }

  method CopyOut(cfg: RateMatchConfig, n: nat, llr: Soft, buf: array<real>, full: array<real>)
    requires Punctured(cfg) < n == full.Length && buf != full && buf.Length == BufferSize(cfg, n)
    requires forall b | 0 <= b < buf.Length :: buf[b] == Collected(cfg, n, llr, |llr|, b)
    requires forall p | 0 <= p < n :: full[p] == 0.0
    modifies full
    ensures forall p | 0 <= p < n :: full[p] == Recovered(cfg, n, llr, p)
  {
    hide Collected;
    var punch := Punctured(cfg);
    var size := n - punch;
    for i := 0 to buf.Length
      invariant forall p | 0 <= p < n ::
        full[p] == if p < punch || p - punch >= i then 0.0
          else Collected(cfg, n, llr, |llr|, LastCopy(p - punch, size, i))
    {
      ghost var was := full[..];
      full[punch + i % size] := buf[i];
      LastCopyUnique(i, size, i + 1);
      forall q | 0 <= q < size && q < i && q != i % size
        ensures LastCopy(q, size, i) == LastCopy(q, size, i + 1)
      {
        var b := LastCopy(q, size, i + 1);
        assert b != i;
        LastCopyUnique(b, size, i);
      }
      if i < size { ModUnique(i, size, 0, i); }
    }
  }
}
