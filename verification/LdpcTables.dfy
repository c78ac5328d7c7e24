/** Base-graph and lifting-size selection, and the construction of a graph from its parameters. */
module LdpcTables {
  import opened Common
  import opened NatBits

  // ---------------------------------------------------------------- the lifting table

  /** Table 5.3.2-1 of 3GPP TS 38.212, one row per lifting-set index, padded with -1. */
  const LIFTING_SETS: seq<seq<int>> := [
    [2, 4, 8, 16, 32, 64, 128, 256],
    [3, 6, 12, 24, 48, 96, 192, 384],
    [5, 10, 20, 40, 80, 160, 320, -1],
    [7, 14, 28, 56, 112, 224, -1, -1],
    [9, 18, 36, 72, 144, 288, -1, -1],
    [11, 22, 44, 88, 176, 352, -1, -1],
    [13, 26, 52, 104, 208, -1, -1, -1],
    [15, 30, 60, 120, 240, -1, -1, -1]]

  function Entry(i: nat, j: nat): int
    requires i < 8 && j < 8
  {
    LIFTING_SETS[i][j]
  }

  predicate RowHas(i: nat, z: int)
    requires i < 8
  {
    exists j :: 0 <= j < 8 && Entry(i, j) == z
  }

  /** z is a lifting size: a positive entry of the table. */
  predicate LiftingSize(z: int) {
    z > 0 && exists i :: 0 <= i < 8 && RowHas(i, z)
  }

  /** The first row that contains zc. */
  ghost predicate IsRowOf(zc: int, i: nat) {
    i < 8 && RowHas(i, zc) && forall k | 0 <= k < i :: !RowHas(k, zc)
  }

  method ILsForZc(zc: int) returns (r: Option<nat>)
    ensures r.Some? <==> exists i :: 0 <= i < 8 && RowHas(i, zc)
    ensures r.Some? ==> IsRowOf(zc, r.value)
  {
    for i := 0 to 8
      invariant forall k | 0 <= k < i :: !RowHas(k, zc)
    {
      for j := 0 to 8
        invariant forall l | 0 <= l < j :: Entry(i, l) != zc
      {
        if Entry(i, j) == zc {
          assert RowHas(i, zc);
          return Some(i);
        }
      }
    }
    return None;
  }

  /** The membership test accepts every lifting size, and also the padding value -1. */
  method IsValidLiftingSize(zc: int) returns (b: bool)
    ensures b <==> LiftingSize(zc) || zc == -1
  {
    var r := ILsForZc(zc);
    TableValues();
    assert Entry(2, 7) == -1 && RowHas(2, -1);
    return r.Some?;
  }

  lemma TableValues()
    ensures forall i, j | 0 <= i < 8 && 0 <= j < 8 :: Entry(i, j) == -1 || 2 <= Entry(i, j) <= 384
    ensures Entry(1, 7) == 384
  {
    forall i, j | 0 <= i < 8 && 0 <= j < 8 ensures Entry(i, j) == -1 || 2 <= Entry(i, j) <= 384 {
      assert i == 0 || i == 1 || i == 2 || i == 3 || i == 4 || i == 5 || i == 6 || i == 7;
      assert j == 0 || j == 1 || j == 2 || j == 3 || j == 4 || j == 5 || j == 6 || j == 7;
    }
  }

  /** Row i of the table holds a * 2^j up to 384, for its own odd or prime factor a. */
  function Factor(i: nat): nat
    requires i < 8
  {
    if i == 0 then 2 else 2 * i + 1
  }

  lemma EntryValue(i: nat, j: nat)
    requires i < 8 && j < 8
    ensures var z := Factor(i) * Pow2(j); Entry(i, j) == if z <= 384 then z else -1
  {
    assert Pow2(0) == 1 && Pow2(1) == 2 && Pow2(2) == 4 && Pow2(3) == 8;
    assert Pow2(4) == 16 && Pow2(5) == 32 && Pow2(6) == 64 && Pow2(7) == 128;
    assert i == 0 || i == 1 || i == 2 || i == 3 || i == 4 || i == 5 || i == 6 || i == 7;
    assert j == 0 || j == 1 || j == 2 || j == 3 || j == 4 || j == 5 || j == 6 || j == 7;
  }

  /** The lifting sizes of set i are exactly the multiples by powers of two of 2, 3, 5, 7, 9, 11, 13 and
      15, up to 384. */
  lemma LiftingSizesAre(i: nat, z: int)
    requires i < 8 && z > 0
    ensures RowHas(i, z) <==> z <= 384 && exists j: nat :: z == [2, 3, 5, 7, 9, 11, 13, 15][i] * Pow2(j)
  {
    hide Entry, Pow2;
    forall j: nat ensures Factor(i) * Pow2(j) <= 384 ==> j < 8 && Entry(i, j) == Factor(i) * Pow2(j) {
      if j < 8 { EntryValue(i, j); } else { LargePower(Factor(i), j); }
    }
    assert Factor(i) == [2, 3, 5, 7, 9, 11, 13, 15][i];
    if RowHas(i, z) {
      var j :| 0 <= j < 8 && Entry(i, j) == z;
      EntryValue(i, j);
    }
    if j: nat :| z == Factor(i) * Pow2(j) && z <= 384 {
      assert Entry(i, j) == z;
    }
  }

  lemma LargePower(a: nat, j: nat)
    requires a >= 2 && j >= 8
    ensures a * Pow2(j) >= 512
  {
    Pow2Grows(8, j);
    assert Pow2(8) == 256;
    assert (a - 2) * Pow2(j) >= 0;
  }

  // ---------------------------------------------------------------- selection

  method SelectBasegraph(kBits: int, rate: real) returns (r: Option<BaseGraph>)
    ensures r == BasegraphFor(kBits, rate)
  {
    if kBits < 12 { return None; }
    if kBits <= 292 { return Some(BG2); }
    if kBits <= 3824 && rate <= 0.67 { return Some(BG2); }
    if rate <= 0.25 { return Some(BG2); }
    return Some(BG1);
  }

  /** Small blocks and low rates use the second base graph. */
  function BasegraphFor(kBits: int, rate: real): Option<BaseGraph> {
    if kBits < 12 then None
    else if kBits <= 292 || (kBits <= 3824 && rate <= 0.67) || rate <= 0.25 then Some(BG2)
    else Some(BG1)
  }

  /** The first base graph is chosen for large blocks at high rates: more bits or a higher rate never
      lead from the first base graph back to the second. */
  lemma BasegraphMonotone(kBits: int, rate: real, kBits': int, rate': real)
    requires 12 <= kBits <= kBits' && rate <= rate'
    ensures BasegraphFor(kBits, rate) == Some(BG1) ==> BasegraphFor(kBits', rate') == Some(BG1)
    ensures BasegraphFor(kBits', rate') == Some(BG2) ==> BasegraphFor(kBits, rate) == Some(BG2)
  {
  }

  /** The four thresholds: the first base graph is for more than 292 bits above rate 0.67, and for more
      than 3824 bits above rate 0.25. */
  lemma BasegraphBoundaries(kBits: int, rate: real)
    ensures BasegraphFor(kBits, rate).None? <==> kBits < 12
    ensures BasegraphFor(kBits, rate) == Some(BG1)
      <==> (kBits > 292 && 100.0 * rate > 67.0) || (kBits > 3824 && 4.0 * rate > 1.0)
  {
  }

  /** The number of information columns for selection never decreases with the size; on the second base
      graph it is 6, and steps to 8, 9 and 10 after 192, 560 and 640 bits. */
  lemma SelectionColumns(kBits: int, kBits': int, bg: BaseGraph)
    ensures kBits <= kBits' ==> KbSel(kBits, bg) <= KbSel(kBits', bg)
    ensures KbSel(kBits, BG1) == 22
    ensures KbSel(192, BG2) == 6 && KbSel(193, BG2) == KbSel(560, BG2) == 8
    ensures KbSel(561, BG2) == KbSel(640, BG2) == 9 && KbSel(641, BG2) == 10
  {
  }

  /** The choice never costs capacity above rate 1/4: lifting then fails only beyond the 22 * 384 bits
      of the first base graph. At lower rates it fails beyond the 10 * 384 bits of the second. */
  lemma SelectionLiftable(kBits: int, rate: real)
    requires kBits >= 12
    ensures var bg := BasegraphFor(kBits, rate);
      bg.Some? && (kBits <= KbSel(kBits, bg.value) * 384 <==> kBits <= (if rate <= 0.25 then 3840 else 8448))
  {
    var bg := BasegraphFor(kBits, rate).value;
    assert bg == BG2 && kBits > 640 ==> KbSel(kBits, bg) == 10;
  }

  /** The number of information columns used to choose the lifting size. */
  function KbSel(kBits: int, bg: BaseGraph): (k: nat)
    ensures 6 <= k <= 22 && (bg == BG2 ==> k <= 10)
  {
    if bg == BG1 then 22
    else if kBits > 640 then 10
    else if kBits > 560 then 9
    else if kBits > 192 then 8
    else 6
  }

  function DefaultKb(bg: BaseGraph): nat { if bg == BG1 then 22 else 10 }

  datatype LiftingChoice = LiftingChoice(zc: nat, iLs: nat, kb: nat)

  /** z is the least lifting size that makes room for kBits bits. */
  ghost predicate LeastFit(z: int, kBits: int, kb: nat) {
    && LiftingSize(z) && kb * z >= kBits
    && forall i, j | 0 <= i < 8 && 0 <= j < 8 && Entry(i, j) > 0 && kb * Entry(i, j) >= kBits :: z <= Entry(i, j)
  }

  /** Position (i, j) comes before position (k, l) in reading order. */
  predicate Before(i: nat, j: nat, k: nat, l: nat) { i < k || (i == k && j < l) }

  /** What the scan knows on reaching position (k, l). */
  ghost predicate Scanned(k: nat, l: nat, kBits: int, kb: nat, bestZ: nat, bestILs: nat, bestVal: int) {
    && (bestZ == 0 ==> bestVal == 1000000)
    && (bestZ > 0 ==> bestVal == kb * bestZ >= kBits && IsRowOf(bestZ, bestILs))
    && forall i, j | 0 <= i < 8 && 0 <= j < 8 && Before(i, j, k, l) && Entry(i, j) > 0 && kb * Entry(i, j) >= kBits ::
      bestZ > 0 && bestZ <= Entry(i, j)
  }

  lemma ScanStep(k: nat, l: nat, kBits: int, kb: nat, bestZ: nat, bestILs: nat, bestVal: int)
    requires k < 8 && l < 8 && 6 <= kb <= 22 && Scanned(k, l, kBits, kb, bestZ, bestILs, bestVal)
    ensures var z := Entry(k, l);
      if z >= 0 && kb * z >= kBits && kb * z < bestVal then Scanned(k, l + 1, kBits, kb, z, k, kb * z)
      else Scanned(k, l + 1, kBits, kb, bestZ, bestILs, bestVal)
  {
    TableValues();
    var z := Entry(k, l);
    if z >= 0 && kb * z >= kBits && kb * z < bestVal {
      forall i, j | 0 <= i < 8 && 0 <= j < 8 && Before(i, j, k, l) ensures Entry(i, j) != z {
        if Entry(i, j) == z { assert bestZ > 0 && bestZ <= z; MulOrder(kb, bestZ, z); }
      }
      assert RowHas(k, z);
      if bestZ > 0 { MulOrder(kb, bestZ, z); }
      assert IsRowOf(z, k);
    } else if z > 0 && kb * z >= kBits {
      ProductSmall(kb, z);
      MulOrder(kb, z, bestZ);
    }
  }

  lemma MulOrder(k: nat, a: int, b: int)
    ensures a <= b ==> k * a <= k * b
    ensures k > 0 && a < b ==> k * a < k * b
  {
    if a <= b { assert k * (b - a) >= 0; }
    if k > 0 && a < b { MulAtLeast(k, b - a); assert k * (b - a) == k * b - k * a; }
  }

  lemma ProductSmall(kb: nat, z: int)
    requires kb <= 22 && 0 < z <= 384
    ensures kb * z < 1000000
  {
    MulOrder(z, kb, 22);
  }

  /** The least lifting size that fits, with its row; fails only when even 384 is too small. */
  method SelectLifting(kBits: int, bg: BaseGraph) returns (r: Option<LiftingChoice>)
    ensures r.Some? <==> kBits <= KbSel(kBits, bg) * 384
    ensures r.Some? ==> LeastFit(r.value.zc, kBits, KbSel(kBits, bg))
    ensures r.Some? ==> IsRowOf(r.value.zc, r.value.iLs) && r.value.kb == DefaultKb(bg)
  {
    hide IsRowOf, RowHas, Entry, Scanned;
    var kb := KbSel(kBits, bg);
    var bestZ: nat, bestILs: nat, bestVal := 0, 0, 1000000;
    ScanStart(kBits, kb);
    for i := 0 to 8
      invariant Scanned(i, 0, kBits, kb, bestZ, bestILs, bestVal)
    {
      for j := 0 to 8
        invariant Scanned(i, j, kBits, kb, bestZ, bestILs, bestVal)
      {
        ScanStep(i, j, kBits, kb, bestZ, bestILs, bestVal);
        var z := Entry(i, j);
        if z < 0 { continue; }
        var x := kb * z;
        if x >= kBits && x < bestVal { bestVal, bestZ, bestILs := x, z, i; }
      }
      NextRow(i, kBits, kb, bestZ, bestILs, bestVal);
    }
    ScanEnd(kBits, kb, bestZ, bestILs, bestVal);
    if bestZ == 0 { return None; }
    return Some(LiftingChoice(bestZ, bestILs, DefaultKb(bg)));
  }

  lemma ScanStart(kBits: int, kb: nat)
    ensures Scanned(0, 0, kBits, kb, 0, 0, 1000000)
  {
  }

  lemma NextRow(k: nat, kBits: int, kb: nat, bestZ: nat, bestILs: nat, bestVal: int)
    requires k < 8 && Scanned(k, 8, kBits, kb, bestZ, bestILs, bestVal)
    ensures Scanned(k + 1, 0, kBits, kb, bestZ, bestILs, bestVal)
  {
  }

  lemma ScanEnd(kBits: int, kb: nat, bestZ: nat, bestILs: nat, bestVal: int)
    requires Scanned(8, 0, kBits, kb, bestZ, bestILs, bestVal) && kb > 0
    ensures bestZ > 0 <==> kBits <= kb * 384
    ensures bestZ > 0 ==> LeastFit(bestZ, kBits, kb) && IsRowOf(bestZ, bestILs)
  {
    TableValues();
    if bestZ > 0 {
      var j :| 0 <= j < 8 && Entry(bestILs, j) == bestZ;
      MulOrder(kb, bestZ, 384);
      assert RowHas(bestILs, bestZ);
    }
    assert kb * Entry(1, 7) >= kBits ==> bestZ > 0;
  }
}
