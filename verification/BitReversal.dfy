/** Bit reversal, and the in-place bit-reversal permutation. */
module BitReversal {
  import opened Common
  import opened NatBits

  // ---------------------------------------------------------------- bit reversal

  /** The m low bits of i in reverse order. */
  function Rev(m: nat, i: nat): (r: nat)
    requires i < Pow2(m)
    ensures r < Pow2(m)
  {
    if m == 0 then 0 else (if i % 2 == 1 then Pow2(m - 1) else 0) + Rev(m - 1, i / 2)
  }

  /** Bit reversal seen from the top bit. */
  lemma {:induction false} RevTop(m: nat, i: nat, top: bool)
    requires i < Pow2(m)
    ensures i + (if top then Pow2(m) else 0) < Pow2(m + 1)
    ensures Rev(m + 1, i + (if top then Pow2(m) else 0)) == 2 * Rev(m, i) + (if top then 1 else 0)
  {
    var h := if top then Pow2(m) else 0;
    if m > 0 {
      var h' := if top then Pow2(m - 1) else 0;
      RevTop(m - 1, i / 2, top);
      assert h == 2 * h';
      assert (i + h) / 2 == i / 2 + h' && (i + h) % 2 == i % 2;
    } else {
      assert Rev(1, h) == (if h % 2 == 1 then 1 else 0) + Rev(0, 0);
    }
  }

  lemma RevUnfold(m: nat, i: nat)
    requires 0 < m && i < Pow2(m)
    ensures i / 2 < Pow2(m - 1)
    ensures Rev(m, i) == Rev(m - 1, i / 2) + (if i % 2 == 1 then Pow2(m - 1) else 0)
  {
  }

  /** Reversing twice changes nothing. */
  lemma {:induction false} RevInvolution(m: nat, i: nat)
    requires i < Pow2(m)
    ensures Rev(m, Rev(m, i)) == i
  {
    if m > 0 {
      hide Rev, Pow2;
      RevUnfold(m, i);
      var r := Rev(m - 1, i / 2);
      RevTop(m - 1, r, i % 2 == 1);
      RevInvolution(m - 1, i / 2);
    }
  }

  /** Adding one to a bit-reversed counter: clear set bits from the top, then set the first clear one. */
  function Carry(m: nat, j: nat): nat
    requires j < Pow2(m)
  {
    if m == 0 then 0
    else if j >= Pow2(m - 1) then Carry(m - 1, j - Pow2(m - 1))
    else j + Pow2(m - 1)
  }

  lemma {:induction false} CarryCounts(m: nat, i: nat)
    requires i + 1 < Pow2(m)
    ensures Carry(m, Rev(m, i)) == Rev(m, i + 1)
  {
    var h := Pow2(m - 1);
    if i % 2 == 0 {
      assert (i + 1) / 2 == i / 2 && (i + 1) % 2 == 1;
    } else {
      assert (i + 1) / 2 == i / 2 + 1 && (i + 1) % 2 == 0;
      CarryCounts(m - 1, i / 2);
    }
  }

  lemma TopBit(j: nat, bit: nat)
    requires bit > 0 && j < 2 * bit
    ensures j / bit % 2 == 1 <==> j >= bit
  {
    if j >= bit { ModUnique(j, bit, 1, j - bit); } else { ModUnique(j, bit, 0, j); }
  }

  /** The inner loop of the permutation: one reversed carry. */
  method ReversedIncrement(n: nat, ghost m: nat, j0: nat) returns (j: nat)
    requires n == Pow2(m) && j0 < n && m > 0 && j0 != n - 1
    ensures j == Carry(m, j0)
  {
    hide Pow2;
    j := j0;
    var bit := n / 2;
    Pow2Half(m);
    TopBit(j, bit);
    ghost var k: int := m - 1;
    while j / bit % 2 == 1
      invariant 0 <= k < m && bit == Pow2(k) && j < 2 * bit
      invariant Pow2(k + 1) == 2 * bit && Carry(m, j0) == Carry(k + 1, j) && j != 2 * bit - 1
      invariant j / bit % 2 == 1 <==> j >= bit
      decreases k
    {
      j := j - bit;
      Pow2Half(k);
      bit := bit / 2;
      k := k - 1;
      TopBit(j, bit);
    }
    j := j + bit;
  }

  /** Position p belongs to a pair whose smaller member is below i. */
  predicate Swapped(m: nat, i: nat, p: nat)
    requires p < Pow2(m)
  {
    p < i || Rev(m, p) < i
  }

  /** Advancing i past its own pair changes the status of at most i and its mirror image, which
      become swapped unless they already were. */
  lemma NewlySwapped(m: nat, i: nat)
    requires i < Pow2(m)
    ensures Rev(m, Rev(m, i)) == i
    ensures forall p | 0 <= p < Pow2(m) ::
      Swapped(m, i + 1, p) <==> Swapped(m, i, p) || p == i || p == Rev(m, i)
    ensures Rev(m, i) < i ==> Swapped(m, i, i) && Swapped(m, i, Rev(m, i))
    ensures Rev(m, i) >= i ==> !Swapped(m, i, i) && !Swapped(m, i, Rev(m, i))
  {
    hide Rev, Pow2;
    RevInvolution(m, i);
    forall p | 0 <= p < Pow2(m) ensures Rev(m, p) == i <==> p == Rev(m, i) { RevInvolution(m, p); }
  }

  /** The pairs whose smaller member is below i have been exchanged, and no others. */
  ghost predicate Exchanged<T>(now: seq<T>, was: seq<T>, m: nat, i: nat) {
    && |now| == |was| == Pow2(m)
    && forall p | 0 <= p < |now| :: now[p] == if Swapped(m, i, p) then was[Rev(m, p)] else was[p]
  }

  lemma ExchangeStep<T>(now: seq<T>, was: seq<T>, m: nat, i: nat)
    requires Exchanged(now, was, m, i) && i < |now|
    ensures var j := Rev(m, i);
      j < |now| && Exchanged(if i < j then now[i := now[j]][j := now[i]] else now, was, m, i + 1)
  {
    NewlySwapped(m, i);
    hide Rev, Pow2, Swapped;
  }

  lemma NothingExchanged<T>(a: seq<T>, m: nat)
    requires |a| == Pow2(m)
    ensures Exchanged(a, a, m, 1)
  {
    hide Rev, Pow2;
    RevZero(m);
    forall p | 0 <= p < |a| ensures Swapped(m, 1, p) ==> Rev(m, p) == p { RevInvolution(m, p); }
  }

  lemma AllExchanged<T>(now: seq<T>, was: seq<T>, m: nat)
    requires Exchanged(now, was, m, |now|)
    ensures |now| == |was| == Pow2(m) && forall p | 0 <= p < |now| :: now[p] == was[Rev(m, p)]
  {
    hide Rev, Pow2;
  }

  /** Swapping each pair once, when its smaller member comes by, performs exactly the bit-reversal
      permutation. */
  method BitReversePermute<T>(a: array<T>, ghost m: nat)
    requires a.Length == Pow2(m)
    modifies a
    ensures forall p | 0 <= p < a.Length :: a[p] == old(a[Rev(m, p)])
  {
    hide Rev, Pow2, Carry, Exchanged, Swapped;
    ghost var was := a[..];
    var n := a.Length;
    var i, j := 1, 0;
    RevZero(m);
    NothingExchanged(was, m);
    while i < n
      invariant 1 <= i <= n && j == Rev(m, i - 1) && j < n
      invariant Exchanged(a[..], was, m, i)
    {
      ghost var now := a[..];
      RevNotLast(m, i - 1);
      j := ReversedIncrement(n, m, j);
      CarryCounts(m, i - 1);
      ExchangeStep(now, was, m, i);
      if i < j { a[i], a[j] := a[j], a[i]; }
      assert a[..] == if i < j then now[i := now[j]][j := now[i]] else now;
      i := i + 1;
    }
    AllExchanged(a[..], was, m);
  }

  lemma {:induction false} RevZero(m: nat)
    ensures 0 < Pow2(m) && Rev(m, 0) == 0
  {
    if m > 0 { RevZero(m - 1); }
  }

  lemma {:induction false} RevLast(m: nat)
    ensures Rev(m, Pow2(m) - 1) == Pow2(m) - 1
  {
    if m > 0 {
      RevLast(m - 1);
      assert (Pow2(m) - 1) / 2 == Pow2(m - 1) - 1;
    }
  }

  /** Only the all-ones counter reverses to all ones, so the reversed carry never runs off the end. */
  lemma RevNotLast(m: nat, i: nat)
    requires i + 1 < Pow2(m)
    ensures m > 0 && Rev(m, i) != Pow2(m) - 1
  {
    hide Rev;
    RevLast(m);
    RevInvolution(m, i);
  }
}
