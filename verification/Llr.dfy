/** Soft-bit helpers. */
module Llr {
  import opened Common

  /** x is 0 or has the sign of bit b: positive for 0, negative for 1. */
  predicate Leans(x: real, b: bool) {
    if b then x <= 0.0 else x >= 0.0
  }

  /** Every LLR is 0 or has the sign of its bit. */
  ghost predicate Consistent(llr: Soft, c: Bits) {
    |llr| == |c| && forall v | 0 <= v < |c| :: Leans(llr[v], c[v])
  }

  function Sum(a: Soft, b: Soft): (c: Soft)
    requires |a| == |b|
    ensures |c| == |a| && forall i | 0 <= i < |a| :: c[i] == a[i] + b[i]
  {
    seq(|a|, i requires 0 <= i < |a| => a[i] + b[i])
  }

  /** Bits as signed magnitudes; raw bytes other than 0 and 1 are rejected. */
  method BitsToLlr(bits: seq<nat>, magnitude: real) returns (r: Option<Soft>)
    ensures r.Some? <==> AreBits(bits)
    ensures r.Some? ==> |r.value| == |bits|
    ensures r.Some? && magnitude > 0.0 ==> Consistent(r.value, ToBits(bits))
    ensures r.Some? ==> forall i | 0 <= i < |bits| :: r.value[i] == if bits[i] == 0 then magnitude else -magnitude
  {
    var out := new real[|bits|](_ => 0.0);
    for i := 0 to |bits|
      invariant forall j | 0 <= j < i ::
        (bits[j] == 0 || bits[j] == 1) && out[j] == if bits[j] == 0 then magnitude else -magnitude
    {
      if bits[i] != 0 && bits[i] != 1 { return None; }
      out[i] := if bits[i] == 0 then magnitude else -magnitude;
    }
    return Some(out[..]);
  }

  /** Hard decisions; 0 decides for bit 0. A consistent vector without erasures gives back its bits. */
  method LlrToBits(llr: Soft) returns (bits: Bits)
    ensures |bits| == |llr| && forall i | 0 <= i < |llr| :: bits[i] <==> llr[i] < 0.0
    ensures forall c: Bits | Consistent(llr, c) && 0.0 !in llr :: bits == c
  {
    var out := new bool[|llr|];
    for i := 0 to |llr|
      invariant forall j | 0 <= j < i :: out[j] <==> llr[j] < 0.0
    {
      out[i] := !(llr[i] >= 0.0);
    }
    bits := out[..];
    forall c: Bits | Consistent(llr, c) && 0.0 !in llr ensures bits == c {
      forall i | 0 <= i < |llr| ensures bits[i] == c[i] { assert llr[i] in llr && Leans(llr[i], c[i]); }
    }
  }

  method LlrCombine(a: Soft, b: Soft) returns (r: Option<Soft>)
    ensures r == if |a| == |b| then Some(Sum(a, b)) else None
  {
    if |a| != |b| { return None; }
    var out := new real[|a|](_ => 0.0);
    for i := 0 to |a|
      invariant forall j | 0 <= j < i :: out[j] == a[j] + b[j]
    {
      out[i] := a[i] + b[i];
    }
    assert out[..] == Sum(a, b);
    return Some(out[..]);
  }

  /** Combining keeps every LLR on the side of its bit. */
  lemma CombineConsistent(a: Soft, b: Soft, c: Bits)
    requires Consistent(a, c) && Consistent(b, c)
    ensures Consistent(Sum(a, b), c)
    ensures forall v | 0 <= v < |c| :: Sum(a, b)[v] == 0.0 <==> a[v] == 0.0 && b[v] == 0.0
  {
    forall v | 0 <= v < |c|
      ensures Leans(Sum(a, b)[v], c[v]) && (Sum(a, b)[v] == 0.0 <==> a[v] == 0.0 && b[v] == 0.0)
    {
      assert Leans(a[v], c[v]) && Leans(b[v], c[v]);
    }
  }
}
