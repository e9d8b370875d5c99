/**
  The carry pass shared by both conversions of fd_base58_tmpl.h.

  Both directions first build an "overcomplete" big-endian number whose
  entries may exceed the radix, then walk it from the least significant
  entry to the second one, leaving each entry's remainder in place and
  adding its quotient to the entry before it.  The encoder does this in
  radix 58^5 (dividing by R1), the decoder in radix 2^32 (`>> 32` and
  `& 0xFFFFFFFF`, which are the quotient and remainder by 2^32 on the
  unsigned 64-bit entries).
*/
module Limbs {
  import opened Radix
  import opened Tables

  /**
    A 64-bit entry divided by a radix above 2^28 has a quotient below 2^36
    and a remainder below both the radix and the entry.
  */
  lemma QuotientBound(x: nat, r: nat)
    requires x < TWO64 && r > 0x1000_0000
    ensures x / r < 0x10_0000_0000
    ensures x % r < r && x % r <= x
  {
    DivModBasic(x, r);
    MulMono(0x10_0000_0000, x / r, r);
    MulMono(1, x / r, r);
  }

  /**
    One carry step at position i: a[i] keeps its remainder modulo r and its
    quotient is added to a[i - 1].  The value of a in radix r is unchanged.
  */
  method CarryAt(a: array<uint64>, r: nat, i: nat)
    requires 0 < i < a.Length && r > 0x1000_0000
    requires a[i - 1] <= SAFE_LIMIT
    modifies a
    ensures a[i - 1] == old(a[i - 1]) + old(a[i]) / r && a[i] == old(a[i]) % r
    ensures forall k | 0 <= k < a.Length && k != i - 1 && k != i :: a[k] == old(a[k])
    ensures Val(a[..], r) == Val(old(a[..]), r)
  {
    ghost var s: seq<nat> := a[..];
    var prev, cur := a[i - 1], a[i];
    QuotientBound(cur, r);
    var q, m := cur / r, cur % r;
    a[i - 1] := prev + q;
    a[i] := m;
    assert a[..] == s[i - 1 := s[i - 1] + q][i := m];
    CarryStep(s, r, i);
  }

  /**
    Normalizes a to radix r in place without changing its value: afterwards
    every entry but the first is below r.  Every entry starts at most
    SAFE_LIMIT = 2^64 - 2^36 and a quotient is below 2^36, so no addition
    leaves 64 bits.  Together the two value facts fix the new contents:
    a[1..] are the low digits of the value and a[0] is the rest.
  */
  method Carry(a: array<uint64>, r: nat)
    requires a.Length > 0 && r > 0x1000_0000
    requires forall k | 0 <= k < a.Length :: a[k] <= SAFE_LIMIT
    modifies a
    ensures Val(a[..], r) == Val(old(a[..]), r)
    ensures forall k | 1 <= k < a.Length :: a[k] < r
  {
    var i := a.Length - 1;
    while i > 0
      invariant 0 <= i < a.Length
      invariant Val(a[..], r) == Val(old(a[..]), r)
      invariant forall k | 0 <= k < i :: a[k] == old(a[k])
      invariant forall k | i < k < a.Length :: a[k] < r
      decreases i
    {
      CarryAt(a, r, i);
      i := i - 1;
    }
  }
}
