/**
  fd_base58_encode_32 and fd_base58_encode_64: the conversion of N bytes to
  their Base58 text, stage by stage over the same fixed-size buffers as the
  C template.

    bytes --(big-endian 32-bit limbs)--> binary             base 2^32
          --(table rows, 64-bit sums)--> intermediate       base 58^5, overcomplete
          --(carry pass)--------------> intermediate        base 58^5, normalized
          --(five digits per entry)---> raw                 base 58
          --(skip zeros, spell)-------> out                 '1' per zero byte, then digits

  Every stage keeps the big-endian value X of the input bytes, and each
  64-bit addition is shown to stay below 2^64.  Encode is proved to write
  Encoding(bytes) followed by a nul, and nothing else.
*/
module Encoder {
  import opened Radix
  import opened Tables
  import opened Base58
  import opened Limbs

  /** The number of zero entries at the start of s (both leading-zero counts of the encoder). */
  method CountLeadingZeros(s: seq<int>) returns (n: nat)
    ensures n == LeadingZeros(s)
  {
    n := 0;
    while n < |s| && s[n] == 0
      invariant n <= |s|
      invariant forall i | 0 <= i < n :: s[i] == 0
    {
      n := n + 1;
    }
    LeadingZerosUnique(s, n);
  }

  /** Four bytes read big-endian, the value of a byte-swapped 32-bit load. */
  lemma BigEndianWord(s: seq<nat>)
    requires |s| == 4
    ensures Val(s, 256) == s[0] * 0x100_0000 + s[1] * 0x1_0000 + s[2] * 0x100 + s[3]
  {
    assert s[..1][..0] == [];
    ValSnoc(s, 256, 1);
    ValSnoc(s, 256, 2);
    ValSnoc(s, 256, 3);
    assert s[..4] == s;
  }

  /**
    Splits the bytes into big-endian 32-bit limbs (memcpy followed by a byte
    swap on a little-endian machine): limb i is bytes 4i..4i+3 read
    big-endian, and the limbs read in base 2^32 are worth the bytes.
  */
  method ToLimbs(bytes: seq<uint8>, binary: array<uint32>)
    requires |bytes| == 4 * binary.Length
    modifies binary
    ensures forall i | 0 <= i < binary.Length :: binary[i] == Val(bytes[4 * i .. 4 * i + 4], 256)
    ensures Val(binary[..], TWO32) == BytesValue(bytes)
  {
    for i := 0 to binary.Length
      invariant forall p | 0 <= p < i :: binary[p] == Val(bytes[4 * p .. 4 * p + 4], 256)
    {
      BigEndianWord(bytes[4 * i .. 4 * i + 4]);
      binary[i] := bytes[4 * i] as int * 0x100_0000 + bytes[4 * i + 1] as int * 0x1_0000
                 + bytes[4 * i + 2] as int * 0x100 + bytes[4 * i + 3] as int;
    }
    SmallPowers();
    ValGroups(bytes, 256, 4, binary[..]);
  }

  /**
    Adds rows lo..hi-1 of an encoding table, scaled by their limbs, into
    the accumulators intermediate[1..] (the inner loops of the template):
    accumulator k gains the combination of column k - 1.  Every sum is at
    most its starting value plus LIMB_MAX times the column sum, which the
    caller shows to be below 2^64.  When row i of the table is worth
    2^(32*(|v|-1-i)) in base 58^5, the accumulators gain exactly the value
    of limbs lo..hi-1.
  */
  method AddRows(inter: array<uint64>, v: seq<uint32>, t: seq<seq<nat>>, lo: nat, hi: nat)
    requires inter.Length >= 1 && IsTable(t, inter.Length - 1)
    requires lo <= hi <= |v| == |t|
    requires forall k | 0 <= k < inter.Length - 1 ::
      inter[k + 1] + LIMB_MAX * ColSum(t, lo, hi, k) < TWO64
    modifies inter
    ensures inter[0] == old(inter[0])
    ensures forall k | 0 <= k < inter.Length - 1 ::
      inter[k + 1] == old(inter[k + 1]) + Combo(v, t, lo, hi, k)
    ensures forall k | 0 <= k < inter.Length - 1 ::
      inter[k + 1] <= old(inter[k + 1]) + LIMB_MAX * ColSum(t, lo, hi, k)
    ensures EncRows(t) ==>
      Val(inter[..], R1) + Val(v[..lo], TWO32) * Pow(TWO32, |v| - lo)
      == Val(old(inter[..]), R1) + Val(v[..hi], TWO32) * Pow(TWO32, |v| - hi)
  {
    var cols := inter.Length - 1;
    for i := lo to hi
      invariant inter[0] == old(inter[0])
      invariant forall k | 0 <= k < cols :: inter[k + 1] == old(inter[k + 1]) + Combo(v, t, lo, i, k)
    {
      for j := 0 to cols
        invariant inter[0] == old(inter[0])
        invariant forall k | 0 <= k < j :: inter[k + 1] == old(inter[k + 1]) + Combo(v, t, lo, i, k) + v[i] * t[i][k]
        invariant forall k | j <= k < cols :: inter[k + 1] == old(inter[k + 1]) + Combo(v, t, lo, i, k)
      {
        ComboBound(v, t, lo, i + 1, j, LIMB_MAX);
        ColSumMono(t, lo, i + 1, hi, j);
        inter[j + 1] := inter[j + 1] + v[i] * t[i][j];
      }
    }
    forall k | 0 <= k < cols
      ensures inter[k + 1] <= old(inter[k + 1]) + LIMB_MAX * ColSum(t, lo, hi, k)
    {
      ComboBound(v, t, lo, hi, k, LIMB_MAX);
    }
    if EncRows(t) {
      AddedValue(old(inter[..]), inter[..], v, t, lo, hi);
    }
  }

  /** The value bookkeeping of AddRows, on the buffer contents before and after. */
  lemma AddedValue(before: seq<nat>, after: seq<nat>, v: seq<nat>, t: seq<seq<nat>>, lo: nat, hi: nat)
    requires |before| == |after| >= 1 && IsTable(t, |after| - 1)
    requires lo <= hi <= |v| == |t|
    requires after[0] == before[0]
    requires forall k | 0 <= k < |after| - 1 :: after[k + 1] == before[k + 1] + Combo(v, t, lo, hi, k)
    requires EncRows(t)
    ensures Val(after, R1) + Val(v[..lo], TWO32) * Pow(TWO32, |v| - lo)
         == Val(before, R1) + Val(v[..hi], TWO32) * Pow(TWO32, |v| - hi)
  {
    var cols := |after| - 1;
    var range := ComboRange(v, t, lo, hi, cols);
    RangeAdded(before, after, v, t, lo, hi);
    ComboRangeVal(v, t, lo, hi, cols, R1, TWO32);
    var l: int := Val(v[..lo], TWO32) * Pow(TWO32, |v| - lo);
    var h: int := Val(v[..hi], TWO32) * Pow(TWO32, |v| - hi);
    SumAlgebra(Val(after, R1), Val(before, R1), Val(range, R1), l, h);
  }

  /** The accumulators gain the value of the columns' combinations. */
  lemma RangeAdded(before: seq<nat>, after: seq<nat>, v: seq<nat>, t: seq<seq<nat>>, lo: nat, hi: nat)
    requires |before| == |after| >= 1 && IsTable(t, |after| - 1)
    requires lo <= hi <= |v| == |t|
    requires after[0] == before[0]
    requires forall k | 0 <= k < |after| - 1 :: after[k + 1] == before[k + 1] + Combo(v, t, lo, hi, k)
    ensures Val(after, R1) == Val(before, R1) + Val(ComboRange(v, t, lo, hi, |after| - 1), R1)
  {
    var range := ComboRange(v, t, lo, hi, |after| - 1);
    forall k | 0 <= k < |range|
      ensures after[k + 1] == before[k + 1] + range[k]
    {
    }
    ColumnsAdded(before, after, range, R1);
  }

  /** Adding the two value equations of AddedValue. */
  lemma SumAlgebra(a: int, b: int, c: int, l: int, h: int)
    requires a == b + c && l + c == h
    ensures a + l == b + h
  {
  }

  /** Adding c to the entries after the first adds the value of c. */
  lemma ColumnsAdded(before: seq<nat>, after: seq<nat>, c: seq<nat>, b: nat)
    requires |before| == |after| == |c| + 1
    requires after[0] == before[0]
    requires forall k | 0 <= k < |c| :: after[k + 1] == before[k + 1] + c[k]
    ensures Val(after, b) == Val(before, b) + Val(c, b)
  {
    var a1, b1 := after[1..], before[1..];
    forall k | 0 <= k < |c|
      ensures a1[k] == b1[k] + 1 * c[k]
    {
      assert a1[k] == after[k + 1] && b1[k] == before[k + 1];
    }
    ValAddScaled(b1, c, 1, a1, b);
    ValCons(after, b);
    ValCons(before, b);
  }

  /**
    The accumulation for N = 32 (lines 69-71): all eight rows of the table
    in one pass.  Afterwards the accumulators hold the limbs' value in base
    58^5, each at most SAFE_LIMIT.
  */
  method Accumulate32(binary: seq<uint32>, t: seq<seq<nat>>, inter: array<uint64>)
    requires |binary| == 8 && inter.Length == 9
    requires EncFits32(t) && EncRows(t)
    requires forall k | 0 <= k < 9 :: inter[k] == 0
    modifies inter
    ensures inter[0] == 0 && forall k | 0 <= k < 8 :: inter[k + 1] == Combo(binary, t, 0, 8, k)
    ensures forall k | 0 <= k < 9 :: inter[k] <= SAFE_LIMIT
    ensures Val(inter[..], R1) == Val(binary, TWO32)
  {
    ghost var before := inter[..];
    ValAllZero(before, R1);
    AddRows(inter, binary, t, 0, 8);
    forall k | 1 <= k < 9
      ensures inter[k] <= SAFE_LIMIT
    {
      assert inter[k] <= LIMB_MAX * ColSum(t, 0, 8, k - 1);
    }
    assert binary[..8] == binary;
  }

  /**
    The accumulation for N = 64 (lines 87-96): rows 0..7, the
    mini-reduction of intermediate[16] into intermediate[15], then rows
    8..15.  Without the mini-reduction intermediate[16] could exceed 64
    bits (Tables.MiniReductionNeeded); with it every accumulator stays at
    most SAFE_LIMIT, and the accumulators hold the limbs' value in base
    58^5.
  */
  method Accumulate64(binary: seq<uint32>, t: seq<seq<nat>>, inter: array<uint64>)
    requires |binary| == 16 && inter.Length == 18
    requires EncFits64(t) && EncRows(t)
    requires forall k | 0 <= k < 18 :: inter[k] == 0
    modifies inter
    ensures forall k | 0 <= k < 18 :: inter[k] <= SAFE_LIMIT
    ensures Val(inter[..], R1) == Val(binary, TWO32)
  {
    FirstRows(inter, binary, t);
    MiniReduce(inter, t);
    LastRows(inter, binary, t);
  }

  /** Rows 0..7 of the 64-byte accumulation (lines 87-89), into zeroed accumulators. */
  method FirstRows(inter: array<uint64>, binary: seq<uint32>, t: seq<seq<nat>>)
    requires |binary| == 16 && inter.Length == 18
    requires EncFits64(t) && EncRows(t)
    requires forall k | 0 <= k < 18 :: inter[k] == 0
    modifies inter
    ensures inter[0] == 0
    ensures forall k | 0 <= k < 17 :: inter[k + 1] <= LIMB_MAX * ColSum(t, 0, 8, k)
    ensures Val(inter[..], R1) == Val(binary[..8], TWO32) * Pow(TWO32, 8)
  {
    ghost var start := inter[..];
    ValAllZero(inter[..], R1);
    assert binary[..0] == [];
    AddRows(inter, binary, t, 0, 8);
    FromZero(start, inter[..], t);
  }

  /** Rows 8..15 of the 64-byte accumulation (lines 94-96), after the mini-reduction. */
  method LastRows(inter: array<uint64>, binary: seq<uint32>, t: seq<seq<nat>>)
    requires |binary| == 16 && inter.Length == 18
    requires EncFits64(t) && EncRows(t)
    requires inter[0] == 0
    requires forall k | 0 <= k < 17 :: inter[k + 1] + LIMB_MAX * ColSum(t, 8, 16, k) <= SAFE_LIMIT
    modifies inter
    ensures forall k | 0 <= k < 18 :: inter[k] <= SAFE_LIMIT
    ensures Val(inter[..], R1) + Val(binary[..8], TWO32) * Pow(TWO32, 8) == Val(old(inter[..]), R1) + Val(binary, TWO32)
  {
    ghost var before := inter[..];
    AddRows(inter, binary, t, 8, 16);
    forall k | 0 <= k < 18
      ensures inter[k] <= SAFE_LIMIT
    {
      if k > 0 {
        assert inter[k] <= before[k] + LIMB_MAX * ColSum(t, 8, 16, k - 1);
      }
    }
    assert binary[..16] == binary;
    MulByOne(Val(binary, TWO32), Pow(TWO32, 0));
  }

  /** The bounds of the first eight rows, added to accumulators that start at zero. */
  lemma FromZero(start: seq<int>, first: seq<int>, t: seq<seq<nat>>)
    requires |start| == |first| == 18 && IsTable(t, 17) && |t| == 16
    requires forall k | 0 <= k < 18 :: start[k] == 0
    requires forall k | 0 <= k < 17 :: first[k + 1] <= start[k + 1] + LIMB_MAX * ColSum(t, 0, 8, k)
    ensures forall k | 0 <= k < 17 :: first[k + 1] <= LIMB_MAX * ColSum(t, 0, 8, k)
  {
  }

  /**
    The mini-reduction of the 64-byte accumulation (lines 91-92): one carry
    step from intermediate[16] into intermediate[15] after the first eight
    rows.  It keeps the value and leaves every accumulator enough room for
    the remaining eight rows.
  */
  method MiniReduce(inter: array<uint64>, t: seq<seq<nat>>)
    requires inter.Length == 18 && EncFits64(t)
    requires forall k | 0 <= k < 17 :: inter[k + 1] <= LIMB_MAX * ColSum(t, 0, 8, k)
    modifies inter
    ensures inter[15] == old(inter[15]) + old(inter[16]) / R1 && inter[16] == old(inter[16]) % R1
    ensures forall k | 0 <= k < 15 :: inter[k] == old(inter[k])
    ensures inter[17] == old(inter[17])
    ensures Val(inter[..], R1) == Val(old(inter[..]), R1)
    ensures forall k | 0 <= k < 17 :: inter[k + 1] + LIMB_MAX * ColSum(t, 8, 16, k) <= SAFE_LIMIT
  {
    ghost var before := inter[..];
    CarryAt(inter, R1, 16);
    ReducedRoom(before, inter[..], t);
  }

  /**
    The room the mini-reduction leaves: after the carry from entry 16 into
    entry 15, adding rows 8..15 keeps every accumulator within SAFE_LIMIT.
  */
  lemma ReducedRoom(before: seq<nat>, after: seq<nat>, t: seq<seq<nat>>)
    requires |before| == |after| == 18 && EncFits64(t)
    requires forall k | 0 <= k < 17 :: before[k + 1] <= LIMB_MAX * ColSum(t, 0, 8, k)
    requires after[15] == before[15] + before[16] / R1 && after[16] == before[16] % R1
    requires forall k | 0 <= k < 18 && k != 15 && k != 16 :: after[k] == before[k]
    ensures forall k | 0 <= k < 17 :: after[k + 1] + LIMB_MAX * ColSum(t, 8, 16, k) <= SAFE_LIMIT
  {
    forall k | 0 <= k < 17
      ensures after[k + 1] + LIMB_MAX * ColSum(t, 8, 16, k) <= SAFE_LIMIT
    {
      if k == 14 {
        RoomAt15(before[15], before[16], after[15], ColSum(t, 0, 8, 14), ColSum(t, 0, 8, 15), ColSum(t, 8, 16, 14));
      } else if k == 15 {
        RoomAt16(before[16], after[16], ColSum(t, 8, 16, 15));
      } else {
        ColSumSplit(t, 0, 8, 16, k);
        RoomElsewhere(before[k + 1], after[k + 1], ColSum(t, 0, 8, k), ColSum(t, 8, 16, k), ColSum(t, 0, 16, k));
      }
    }
  }

  /** Entry 15 gains the quotient, which the table's bound for column 14 allows for. */
  lemma RoomAt15(b15: nat, b16: nat, a15: nat, c14: nat, c15: nat, rest: nat)
    requires b15 <= LIMB_MAX * c14 && b16 <= LIMB_MAX * c15 && a15 == b15 + b16 / R1
    requires LIMB_MAX * c14 + LIMB_MAX * c15 / R1 + LIMB_MAX * rest <= SAFE_LIMIT
    ensures a15 + LIMB_MAX * rest <= SAFE_LIMIT
  {
    DivLe(b16, LIMB_MAX * c15, R1);
  }

  /** Any other entry is unchanged, and the table bounds all sixteen rows of its column. */
  lemma RoomElsewhere(b: nat, a: nat, first: nat, rest: nat, all: nat)
    requires a == b <= LIMB_MAX * first && all == first + rest && LIMB_MAX * all <= SAFE_LIMIT
    ensures a + LIMB_MAX * rest <= SAFE_LIMIT
  {
  }

  /** Entry 16 keeps the remainder, below 58^5. */
  lemma RoomAt16(b16: nat, a16: nat, rest: nat)
    requires a16 == b16 % R1 && R1 - 1 + LIMB_MAX * rest <= SAFE_LIMIT
    ensures a16 + LIMB_MAX * rest <= SAFE_LIMIT
  {
    DivModBasic(b16, R1);
  }

  /** Integer division by a positive number is monotonic. */
  lemma DivLe(x: nat, y: nat, d: nat)
    requires x <= y && d > 0
    ensures x / d <= y / d
  {
    DivModBasic(x, d);
    DivModBasic(y, d);
    MulMono(y / d + 1, x / d, d);
    Distrib1(y / d, d);
  }

  /** Dispatches to the accumulation of the instantiation (the `# if N==32` block). */
  method Accumulate(sz: Size, binary: seq<uint32>, inter: array<uint64>)
    requires |binary| == sz.BinarySz() && inter.Length == sz.IntermediateSz()
    requires forall k | 0 <= k < inter.Length :: inter[k] == 0
    modifies inter
    ensures forall k | 0 <= k < inter.Length :: inter[k] <= SAFE_LIMIT
    ensures Val(inter[..], R1) == Val(binary, TWO32)
  {
    match sz
    case Size32 =>
      EncTableFits32();
      Accumulate32(binary, EncTable(Size32), inter);
    case Size64 =>
      EncTableFits64();
      Accumulate64(binary, EncTable(Size64), inter);
  }

  /**
    The five divisions of the expansion loop (lines 125-138) are the five
    base-58 digits of an entry below 58^5, most significant first; the
    first one needs no `% 58`.
  */
  lemma FiveDigits(v: nat)
    requires v < R1
    ensures DigitsN(v, 58, 5) == [v / 11316496, v / 195112 % 58, v / 3364 % 58, v / 58 % 58, v % 58]
    ensures v / 11316496 < 58
  {
    SmallPowers();
    DivModBasic(v, 11316496);
    MulMono(58, v / 11316496, 11316496);
    DivMod(v / 11316496, 58, 0, v / 11316496);
    DigitsNDiv(v, 58, 5, 0);
    DigitsNDiv(v, 58, 5, 1);
    DigitsNDiv(v, 58, 5, 2);
    DigitsNDiv(v, 58, 5, 3);
    DigitsNDiv(v, 58, 5, 4);
  }

  /**
    Writes the five base-58 digits of one entry to raw[5i..5i+4], most
    significant first (the body of the loop at lines 125-138).
  */
  method ExpandEntry(raw: array<uint8>, i: nat, v: uint64)
    requires 5 * i + 5 <= raw.Length && v < R1
    modifies raw
    ensures raw[5 * i .. 5 * i + 5] == DigitsN(v, 58, 5)
    ensures raw[..5 * i] == old(raw[..5 * i])
  {
    var d0, d1, d2, d3, d4 := EntryDigits(v);
    raw[5 * i + 4] := d4;
    raw[5 * i + 3] := d3;
    raw[5 * i + 2] := d2;
    raw[5 * i + 1] := d1;
    raw[5 * i + 0] := d0;
    assert raw[5 * i .. 5 * i + 5] == [d0, d1, d2, d3, d4];
  }

  /** The five digits of an entry, computed as lines 133-137 do. */
  method EntryDigits(v: uint64) returns (d0: uint8, d1: uint8, d2: uint8, d3: uint8, d4: uint8)
    requires v < R1
    ensures [d0, d1, d2, d3, d4] == DigitsN(v, 58, 5)
  {
    FiveDigits(v);
    d0, d1, d2, d3, d4 := v / 11316496, v / 195112 % 58, v / 3364 % 58, v / 58 % 58, v / 1 % 58;
  }

  /**
    Converts the normalized intermediate entries to base-58 digits, five
    per entry: entry i becomes raw[5i..5i+4], most significant first, so
    the digits are all below 58 and worth the same as the entries.
  */
  method Expand(inter: array<uint64>, raw: array<uint8>)
    requires raw.Length == 5 * inter.Length
    requires inter.Length > 0 && inter[0] < R1
    requires forall k | 1 <= k < inter.Length :: inter[k] < R1
    modifies raw
    ensures raw[..] == Ungroup(inter[..], 58, 5)
    ensures forall q | 0 <= q < raw.Length :: raw[q] < 58
    ensures Val(raw[..], 58) == Val(inter[..], R1)
  {
    ghost var t: seq<nat> := inter[..];
    for i := 0 to inter.Length
      invariant raw[..5 * i] == Ungroup(t[..i], 58, 5)
    {
      ghost var prev := raw[..];
      ExpandEntry(raw, i, inter[i]);
      UngroupSnoc(t, 58, 5, i);
      PrefixStep(raw[..], prev, 5 * i, 5 * i + 5, DigitsN(inter[i], 58, 5));
    }
    assert raw[..] == raw[..5 * inter.Length] && t == t[..inter.Length];
    SmallPowers();
    UngroupVal(t, 58, 5);
  }

  /** A number below b^|s| has its most significant entry below b. */
  lemma TopEntry(s: seq<nat>, b: nat)
    requires |s| > 0 && b > 0 && Val(s, b) < Pow(b, |s|)
    ensures s[0] < b
  {
    ValCons(s, b);
    MulMono(b, s[0], Pow(b, |s| - 1));
  }

  /** The input's value fits in INTERMEDIATE_SZ base-58^5 entries. */
  lemma ValueFits(sz: Size, bytes: seq<uint8>)
    requires |bytes| == sz.N()
    ensures BytesValue(bytes) < Pow(R1, sz.IntermediateSz())
  {
    ValBound(bytes, 256);
    Raw58SzHolds(sz);
    SmallPowers();
    PowMul(58, 5, sz.IntermediateSz());
    assert sz.Raw58Sz() == 5 * sz.IntermediateSz();
  }

  /**
    Skipping the raw digits' leading zeros but keeping one per leading zero
    byte spells the encoding (lines 146-168): when the encoding is no longer
    than the raw digits, there are at least as many leading zero digits as
    leading zero bytes, so skip does not underflow, and the kept digits,
    mapped to characters, are exactly Encoding(b).
  */
  lemma SkipSpellsEncoding(b: seq<uint8>, raw: seq<nat>, rz: nat)
    requires forall q | 0 <= q < |raw| :: raw[q] < 58
    requires Val(raw, 58) == BytesValue(b) && |Encoding(b)| <= |raw|
    requires rz == LeadingZeros(raw)
    ensures LeadingZeros(b) <= rz
    ensures Spell(raw[rz - LeadingZeros(b)..]) == Encoding(b)
  {
    var z, d := LeadingZeros(b), Digits(BytesValue(b), 58);
    assert |Encoding(b)| == z + |d|;
    RawDigits(raw, BytesValue(b));
    KeptDigits(raw, rz, z, d);
    EncodingSpelled(b);
    var kept := raw[rz - z..];
    assert kept == Zeros(z) + d;
    assert Spell(kept) == Spell(Zeros(z) + d);
  }

  /**
    Digits that are zeros followed by d, with room for z more digits before
    d: the last z + |d| of them are z zeros and then d.
  */
  lemma KeptDigits(raw: seq<nat>, rz: nat, z: nat, d: seq<nat>)
    requires rz <= |raw| && forall i | 0 <= i < rz :: raw[i] == 0
    requires raw[rz..] == d && z + |d| <= |raw|
    ensures z <= rz && raw[rz - z..] == Zeros(z) + d
  {
    assert |d| == |raw| - rz;
    var lo := rz - z;
    assert raw[lo..] == raw[lo..rz] + raw[rz..];
    assert raw[lo..rz] == Zeros(z);
  }

  /** Base-58 digits worth x are zeros followed by the digits of x. */
  lemma RawDigits(raw: seq<nat>, x: nat)
    requires forall q | 0 <= q < |raw| :: raw[q] < 58
    requires Val(raw, 58) == x
    ensures raw[LeadingZeros(raw)..] == Digits(x, 58)
  {
    var rz := LeadingZeros(raw);
    ValZeroPrefix(raw, 58, rz);
    DigitsUnique(raw[rz..], 58);
  }

  /**
    fd_base58_encode_N: writes the Base58 encoding of the N input bytes to
    out, followed by a nul, and returns its length (the value stored to
    *opt_len).  The length is between N and FD_BASE58_ENCODED_N_LEN, so
    nothing at or beyond FD_BASE58_ENCODED_N_SZ is written, and every
    intermediate sum fits in 64 bits.
  */
  method Encode(sz: Size, bytes: seq<uint8>, out: array<uint8>) returns (len: nat)
    requires |bytes| == sz.N() && out.Length >= sz.EncodedSz()
    modifies out
    ensures len == |Encoding(bytes)| && sz.N() <= len <= sz.EncodedLen()
    ensures out[..len] == Encoding(bytes) && out[len] == 0
    ensures forall i | len < i < out.Length :: out[i] == old(out[i])
  {
    var inLeading := CountLeadingZeros(bytes);
    var raw := RawDigits58(sz, bytes);
    EncodingLength(sz, bytes);
    len := Output(bytes, inLeading, raw, out);
  }

  /**
    The conversion proper (lines 43-138): the raw base-58 digits of the
    input, RAW58_SZ of them, worth the input's big-endian value.
  */
  method RawDigits58(sz: Size, bytes: seq<uint8>) returns (raw: array<uint8>)
    requires |bytes| == sz.N()
    ensures fresh(raw) && raw.Length == sz.Raw58Sz()
    ensures forall q | 0 <= q < raw.Length :: raw[q] < 58
    ensures Val(raw[..], 58) == BytesValue(bytes)
  {
    var inter := Intermediate(sz, bytes);
    raw := new uint8[sz.Raw58Sz()];
    Expand(inter, raw);
  }

  /**
    Lines 43-118: the input's value as INTERMEDIATE_SZ base-58^5 digits.
    The value fits, so after the carry even the first entry is below 58^5.
  */
  method Intermediate(sz: Size, bytes: seq<uint8>) returns (inter: array<uint64>)
    requires |bytes| == sz.N()
    ensures fresh(inter) && inter.Length == sz.IntermediateSz()
    ensures inter[0] < R1 && forall k | 1 <= k < inter.Length :: inter[k] < R1
    ensures Val(inter[..], R1) == BytesValue(bytes)
  {
    var binary := new uint32[sz.BinarySz()];
    ToLimbs(bytes, binary);
    inter := new uint64[sz.IntermediateSz()](_ => 0);
    Accumulate(sz, binary[..], inter);
    Carry(inter, R1);
    ValueFits(sz, bytes);
    TopEntry(inter[..], R1);
  }

  /**
    The output stage (lines 146-171): skips all but LeadingZeros(bytes) of
    the raw digits' leading zeros, spells the rest and appends a nul.
  */
  method Output(bytes: seq<uint8>, inLeading: nat, raw: array<uint8>, out: array<uint8>) returns (len: nat)
    requires raw != out && inLeading == LeadingZeros(bytes)
    requires forall q | 0 <= q < raw.Length :: raw[q] < 58
    requires Val(raw[..], 58) == BytesValue(bytes)
    requires |Encoding(bytes)| <= raw.Length && |Encoding(bytes)| < out.Length
    modifies out
    ensures len == |Encoding(bytes)|
    ensures out[..len] == Encoding(bytes) && out[len] == 0
    ensures forall i | len < i < out.Length :: out[i] == old(out[i])
  {
    var skip := Skip(bytes, inLeading, raw);
    WriteChars(raw, skip, out);
    len := raw.Length - skip;
  }

  /**
    Lines 146-147 and 168: the raw digits' leading zeros minus the input's
    leading zero bytes, which leaves exactly the digits that spell the
    encoding.
  */
  method Skip(bytes: seq<uint8>, inLeading: nat, raw: array<uint8>) returns (skip: nat)
    requires inLeading == LeadingZeros(bytes)
    requires forall q | 0 <= q < raw.Length :: raw[q] < 58
    requires Val(raw[..], 58) == BytesValue(bytes) && |Encoding(bytes)| <= raw.Length
    ensures skip <= raw.Length && Spell(raw[skip..]) == Encoding(bytes)
  {
    var rawLeading := CountLeadingZeros(raw[..]);
    SkipSpellsEncoding(bytes, raw[..], rawLeading);
    skip := rawLeading - inLeading;
  }

  /**
    The output loop and the terminator (lines 168-170): the characters of
    the digits raw[skip..], then a nul.
  */
  method WriteChars(raw: array<uint8>, skip: nat, out: array<uint8>)
    requires raw != out && skip <= raw.Length && raw.Length - skip < out.Length
    requires forall q | 0 <= q < raw.Length :: raw[q] < 58
    modifies out
    ensures out[..raw.Length - skip] == Spell(raw[skip..]) && out[raw.Length - skip] == 0
    ensures forall k | raw.Length - skip < k < out.Length :: out[k] == old(out[k])
  {
    ghost var kept: seq<nat> := raw[skip..];
    for i := 0 to raw.Length - skip
      invariant forall k | 0 <= k < i :: out[k] == Char(kept[k])
      invariant forall k | i <= k < out.Length :: out[k] == old(out[k])
    {
      out[i] := BASE58_CHARS[raw[skip + i]];
    }
    out[raw.Length - skip] := 0;
  }
}
