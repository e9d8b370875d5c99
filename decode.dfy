/**
  fd_base58_decode_32 and fd_base58_decode_64: the conversion of a
  nul-terminated Base58 text back to N bytes, stage by stage over the same
  fixed-size buffers as the C template.

    encoded --(scan: alphabet, length)--> text           at most N_LEN characters
            --(zeros, then digits)------> raw            base 58, RAW58_SZ digits
            --(five digits per entry)---> intermediate   base 58^5
            --(table rows, 64-bit sums)-> binary         base 2^32, overcomplete
            --(carry pass)--------------> binary         base 2^32, normalized
            --(overflow check, bytes)---> out            N bytes, big-endian
            --(leading '1's check)------> accepted or rejected

  Decode succeeds exactly when Base58.Decoding accepts the text, and then
  out holds the decoded bytes.  Like the C code, it writes out before the
  last check, so a text that only fails that check still leaves its bytes
  in out.
*/
module Decoder {
  import opened Radix
  import opened Tables
  import opened Base58
  import opened Limbs

  /**
    One character's validation (lines 184-189): the byte minus '1' with
    unsigned wrap-around, clamped to the sentinel, looked up in the inverse
    table.  It accepts exactly the alphabet.
  */
  method ValidChar(c: uint8) returns (ok: bool)
    ensures ok <==> IsBase58Char(c)
  {
    var idx := InverseIndex(c);
    LookupAcceptsAlphabet(c);
    ok := BASE58_INVERSE[idx] != BASE58_INVALID_CHAR;
  }

  /**
    The unclamped lookup of an already validated character (line 202): the
    inverse table maps it back to its digit.
  */
  method DigitOf(c: uint8) returns (d: uint8)
    requires IsBase58Char(c)
    ensures d == Digit(c) && d < 58
  {
    LookupAcceptsAlphabet(c);
    assert InverseIndex(c) == c - BASE58_INVERSE_TABLE_OFFSET;
    d := BASE58_INVERSE[c - BASE58_INVERSE_TABLE_OFFSET];
  }

  /**
    The length of the nul-terminated text in its first `limit` bytes is the
    one the C string model gives: all bytes before it are non-nul, and it
    stops at a nul or at the limit.
  */
  lemma CStringLength(enc: seq<uint8>, limit: nat, cnt: nat)
    requires limit <= |enc| || 0 in enc
    requires cnt <= limit && cnt <= |enc|
    requires forall k | 0 <= k < cnt :: enc[k] != 0
    requires cnt < limit ==> cnt < |enc| && enc[cnt] == 0
    ensures CString(enc, limit) == enc[..cnt]
  {
  }

  /**
    The validation loop (lines 182-190): walks the text up to its nul but
    at most FD_BASE58_ENCODED_N_SZ bytes, failing at the first byte that is
    not a Base58 character.  It succeeds exactly when the text is all
    alphabet, and then returns the text's length.
  */
  method Scan(sz: Size, encoded: seq<uint8>) returns (valid: bool, cnt: nat)
    requires |encoded| >= sz.EncodedSz() || 0 in encoded
    ensures valid <==> IsBase58(CString(encoded, sz.EncodedSz()))
    ensures valid ==> cnt == |CString(encoded, sz.EncodedSz())|
  {
    var limit := sz.EncodedSz();
    cnt := 0;
    while cnt < limit
      invariant cnt <= limit && cnt <= |encoded|
      invariant forall k | 0 <= k < cnt :: encoded[k] != 0 && IsBase58Char(encoded[k])
      invariant cnt < |encoded| || cnt == limit
    {
      var c := encoded[cnt];
      if c == 0 {
        break;
      }
      var ok := ValidChar(c);
      if !ok {
        valid := false;
        CStringPrefix(encoded, limit, cnt);
        return;
      }
      cnt := cnt + 1;
      if cnt == |encoded| {
        assert 0 !in encoded;
      }
    }
    CStringLength(encoded, limit, cnt);
    valid := true;
  }

  /** A non-nul byte within the limit, after non-nul bytes, is part of the text. */
  lemma CStringPrefix(enc: seq<uint8>, limit: nat, k: nat)
    requires limit <= |enc| || 0 in enc
    requires k < limit && k < |enc|
    requires forall j | 0 <= j <= k :: enc[j] != 0
    ensures k < |CString(enc, limit)| && CString(enc, limit)[k] == enc[k]
  {
  }

  /**
    The raw base-58 digits (lines 196-202): RAW58_SZ - cnt zeros, then the
    digit of each text character.  Their value is the text's value.
  */
  method RawFromText(sz: Size, encoded: seq<uint8>, cnt: nat) returns (raw: array<uint8>)
    requires cnt <= sz.EncodedLen() && cnt <= |encoded| && IsBase58(encoded[..cnt])
    ensures fresh(raw) && raw.Length == sz.Raw58Sz()
    ensures raw[..] == Zeros(sz.Raw58Sz() - cnt) + Unspell(encoded[..cnt])
  {
    ghost var text := encoded[..cnt];
    ghost var want := Zeros(sz.Raw58Sz() - cnt) + Unspell(text);
    raw := new uint8[sz.Raw58Sz()];
    var prepend := raw.Length - cnt;
    for j := 0 to raw.Length
      invariant forall k | 0 <= k < j :: raw[k] == want[k]
    {
      if j < prepend {
        raw[j] := 0;
      } else {
        assert text[j - prepend] == encoded[j - prepend];
        var d := DigitOf(encoded[j - prepend]);
        raw[j] := d;
      }
    }
  }

  /** Five base-58 digits, most significant first, as the sum of line 208. */
  lemma FiveDigitValue(s: seq<nat>)
    requires |s| == 5
    ensures Val(s, 58) == s[0] * 11316496 + s[1] * 195112 + s[2] * 3364 + s[3] * 58 + s[4]
  {
    assert s[..1][..0] == [];
    ValSnoc(s, 58, 1);
    ValSnoc(s, 58, 2);
    ValSnoc(s, 58, 3);
    ValSnoc(s, 58, 4);
    assert s[..5] == s;
  }

  /**
    Groups the raw digits five at a time into base-58^5 entries (lines
    206-213): entry i is the value of raw[5i..5i+4], below 58^5, and the
    entries are worth the digits.
  */
  method Intermediate(raw: array<uint8>, inter: array<uint64>)
    requires raw.Length == 5 * inter.Length
    requires forall q | 0 <= q < raw.Length :: raw[q] < 58
    modifies inter
    ensures forall i | 0 <= i < inter.Length :: inter[i] < R1
    ensures Val(inter[..], R1) == Val(raw[..], 58)
  {
    ghost var s: seq<nat> := raw[..];
    SmallPowers();
    for i := 0 to inter.Length
      invariant forall p | 0 <= p < i :: 5 * p + 5 <= |s| && inter[p] == Val(s[5 * p .. 5 * p + 5], 58)
      invariant forall p | 0 <= p < i :: inter[p] < R1
    {
      ghost var g := s[5 * i .. 5 * i + 5];
      FiveDigitValue(g);
      ValBound(g, 58);
      inter[i] := raw[5 * i + 0] as int * 11316496 + raw[5 * i + 1] as int * 195112
                + raw[5 * i + 2] as int * 3364 + raw[5 * i + 3] as int * 58 + raw[5 * i + 4] as int * 1;
    }
    ValGroups(s, 58, 5, inter[..]);
  }

  /**
    The accumulation (lines 226-232): binary[j] sums intermediate[i] times
    row i of the table over all rows.  Each sum is at most 58^5 - 1 times
    the column sum, which the table keeps below SAFE_LIMIT; when row i is
    58^(5*(INTERMEDIATE_SZ-1-i)) in base 2^32, binary is worth the
    intermediate entries.
  */
  method Accumulate(inter: seq<uint64>, t: seq<seq<nat>>, binary: array<uint64>)
    requires |inter| == |t| && DecFits(t, binary.Length) && DecRows(t)
    requires forall i | 0 <= i < |inter| :: inter[i] < R1
    modifies binary
    ensures forall j | 0 <= j < binary.Length :: binary[j] <= SAFE_LIMIT
    ensures Val(binary[..], TWO32) == Val(inter, R1)
  {
    for j := 0 to binary.Length
      invariant forall k | 0 <= k < j :: binary[k] == Combo(inter, t, 0, |t|, k)
    {
      var acc: uint64 := 0;
      for i := 0 to |t|
        invariant acc == Combo(inter, t, 0, i, j)
        invariant acc <= (R1 - 1) * ColSum(t, 0, i, j)
        invariant forall k | 0 <= k < j :: binary[k] == Combo(inter, t, 0, |t|, k)
      {
        ComboBound(inter, t, 0, i + 1, j, R1 - 1);
        ColSumMono(t, 0, i + 1, |t|, j);
        acc := acc + inter[i] * t[i][j];
      }
      binary[j] := acc;
    }
    ColumnsBound(inter, t, binary[..]);
    ColumnsValue(inter, t, binary[..]);
  }

  /** Every accumulated column is at most SAFE_LIMIT. */
  lemma ColumnsBound(inter: seq<nat>, t: seq<seq<nat>>, binary: seq<nat>)
    requires |inter| == |t| && DecFits(t, |binary|)
    requires forall i | 0 <= i < |inter| :: inter[i] < R1
    requires forall k | 0 <= k < |binary| :: binary[k] == Combo(inter, t, 0, |t|, k)
    ensures forall j | 0 <= j < |binary| :: binary[j] <= SAFE_LIMIT
  {
    forall j | 0 <= j < |binary|
      ensures binary[j] <= SAFE_LIMIT
    {
      ComboBound(inter, t, 0, |t|, j, R1 - 1);
    }
  }

  /** The accumulated columns are worth the intermediate entries. */
  lemma ColumnsValue(inter: seq<nat>, t: seq<seq<nat>>, binary: seq<nat>)
    requires |inter| == |t| && IsTable(t, |binary|) && DecRows(t)
    requires forall k | 0 <= k < |binary| :: binary[k] == Combo(inter, t, 0, |t|, k)
    ensures Val(binary, TWO32) == Val(inter, R1)
  {
    ColumnsRow(inter, t, binary);
    ComboRowVal(inter, t, |t|, |binary|, TWO32, R1);
    assert inter[..|t|] == inter;
    MulByOne(Val(inter, R1), Pow(R1, |inter| - |t|));
  }

  /** The accumulated columns are the row of all rows' combinations. */
  lemma ColumnsRow(inter: seq<nat>, t: seq<seq<nat>>, binary: seq<nat>)
    requires |inter| == |t| && IsTable(t, |binary|)
    requires forall k | 0 <= k < |binary| :: binary[k] == Combo(inter, t, 0, |t|, k)
    ensures binary == ComboRow(inter, t, |t|, |binary|)
  {
  }

  /** Dispatches to the instantiation's table. */
  method AccumulateTable(sz: Size, inter: seq<uint64>, binary: array<uint64>)
    requires |inter| == sz.IntermediateSz() && binary.Length == sz.BinarySz()
    requires forall i | 0 <= i < |inter| :: inter[i] < R1
    modifies binary
    ensures forall j | 0 <= j < binary.Length :: binary[j] <= SAFE_LIMIT
    ensures Val(binary[..], TWO32) == Val(inter, R1)
  {
    DecTableFits(sz);
    Accumulate(inter, DecTable(sz), binary);
  }

  /**
    The conversion proper (lines 196-245) for a valid text of at most
    N_LEN characters: limbs in base 2^32, every one but the first below
    2^32, worth the text's value.
  */
  method ToBinary(sz: Size, encoded: seq<uint8>, cnt: nat) returns (binary: array<uint64>)
    requires cnt <= sz.EncodedLen() && cnt <= |encoded| && IsBase58(encoded[..cnt])
    ensures fresh(binary) && binary.Length == sz.BinarySz()
    ensures forall k | 1 <= k < binary.Length :: binary[k] < TWO32
    ensures Val(binary[..], TWO32) == Val(Unspell(encoded[..cnt]), 58)
  {
    var inter := TextIntermediate(sz, encoded, cnt);
    binary := new uint64[sz.BinarySz()];
    AccumulateTable(sz, inter[..], binary);
    Carry(binary, TWO32);
  }

  /**
    Lines 196-213 for a valid text of at most N_LEN characters: the text's
    digits, right-aligned in RAW58_SZ places, grouped into base-58^5
    entries worth the text's value.
  */
  method TextIntermediate(sz: Size, encoded: seq<uint8>, cnt: nat) returns (inter: array<uint64>)
    requires cnt <= sz.EncodedLen() && cnt <= |encoded| && IsBase58(encoded[..cnt])
    ensures fresh(inter) && inter.Length == sz.IntermediateSz()
    ensures forall i | 0 <= i < inter.Length :: inter[i] < R1
    ensures Val(inter[..], R1) == Val(Unspell(encoded[..cnt]), 58)
  {
    var raw := RawFromText(sz, encoded, cnt);
    ValZeroPrefix(raw[..], 58, sz.Raw58Sz() - cnt);
    assert raw[..][sz.Raw58Sz() - cnt..] == Unspell(encoded[..cnt]);
    inter := new uint64[sz.IntermediateSz()];
    Intermediate(raw, inter);
  }

  /**
    After the carry, the first limb is below 2^32 exactly when the value
    fits in the limbs (the overflow check of line 251).
  */
  lemma TopLimb(s: seq<nat>, b: nat)
    requires |s| > 0 && b > 0
    requires forall k | 1 <= k < |s| :: s[k] < b
    ensures s[0] < b <==> Val(s, b) < Pow(b, |s|)
  {
    var p, rest := Pow(b, |s| - 1), s[1..];
    forall i | 0 <= i < |rest|
      ensures rest[i] < b
    {
      assert rest[i] == s[i + 1];
    }
    ValBound(rest, b);
    ValCons(s, b);
    assert Pow(b, |s|) == b * p;
    if s[0] < b {
      MulMono(s[0] + 1, b, p);
      Distrib1(s[0], p);
    } else {
      MulMono(b, s[0], p);
    }
  }

  /** Four bytes of a 32-bit limb, most significant first: its big-endian store. */
  lemma FourBytes(v: nat)
    requires v < TWO32
    ensures DigitsN(v, 256, 4) == [v / 0x100_0000, v / 0x1_0000 % 256, v / 0x100 % 256, v % 256]
    ensures v / 0x100_0000 < 256
  {
    SmallPowers();
    DivModBasic(v, 0x100_0000);
    MulMono(256, v / 0x100_0000, 0x100_0000);
    DivMod(v / 0x100_0000, 256, 0, v / 0x100_0000);
    DigitsNDiv(v, 256, 4, 0);
    DigitsNDiv(v, 256, 4, 1);
    DigitsNDiv(v, 256, 4, 2);
    DigitsNDiv(v, 256, 4, 3);
  }

  /** Stores limb i big-endian at out[4i..4i+3] (line 257). */
  method StoreLimb(out: array<uint8>, i: nat, v: uint64)
    requires 4 * i + 4 <= out.Length && v < TWO32
    modifies out
    ensures out[4 * i .. 4 * i + 4] == DigitsN(v, 256, 4)
    ensures out[..4 * i] == old(out[..4 * i])
    ensures forall q | 4 * i + 4 <= q < out.Length :: out[q] == old(out[q])
  {
    var b0, b1, b2, b3 := LimbBytes(v);
    out[4 * i + 0] := b0;
    out[4 * i + 1] := b1;
    out[4 * i + 2] := b2;
    out[4 * i + 3] := b3;
    assert out[4 * i .. 4 * i + 4] == [b0, b1, b2, b3];
  }

  /** The four bytes of a limb, most significant first, as fd_uint_bswap lays them out. */
  method LimbBytes(v: uint64) returns (b0: uint8, b1: uint8, b2: uint8, b3: uint8)
    requires v < TWO32
    ensures [b0, b1, b2, b3] == DigitsN(v, 256, 4)
  {
    FourBytes(v);
    b0, b1, b2, b3 := v / 0x100_0000, v / 0x1_0000 % 256, v / 0x100 % 256, v % 256;
  }

  /**
    The output loop (lines 255-258): each limb, now below 2^32, stored
    big-endian, so out holds the 4 * BINARY_SZ bytes of the limbs' value
    and nothing after them changes.
  */
  method StoreLimbs(binary: array<uint64>, out: array<uint8>)
    requires 4 * binary.Length <= out.Length
    requires binary.Length > 0 && binary[0] < TWO32
    requires forall k | 1 <= k < binary.Length :: binary[k] < TWO32
    modifies out
    ensures out[..4 * binary.Length] == DigitsN(Val(binary[..], TWO32), 256, 4 * binary.Length)
    ensures out[4 * binary.Length..] == old(out[4 * binary.Length..])
  {
    ghost var limbs: seq<nat> := binary[..];
    var n := binary.Length;
    for i := 0 to n
      invariant out[..4 * i] == Ungroup(limbs[..i], 256, 4)
      invariant forall q | 4 * n <= q < out.Length :: out[q] == old(out[q])
    {
      ghost var prev := out[..];
      StoreLimb(out, i, binary[i]);
      UngroupSnoc(limbs, 256, 4, i);
      PrefixStep(out[..], prev, 4 * i, 4 * i + 4, DigitsN(binary[i], 256, 4));
    }
    assert out[4 * n..] == old(out[4 * n..]);
    assert limbs[..n] == limbs;
    BytesOfLimbs(out[..4 * n], limbs);
  }

  /** The bytes of ungrouped limbs are the limbs' value written in bytes. */
  lemma BytesOfLimbs(bytes: seq<nat>, limbs: seq<nat>)
    requires forall i | 0 <= i < |limbs| :: limbs[i] < TWO32
    requires bytes == Ungroup(limbs, 256, 4)
    ensures bytes == DigitsN(Val(limbs, TWO32), 256, 4 * |limbs|)
  {
    SmallPowers();
    UngroupVal(limbs, 256, 4);
    DigitsNUnique(bytes, 256);
  }

  /**
    The leading-'1' check (lines 263-269): the loop stops at the first
    non-zero output byte, failing on any position before it whose character
    is not '1'; then the character at the stop must not be '1'.  The reads
    stay within the text and its nul.  It accepts exactly when the text's
    leading '1's match the output's leading zero bytes.
  */
  method LeadingCheck(sz: Size, encoded: seq<uint8>, cnt: nat, out: array<uint8>) returns (ok: bool)
    requires cnt < |encoded| && encoded[cnt] == 0
    requires out.Length >= sz.N()
    ensures ok <==> LeadingOnes(encoded[..cnt]) == LeadingZeros(out[..sz.N()])
  {
    ghost var text, bytes := encoded[..cnt], out[..sz.N()];
    var lz := 0;
    while lz < sz.N()
      invariant lz <= sz.N() && lz <= cnt
      invariant forall k | 0 <= k < lz :: bytes[k] == 0 && text[k] == '1' as int
    {
      if out[lz] != 0 {
        break;
      }
      if encoded[lz] != '1' as int {
        LeadingOnesUnique(text, lz);
        assert bytes[lz] == 0;
        return false;
      }
      lz := lz + 1;
    }
    LeadingZerosUnique(bytes, lz);
    ok := encoded[lz] != '1' as int;
    if ok {
      LeadingOnesUnique(text, lz);
    } else {
      assert text[lz] == '1' as int;
    }
  }

  /** N bytes are BINARY_SZ limbs: 256^N == (2^32)^BINARY_SZ. */
  lemma LimbsPow(sz: Size)
    ensures sz.N() == 4 * sz.BinarySz()
    ensures Pow(TWO32, sz.BinarySz()) == Pow(256, sz.N())
  {
    var limbs := sz.BinarySz();
    assert sz.N() == 4 * limbs;
    SmallPowers();
    PowMul(256, 4, limbs);
  }

  /**
    The overflow check and the output loop (lines 251-258): the limbs'
    value is stored as N big-endian bytes exactly when it is below 256^N,
    that is when the most significant limb fits 32 bits; otherwise out is
    left as it was.
  */
  method StoreValue(sz: Size, binary: array<uint64>, out: array<uint8>) returns (stored: bool)
    requires binary.Length == sz.BinarySz() && out.Length >= sz.N()
    requires forall k | 1 <= k < binary.Length :: binary[k] < TWO32
    modifies out
    ensures stored <==> Val(binary[..], TWO32) < Pow(256, sz.N())
    ensures stored ==> out[..sz.N()] == BytesOf(Val(binary[..], TWO32), sz.N())
    ensures !stored ==> out[..] == old(out[..])
    ensures out[sz.N()..] == old(out[sz.N()..])
  {
    FitsInBytes(sz, binary[..]);
    if binary[0] > 0xFFFF_FFFF {
      return false;
    }
    StoreLimbs(binary, out);
    stored := true;
  }

  /** BINARY_SZ limbs hold an N-byte value exactly when the first limb fits 32 bits. */
  lemma FitsInBytes(sz: Size, limbs: seq<nat>)
    requires |limbs| == sz.BinarySz()
    requires forall k | 1 <= k < |limbs| :: limbs[k] < TWO32
    ensures 4 * |limbs| == sz.N()
    ensures limbs[0] < TWO32 <==> Val(limbs, TWO32) < Pow(256, sz.N())
  {
    LimbsPow(sz);
    TopLimb(limbs, TWO32);
    assert Pow(TWO32, |limbs|) == Pow(TWO32, sz.BinarySz()) == Pow(256, sz.N());
  }

  /**
    Decoding of a text that passed the scan (lines 194-270): converts it,
    rejects a value of 256^N or more before writing anything, stores the
    bytes, and then applies the leading-'1' check.
  */
  method DecodeText(sz: Size, encoded: seq<uint8>, cnt: nat, out: array<uint8>) returns (ok: bool)
    requires cnt < |encoded| && encoded[cnt] == 0 && cnt <= sz.EncodedLen()
    requires IsBase58(encoded[..cnt])
    requires out.Length >= sz.N()
    modifies out
    ensures ok <==> Decoding(sz, encoded[..cnt]).Some?
    ensures DecodedBytes(sz, encoded[..cnt]).Some? ==> out[..sz.N()] == DecodedBytes(sz, encoded[..cnt]).value
    ensures DecodedBytes(sz, encoded[..cnt]).None? ==> out[..] == old(out[..])
    ensures out[sz.N()..] == old(out[sz.N()..])
  {
    var binary := ToBinary(sz, encoded, cnt);
    var stored := StoreValue(sz, binary, out);
    if !stored {
      return false;
    }
    ok := LeadingCheck(sz, encoded, cnt, out);
  }

  /**
    fd_base58_decode_N: decodes the nul-terminated text at `encoded` into
    the N bytes at out.  It succeeds exactly when Base58.Decoding accepts
    the text (every character in the alphabet, at most N_LEN of them
    before the nul, a value below 256^N, and leading '1's matching the
    leading zero bytes), and then out holds the decoded bytes.  Only the
    leading-'1' check comes after out is written: a text that fails an
    earlier check leaves out unchanged.  Nothing past out[N - 1] changes.
  */
  method Decode(sz: Size, encoded: seq<uint8>, out: array<uint8>) returns (ok: bool)
    requires |encoded| >= sz.EncodedSz() || 0 in encoded
    requires out.Length >= sz.N()
    modifies out
    ensures ok <==> Decoding(sz, CString(encoded, sz.EncodedSz())).Some?
    ensures ok ==> out[..sz.N()] == Decoding(sz, CString(encoded, sz.EncodedSz())).value
    ensures DecodedBytes(sz, CString(encoded, sz.EncodedSz())).Some? ==>
      out[..sz.N()] == DecodedBytes(sz, CString(encoded, sz.EncodedSz())).value
    ensures DecodedBytes(sz, CString(encoded, sz.EncodedSz())).None? ==> out[..] == old(out[..])
    ensures out[sz.N()..] == old(out[sz.N()..])
  {
    var valid, cnt := Scan(sz, encoded);
    if !valid {
      return false;
    }
    if cnt == sz.EncodedSz() {
      return false;
    }
    ok := DecodeText(sz, encoded, cnt, out);
  }
}
