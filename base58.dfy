/**
  What the Base58 codec of fd_base58.h promises, as functions on values.

  Encoding(b) is the Base58 text of an N-byte string b: one '1' for every
  leading zero byte, followed by the base-58 digits of the big-endian value
  of b, without leading zeros, spelled with the Bitcoin alphabet.

  Decoding(sz, text) is what decoding a C string whose characters (before
  the nul) are `text` yields: the N bytes it denotes, or None when the text
  is too long, holds a byte outside the alphabet, denotes a value of more
  than N bytes, or does not carry exactly one '1' per leading zero byte.
*/
module Base58 {
  import opened Radix
  import opened Tables

  datatype Option<T> = None | Some(value: T)

  // ---------------------------------------------------------------------
  // Strings of alphabet bytes

  /** n copies of '1', the character of digit zero. */
  function Ones(n: nat): (s: seq<uint8>)
    ensures |s| == n && forall i | 0 <= i < n :: s[i] == '1' as int
  {
    seq(n, i requires 0 <= i < n => '1' as int)
  }

  /** The alphabet characters of the base-58 digits d. */
  function Spell(d: seq<nat>): (s: seq<uint8>)
    requires forall i | 0 <= i < |d| :: d[i] < 58
    ensures |s| == |d| && forall i | 0 <= i < |d| :: s[i] == Char(d[i])
  {
    seq(|d|, i requires 0 <= i < |d| => Char(d[i]))
  }

  /** Every byte of s is a Base58 character. */
  predicate IsBase58(s: seq<uint8>)
  {
    forall i | 0 <= i < |s| :: IsBase58Char(s[i])
  }

  /** The base-58 digits of the characters of s. */
  function Unspell(s: seq<uint8>): (d: seq<nat>)
    requires IsBase58(s)
    ensures |d| == |s| && forall i | 0 <= i < |s| :: d[i] < 58 && Char(d[i]) == s[i]
  {
    seq(|s|, i requires 0 <= i < |s| => Digit(s[i]))
  }

  /** The number of '1' characters at the start of s. */
  function LeadingOnes(s: seq<uint8>): (n: nat)
    ensures n <= |s|
    ensures forall i | 0 <= i < n :: s[i] == '1' as int
    ensures n < |s| ==> s[n] != '1' as int
  {
    if |s| == 0 || s[0] != '1' as int then 0 else 1 + LeadingOnes(s[1..])
  }

  /** A string that starts with exactly n '1's has LeadingOnes n. */
  lemma LeadingOnesUnique(s: seq<uint8>, n: nat)
    requires n <= |s|
    requires forall i | 0 <= i < n :: s[i] == '1' as int
    requires n < |s| ==> s[n] != '1' as int
    ensures LeadingOnes(s) == n
  {
    var m := LeadingOnes(s);
  }

  // ---------------------------------------------------------------------
  // Byte strings as numbers

  /** The value of a byte string read as a big-endian integer. */
  function BytesValue(b: seq<uint8>): nat
  {
    Val(b, 256)
  }

  /** The n-byte big-endian representation of x modulo 256^n. */
  function BytesOf(x: nat, n: nat): (b: seq<uint8>)
    ensures b == DigitsN(x, 256, n)
  {
    var d := DigitsN(x, 256, n);
    seq(n, i requires 0 <= i < n => d[i])
  }

  /** Bytes and numbers below 256^n are in one-to-one correspondence. */
  lemma BytesRoundTrip(b: seq<uint8>)
    ensures BytesValue(b) < Pow(256, |b|)
    ensures BytesOf(BytesValue(b), |b|) == b
  {
    ValBound(b, 256);
    DigitsNUnique(b, 256);
  }

  lemma BytesOfValue(x: nat, n: nat)
    requires x < Pow(256, n)
    ensures |BytesOf(x, n)| == n && BytesValue(BytesOf(x, n)) == x
  {
    DivMod(x, Pow(256, n), 0, x);
  }

  // ---------------------------------------------------------------------
  // The encoding

  /**
    The Base58 text of b: a '1' per leading zero byte, then the base-58
    digits of b's value without leading zeros.
  */
  function Encoding(b: seq<uint8>): seq<uint8>
  {
    Ones(LeadingZeros(b)) + Spell(Digits(BytesValue(b), 58))
  }

  /**
    The encoding uses only alphabet characters, and its leading '1's
    correspond one to one to the leading zero bytes of the input.
  */
  lemma EncodingAlphabet(b: seq<uint8>)
    ensures IsBase58(Encoding(b))
    ensures LeadingOnes(Encoding(b)) == LeadingZeros(b)
  {
    var z, d := LeadingZeros(b), Digits(BytesValue(b), 58);
    var s := Encoding(b);
    forall i | 0 <= i < |s|
      ensures IsBase58Char(s[i])
    {
      if i < z {
        CharDigit(0);
      } else {
        CharDigit(d[i - z]);
      }
    }
    if z < |s| {
      CharAscending(0, d[0]);
    }
    LeadingOnesUnique(s, z);
  }

  /** The digit string of x has the least length that holds x. */
  lemma DigitsLength(x: nat)
    ensures x < Pow(58, |Digits(x, 58)|)
    ensures |Digits(x, 58)| > 0 ==> Pow(58, |Digits(x, 58)| - 1) <= x
  {
    var d := Digits(x, 58);
    ValBound(d, 58);
    if |d| > 0 {
      ValLowerBound(d, 58, 0);
    }
  }

  /**
    256^(N-z) <= 58^(LEN-z) for every z <= N: the bound 256^N <= 58^LEN
    survives dropping the same number of bytes and characters.
  */
  lemma ScaledPowers(sz: Size, z: nat)
    requires z <= sz.N()
    ensures Pow(256, sz.N() - z) <= Pow(58, sz.EncodedLen() - z)
  {
    var n, len := sz.N(), sz.EncodedLen();
    EncodedLenIsCeilLog(sz);
    assert Pow(256, n) <= Pow(58, len);
    PowRatio(256, 58, n, len, n - z);
    assert n - z + len - n == len - z;
  }

  /** If a^n <= c^m with c <= a, then a^k <= c^(k+m-n) for k <= n. */
  lemma PowRatio(a: nat, c: nat, n: nat, m: nat, k: nat)
    requires 0 < c <= a && k <= n <= m && Pow(a, n) <= Pow(c, m)
    ensures Pow(a, k) <= Pow(c, k + m - n)
  {
    PowAdd(a, k, n - k);
    PowAdd(c, k + m - n, n - k);
    PowLe(c, a, n - k);
    CancelLe(Pow(a, k), Pow(c, k + m - n), Pow(c, n - k), Pow(a, n - k));
  }

  lemma CancelLe(a: nat, c: nat, w: nat, w': nat)
    requires 0 < w <= w' && a * w' <= c * w
    ensures a <= c
  {
    MulLe(a, w, a, w');
    if a > c {
      MulLe(c + 1, w, a, w);
    }
  }

  /** Encoding N bytes takes from N to FD_BASE58_ENCODED_N_LEN characters. */
  lemma EncodingLength(sz: Size, b: seq<uint8>)
    requires |b| == sz.N()
    ensures sz.N() <= |Encoding(b)| <= sz.EncodedLen()
  {
    assert |Encoding(b)| == LeadingZeros(b) + |Digits(BytesValue(b), 58)|;
    EncodingUpper(sz, b);
    EncodingLower(sz, b);
  }

  /** x < 256^(N-z) <= 58^(LEN-z), so at most LEN-z digits follow the z '1's. */
  lemma EncodingUpper(sz: Size, b: seq<uint8>)
    requires |b| == sz.N()
    ensures LeadingZeros(b) + |Digits(BytesValue(b), 58)| <= sz.EncodedLen()
  {
    var z, x := LeadingZeros(b), BytesValue(b);
    BoundFromLeadingZeros(b, 256, z);
    ScaledPowers(sz, z);
    var p, q := Pow(256, |b| - z), Pow(58, sz.EncodedLen() - z);
    assert x < p <= q;
    DigitsAtMost(x, sz.EncodedLen() - z);
  }

  /** x >= 256^(N-1-z) >= 58^(N-1-z) when a nonzero byte exists, so N-z digits at least. */
  lemma EncodingLower(sz: Size, b: seq<uint8>)
    requires |b| == sz.N()
    ensures LeadingZeros(b) + |Digits(BytesValue(b), 58)| >= sz.N()
  {
    var z := LeadingZeros(b);
    if z < |b| {
      ValLowerBound(b, 256, z);
      PowLe(58, 256, |b| - 1 - z);
      DigitsMoreThan(BytesValue(b), |b| - 1 - z);
    }
  }

  /** N zero bytes encode to N '1's, the shortest encoding. */
  lemma ZerosEncoding(sz: Size)
    ensures var b: seq<uint8> := seq(sz.N(), i => 0);
      Encoding(b) == Ones(sz.N())
  {
    var b: seq<uint8> := seq(sz.N(), i => 0);
    LeadingZerosUnique(b, |b|);
    ValAllZero(b, 256);
    DigitsUnique([], 58);
  }

  /** N - 1 zero bytes and a one encode to N - 1 '1's followed by "2". */
  lemma OneEncoding(sz: Size)
    ensures var b: seq<uint8> := seq(sz.N() - 1, i => 0) + [1];
      Encoding(b) == Ones(sz.N() - 1) + ['2' as int]
  {
    var n := sz.N();
    var b: seq<uint8> := seq(n - 1, i => 0) + [1];
    LeadingZerosUnique(b, n - 1);
    ValueOfOne(b);
    DigitsOfOne();
    SpellOne();
  }

  /** A byte string of zeros ending in a one is worth 1. */
  lemma ValueOfOne(b: seq<uint8>)
    requires |b| > 0 && b[|b| - 1] == 1
    requires forall i | 0 <= i < |b| - 1 :: b[i] == 0
    ensures BytesValue(b) == 1
  {
    ValZeroPrefix(b, 256, |b| - 1);
    assert b[|b| - 1..] == [1];
    assert Val([1], 256) == 1;
  }

  /** Digit 1 is spelled "2". */
  lemma SpellOne()
    ensures Spell([1]) == ['2' as int]
  {
    assert Char(1) == '2' as int;
  }

  /** The base-58 digits of 1. */
  lemma DigitsOfOne()
    ensures Digits(1, 58) == [1]
  {
    assert Val([1], 58) == 1;
    DigitsUnique([1], 58);
  }

  /**
    N bytes of 0xFF have no leading zero and reach the longest encoding:
    the bound FD_BASE58_ENCODED_N_LEN of EncodingLength is attained.
  */
  lemma MaxEncoding(sz: Size)
    ensures var b: seq<uint8> := seq(sz.N(), i => 255);
      |Encoding(b)| == sz.EncodedLen() && LeadingOnes(Encoding(b)) == 0
  {
    var n, len := sz.N(), sz.EncodedLen();
    var b: seq<uint8> := seq(n, i => 255);
    LeadingZerosUnique(b, 0);
    ValAllMax(b, 256);
    EncodedLenIsCeilLog(sz);
    DigitsMoreThan(BytesValue(b), len - 1);
    DigitsAtMost(BytesValue(b), len);
    EncodingAlphabet(b);
  }

  /** A value below 58^m has at most m digits. */
  lemma DigitsAtMost(x: nat, m: nat)
    requires x < Pow(58, m)
    ensures |Digits(x, 58)| <= m
  {
    var k := |Digits(x, 58)|;
    DigitsLength(x);
    if k > 0 {
      PowMonotone(58, m, k - 1);
    }
  }

  /** A value of at least 58^m has more than m digits. */
  lemma DigitsMoreThan(x: nat, m: nat)
    requires Pow(58, m) <= x
    ensures |Digits(x, 58)| > m
  {
    DigitsLength(x);
    PowMonotone(58, |Digits(x, 58)|, m);
  }

  // ---------------------------------------------------------------------
  // The decoding

  /**
    The characters the decoder scans in the C string enc: those before the
    first nul, and at most `limit` of them.  The decoder reads enc only
    up to the nul or the limit, whichever comes first.
  */
  function CString(enc: seq<uint8>, limit: nat): (text: seq<uint8>)
    requires limit <= |enc| || 0 in enc
    ensures |text| <= limit && |text| <= |enc| && text == enc[..|text|]
    ensures forall i | 0 <= i < |text| :: text[i] != 0
    ensures |text| < limit ==> |text| < |enc| && enc[|text|] == 0
  {
    if limit == 0 || enc[0] == 0 then []
    else
      assert 0 in enc ==> 0 in enc[1..];
      var t := [enc[0]] + CString(enc[1..], limit - 1);
      assert enc[..|t|] == [enc[0]] + enc[1..][..|t| - 1];
      t
  }

  /**
    What the decoder writes to out: the N big-endian bytes of the text's
    value, when the text is at most FD_BASE58_ENCODED_N_LEN characters of
    the alphabet and its value is below 256^N; None otherwise.
  */
  function DecodedBytes(sz: Size, text: seq<uint8>): Option<seq<uint8>>
  {
    if |text| > sz.EncodedLen() || !IsBase58(text) then None
    else
      var x := Val(Unspell(text), 58);
      if x >= Pow(256, sz.N()) then None
      else Some(BytesOf(x, sz.N()))
  }

  /**
    The decoding of a text: its bytes, provided also that its leading '1's
    match their leading zero bytes one for one.
  */
  function Decoding(sz: Size, text: seq<uint8>): Option<seq<uint8>>
  {
    match DecodedBytes(sz, text)
    case None => None
    case Some(b) => if LeadingOnes(text) == LeadingZeros(b) then Some(b) else None
  }

  /** The digits of an encoding are zeros for its '1's, then the value's digits. */
  lemma UnspellEncoding(b: seq<uint8>)
    ensures IsBase58(Encoding(b))
    ensures Unspell(Encoding(b)) == Zeros(LeadingZeros(b)) + Digits(BytesValue(b), 58)
  {
    EncodingSpelled(b);
    UnspellSpell(Zeros(LeadingZeros(b)) + Digits(BytesValue(b), 58));
  }

  /** The encoding spells z zero digits and then the digits of the value. */
  lemma EncodingSpelled(b: seq<uint8>)
    ensures Encoding(b) == Spell(Zeros(LeadingZeros(b)) + Digits(BytesValue(b), 58))
  {
    var z := LeadingZeros(b);
    CharDigit(0);
    assert Ones(z) == Spell(Zeros(z));
    SpellConcat(Zeros(z), Digits(BytesValue(b), 58));
  }

  lemma SpellConcat(a: seq<nat>, c: seq<nat>)
    requires forall i | 0 <= i < |a| :: a[i] < 58
    requires forall i | 0 <= i < |c| :: c[i] < 58
    ensures Spell(a) + Spell(c) == Spell(a + c)
  {
  }

  /** Reading back the characters of a digit string gives the digits. */
  lemma UnspellSpell(d: seq<nat>)
    requires forall i | 0 <= i < |d| :: d[i] < 58
    ensures IsBase58(Spell(d)) && Unspell(Spell(d)) == d
  {
    forall i | 0 <= i < |d|
      ensures IsBase58Char(Spell(d)[i]) && Digit(Spell(d)[i]) == d[i]
    {
      CharDigit(d[i]);
    }
  }

  /** Decoding undoes encoding: decode(encode(b)) == b for every N bytes b. */
  lemma RoundTrip(sz: Size, b: seq<uint8>)
    requires |b| == sz.N()
    ensures Decoding(sz, Encoding(b)) == Some(b)
  {
    var s := Encoding(b);
    var z, x := LeadingZeros(b), BytesValue(b);
    EncodingLength(sz, b);
    UnspellEncoding(b);
    var u := Unspell(s);
    ValZeroPrefix(u, 58, z);
    assert u[z..] == Digits(x, 58);
    BytesRoundTrip(b);
    assert DecodedBytes(sz, s) == Some(b);
    EncodingAlphabet(b);
  }

  /**
    Decoding accepts only canonical encodings: whatever it accepts is the
    encoding of the bytes it returns, so no two texts decode to the same
    bytes.
  */
  lemma Canonical(sz: Size, text: seq<uint8>)
    requires Decoding(sz, text).Some?
    ensures |Decoding(sz, text).value| == sz.N()
    ensures Encoding(Decoding(sz, text).value) == text
  {
    var b := Decoding(sz, text).value;
    var n := sz.N();
    var u := Unspell(text);
    var x := Val(u, 58);
    assert x < Pow(256, n) && b == BytesOf(x, n);
    BytesOfValue(x, n);
    var z := LeadingZeros(b);
    assert LeadingOnes(text) == z;
    SplitText(text);
    ValZeroPrefix(u, 58, z);
    DigitsUnique(u[z..], 58);
  }

  /**
    A Base58 text is its leading '1's followed by the spelling of the rest
    of its digits, which start with a nonzero digit.
  */
  lemma SplitText(text: seq<uint8>)
    requires IsBase58(text)
    ensures forall i | 0 <= i < LeadingOnes(text) :: Unspell(text)[i] == 0
    ensures var d := Unspell(text)[LeadingOnes(text)..];
      (|d| > 0 ==> d[0] != 0) && text == Ones(LeadingOnes(text)) + Spell(d)
  {
    var z, u := LeadingOnes(text), Unspell(text);
    CharDigit(0);
    forall i | 0 <= i < z
      ensures u[i] == 0
    {
      CharDigit(u[i]);
    }
    var e := Ones(z) + Spell(u[z..]);
    assert |e| == |text|;
    forall i | 0 <= i < |text|
      ensures e[i] == text[i]
    {
      if i >= z {
        assert e[i] == Char(u[i]);
      }
    }
  }

  /**
    A text of FD_BASE58_ENCODED_N_LEN 'z' characters is made of valid
    characters but denotes a value of more than N bytes, so it is rejected.
  */
  lemma AllZOverflows(sz: Size)
    ensures IsBase58(seq(sz.EncodedLen(), i => 'z' as int))
    ensures DecodedBytes(sz, seq(sz.EncodedLen(), i => 'z' as int)) == None
  {
    var n, len := sz.N(), sz.EncodedLen();
    var text: seq<uint8> := seq(len, i => 'z' as int);
    CharDigit(57);
    assert IsBase58(text);
    var u := Unspell(text);
    forall i | 0 <= i < len
      ensures u[i] == 57
    {
      CharDigit(u[i]);
    }
    ValAllMax(u, 58);
    EncodedLenIsCeilLog(sz);
    assert Pow(256, n) < Pow(58, len);
  }
}
