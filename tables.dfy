/**
  The constant data of the Base58 codec: the alphabet and its inverse, the
  sizes that parameterise the 32-byte and 64-byte instantiations of the
  conversion, and the four radix-conversion tables, together with the
  arithmetic facts about them that the encoder and the decoder rely on.
*/
module Tables {
  import opened Radix

  /** 58^5, the radix of the "intermediate" representation. */
  const R1: nat := 656356768

  /** The largest 32-bit limb. */
  const LIMB_MAX: nat := TWO32 - 1

  /**
    Before its carry pass, every accumulator of both conversions stays at or
    below this bound, so that adding a carry below 2^36 cannot overflow 64 bits.
  */
  const SAFE_LIMIT: nat := TWO64 - 0x10_0000_0000

  // ---------------------------------------------------------------------
  // Alphabet

  /**
    The character of base-58 digit d in the alphabet
    "123456789ABCDEFGHJKLMNPQRSTUVWXYZabcdefghijkmnopqrstuvwxyz", which is
    made of six runs of consecutive characters.
  */
  function Char(d: nat): uint8
    requires d < 58
  {
    if d < 9 then '1' as int + d
    else if d < 17 then 'A' as int + (d - 9)
    else if d < 22 then 'J' as int + (d - 17)
    else if d < 33 then 'P' as int + (d - 22)
    else if d < 44 then 'a' as int + (d - 33)
    else 'm' as int + (d - 44)
  }

  /**
    base58_chars: the Bitcoin alphabet, one character per digit, written as
    its six runs of consecutive characters (the gaps are '0', 'I', 'O' and
    'l', and the punctuation between the digits and the letters).
  */
  const ALPHABET: string := "123456789" + "ABCDEFGH" + "JKLMN" + "PQRSTUVWXYZ" + "abcdefghijk" + "mnopqrstuvwxyz"

  /** The alphabet as bytes, digit d written BASE58_CHARS[d] (AlphabetRuns). */
  const BASE58_CHARS: seq<uint8> := seq(58, d requires 0 <= d < 58 => Char(d))

  /** The six runs that Char describes are the characters of the alphabet string. */
  lemma AlphabetRuns()
    ensures |ALPHABET| == |BASE58_CHARS| == 58
    ensures forall d | 0 <= d < 58 :: BASE58_CHARS[d] == ALPHABET[d] as int
  {
    AlphabetRun0();
    AlphabetRun1();
    AlphabetRun2();
    AlphabetRun3();
    AlphabetRun4();
    AlphabetRun5();
  }

  /** Digits 0..8 are the run '1'..'9'. */
  lemma AlphabetRun0()
    ensures |ALPHABET| == 58 && forall d | 0 <= d < 9 :: ALPHABET[d] as int == Char(d)
  {
    assert |ALPHABET| == 58;
  }

  /** Digits 9..16 are the run 'A'..'H'. */
  lemma AlphabetRun1()
    ensures |ALPHABET| == 58 && forall d | 9 <= d < 17 :: ALPHABET[d] as int == Char(d)
  {
    assert |ALPHABET| == 58;
  }

  /** Digits 17..21 are the run 'J'..'N'. */
  lemma AlphabetRun2()
    ensures |ALPHABET| == 58 && forall d | 17 <= d < 22 :: ALPHABET[d] as int == Char(d)
  {
    assert |ALPHABET| == 58;
  }

  /** Digits 22..32 are the run 'P'..'Z'. */
  lemma AlphabetRun3()
    ensures |ALPHABET| == 58 && forall d | 22 <= d < 33 :: ALPHABET[d] as int == Char(d)
  {
    assert |ALPHABET| == 58;
  }

  /** Digits 33..43 are the run 'a'..'k'. */
  lemma AlphabetRun4()
    ensures |ALPHABET| == 58 && forall d | 33 <= d < 44 :: ALPHABET[d] as int == Char(d)
  {
    assert |ALPHABET| == 58;
  }

  /** Digits 44..57 are the run 'm'..'z'. */
  lemma AlphabetRun5()
    ensures |ALPHABET| == 58 && forall d | 44 <= d < 58 :: ALPHABET[d] as int == Char(d)
  {
    assert |ALPHABET| == 58;
  }

  /** The bytes of the alphabet: the six runs, as ranges. */
  predicate IsBase58Char(c: uint8)
  {
    ('1' as int <= c <= '9' as int) || ('A' as int <= c <= 'H' as int) ||
    ('J' as int <= c <= 'N' as int) || ('P' as int <= c <= 'Z' as int) ||
    ('a' as int <= c <= 'k' as int) || ('m' as int <= c <= 'z' as int)
  }

  /** The digit of an alphabet character: its position in the alphabet. */
  function Digit(c: uint8): (d: nat)
    requires IsBase58Char(c)
    ensures d < 58 && Char(d) == c
  {
    if c <= '9' as int then c - '1' as int
    else if c <= 'H' as int then c - 'A' as int + 9
    else if c <= 'N' as int then c - 'J' as int + 17
    else if c <= 'Z' as int then c - 'P' as int + 22
    else if c <= 'k' as int then c - 'a' as int + 33
    else c - 'm' as int + 44
  }

  /** Char and Digit are inverse bijections between digits and alphabet bytes. */
  lemma CharDigit(d: nat)
    requires d < 58
    ensures IsBase58Char(Char(d)) && Digit(Char(d)) == d
  {
  }

  /** The alphabet is strictly ascending, so no character spells two digits. */
  lemma CharAscending(d: nat, e: nat)
    requires d < e < 58
    ensures Char(d) < Char(e)
  {
  }

  /**
    The alphabet lists 58 distinct characters in ascending order, between
    '1' and 'z', leaving out the look-alikes '0', 'O', 'I' and 'l'; its
    members are exactly the bytes IsBase58Char accepts.
  */
  lemma AlphabetProperties()
    ensures |BASE58_CHARS| == 58 && BASE58_CHARS[0] == '1' as int && BASE58_CHARS[57] == 'z' as int
    ensures forall i, j | 0 <= i < j < 58 :: BASE58_CHARS[i] < BASE58_CHARS[j]
    ensures forall c: uint8 :: c in BASE58_CHARS <==> IsBase58Char(c)
    ensures forall c: uint8 | IsBase58Char(c) ::
      '1' as int <= c <= 'z' as int && c != '0' as int && c != 'O' as int && c != 'I' as int && c != 'l' as int
  {
    forall i, j | 0 <= i < j < 58
      ensures BASE58_CHARS[i] < BASE58_CHARS[j]
    {
      CharAscending(i, j);
    }
    forall c: uint8
      ensures c in BASE58_CHARS <==> IsBase58Char(c)
    {
      if IsBase58Char(c) {
        assert BASE58_CHARS[Digit(c)] == c;
      }
    }
  }

  // ---------------------------------------------------------------------
  // Inverse table

  /** Marks the entries of the inverse table that are not Base58 characters. */
  const BASE58_INVALID_CHAR: uint8 := 255

  /** The inverse table is indexed by the byte minus '1'. */
  const BASE58_INVERSE_TABLE_OFFSET: uint8 := '1' as int

  /** The index one past 'z', the last entry of the inverse table. */
  const BASE58_INVERSE_TABLE_SENTINEL: uint8 := 1 + 'z' as int - BASE58_INVERSE_TABLE_OFFSET

  /** base58_inverse: (byte - '1') to its digit, or BASE58_INVALID_CHAR. */
  const BASE58_INVERSE: seq<uint8> := 
    [  0,   1,   2,   3,   4,   5,   6,   7,   8, 255] +
    [255, 255, 255, 255, 255, 255,   9,  10,  11,  12] +
    [ 13,  14,  15,  16, 255,  17,  18,  19,  20,  21] +
    [255,  22,  23,  24,  25,  26,  27,  28,  29,  30] +
    [ 31,  32, 255, 255, 255, 255, 255, 255,  33,  34] +
    [ 35,  36,  37,  38,  39,  40,  41,  42,  43, 255] +
    [ 44,  45,  46,  47,  48,  49,  50,  51,  52,  53] +
    [ 54,  55,  56,  57, 255]

  /**
    The inverse table undoes the alphabet, rejects every other entry, and
    its sentinel entry (one past 'z') is invalid.
  */
  lemma InverseTable()
    ensures BASE58_INVERSE_TABLE_SENTINEL == 74 && |BASE58_INVERSE| == BASE58_INVERSE_TABLE_SENTINEL + 1
    ensures BASE58_INVERSE[BASE58_INVERSE_TABLE_SENTINEL] == BASE58_INVALID_CHAR
    ensures forall d | 0 <= d < 58 ::
      BASE58_INVERSE_TABLE_OFFSET <= Char(d) < BASE58_INVERSE_TABLE_OFFSET + BASE58_INVERSE_TABLE_SENTINEL &&
      BASE58_INVERSE[Char(d) - BASE58_INVERSE_TABLE_OFFSET] == d
    ensures forall i | 0 <= i < |BASE58_INVERSE| ::
      BASE58_INVERSE[i] == BASE58_INVALID_CHAR ||
      (BASE58_INVERSE[i] < 58 && Char(BASE58_INVERSE[i]) == i + BASE58_INVERSE_TABLE_OFFSET)
  {
    InverseOfDigits();
    InverseOfUpper();
    InverseOfLower();
    InverseRejects0();
    InverseRejects20();
    InverseRejects40();
    InverseRejects60();
  }

  lemma InverseOfDigits()
    ensures forall d | 0 <= d < 9 ::
      BASE58_INVERSE_TABLE_OFFSET <= Char(d) < BASE58_INVERSE_TABLE_OFFSET + BASE58_INVERSE_TABLE_SENTINEL &&
      BASE58_INVERSE[Char(d) - BASE58_INVERSE_TABLE_OFFSET] == d
  {
  }

  lemma InverseOfUpper()
    ensures forall d | 9 <= d < 33 ::
      BASE58_INVERSE_TABLE_OFFSET <= Char(d) < BASE58_INVERSE_TABLE_OFFSET + BASE58_INVERSE_TABLE_SENTINEL &&
      BASE58_INVERSE[Char(d) - BASE58_INVERSE_TABLE_OFFSET] == d
  {
  }

  lemma InverseOfLower()
    ensures forall d | 33 <= d < 58 ::
      BASE58_INVERSE_TABLE_OFFSET <= Char(d) < BASE58_INVERSE_TABLE_OFFSET + BASE58_INVERSE_TABLE_SENTINEL &&
      BASE58_INVERSE[Char(d) - BASE58_INVERSE_TABLE_OFFSET] == d
  {
  }

  lemma InverseRejects0()
    ensures forall i | 0 <= i < 20 ::
      BASE58_INVERSE[i] == BASE58_INVALID_CHAR ||
      (BASE58_INVERSE[i] < 58 && Char(BASE58_INVERSE[i]) == i + BASE58_INVERSE_TABLE_OFFSET)
  {
  }

  lemma InverseRejects20()
    ensures forall i | 20 <= i < 40 ::
      BASE58_INVERSE[i] == BASE58_INVALID_CHAR ||
      (BASE58_INVERSE[i] < 58 && Char(BASE58_INVERSE[i]) == i + BASE58_INVERSE_TABLE_OFFSET)
  {
  }

  lemma InverseRejects40()
    ensures forall i | 40 <= i < 60 ::
      BASE58_INVERSE[i] == BASE58_INVALID_CHAR ||
      (BASE58_INVERSE[i] < 58 && Char(BASE58_INVERSE[i]) == i + BASE58_INVERSE_TABLE_OFFSET)
  {
  }

  lemma InverseRejects60()
    ensures forall i | 60 <= i < 75 ::
      BASE58_INVERSE[i] == BASE58_INVALID_CHAR ||
      (BASE58_INVERSE[i] < 58 && Char(BASE58_INVERSE[i]) == i + BASE58_INVERSE_TABLE_OFFSET)
  {
  }


  /**
    The table index the decoder computes for byte c: c - '1' in unsigned
    64-bit arithmetic (so bytes below '1' wrap to huge values), clamped to
    the sentinel.
  */
  function InverseIndex(c: uint8): (idx: nat)
    ensures idx <= BASE58_INVERSE_TABLE_SENTINEL
    ensures idx < BASE58_INVERSE_TABLE_SENTINEL <==>
      BASE58_INVERSE_TABLE_OFFSET <= c < BASE58_INVERSE_TABLE_OFFSET + BASE58_INVERSE_TABLE_SENTINEL
    ensures idx < BASE58_INVERSE_TABLE_SENTINEL ==> idx == c - BASE58_INVERSE_TABLE_OFFSET
  {
    var diff := if c >= BASE58_INVERSE_TABLE_OFFSET then c - BASE58_INVERSE_TABLE_OFFSET
                else c - BASE58_INVERSE_TABLE_OFFSET + TWO64;
    if diff < BASE58_INVERSE_TABLE_SENTINEL then diff else BASE58_INVERSE_TABLE_SENTINEL
  }

  /**
    The clamped lookup accepts exactly the bytes of the alphabet, and maps
    each back to its digit.
  */
  lemma LookupAcceptsAlphabet(c: uint8)
    ensures BASE58_INVERSE[InverseIndex(c)] != BASE58_INVALID_CHAR <==> IsBase58Char(c)
    ensures IsBase58Char(c) ==> BASE58_INVERSE[InverseIndex(c)] == Digit(c)
  {
    InverseTable();
    var idx := InverseIndex(c);
    if IsBase58Char(c) {
      assert Char(Digit(c)) == c;
    }
    if BASE58_INVERSE[idx] != BASE58_INVALID_CHAR {
      CharDigit(BASE58_INVERSE[idx]);
    }
  }

  // ---------------------------------------------------------------------
  // Sizes

  /** The two instantiations of the conversion template. */
  datatype Size = Size32 | Size64 {
    /** N: the number of bytes converted. */
    function N(): nat
    {
      match this
      case Size32 => 32
      case Size64 => 64
    }

    /** BINARY_SZ: the number of 32-bit limbs. */
    function BinarySz(): nat
    {
      N() / 4
    }

    /** INTERMEDIATE_SZ: the number of base-58^5 intermediate digits. */
    function IntermediateSz(): nat
    {
      match this
      case Size32 => 9
      case Size64 => 18
    }

    /** RAW58_SZ: the number of raw base-58 digits. */
    function Raw58Sz(): nat
    {
      IntermediateSz() * 5
    }

    /** FD_BASE58_ENCODED_N_LEN: the longest encoding, not counting the nul. */
    function EncodedLen(): nat
    {
      match this
      case Size32 => 44
      case Size64 => 88
    }

    /** FD_BASE58_ENCODED_N_SZ: the longest encoding with its nul terminator. */
    function EncodedSz(): nat
    {
      EncodedLen() + 1
    }
  }

  /** Literal values of the powers used below. */
  lemma PowValues()
    ensures Pow(58, 5) == R1 && Pow(256, 4) == TWO32
    ensures Pow(TWO32, 8) == 0x1_0000_0000_0000_0000_0000_0000_0000_0000_0000_0000_0000_0000_0000_0000_0000_0000
    ensures Pow(TWO32, 16) == 0x1_0000_0000_0000_0000_0000_0000_0000_0000_0000_0000_0000_0000_0000_0000_0000_0000_0000_0000_0000_0000_0000_0000_0000_0000_0000_0000_0000_0000_0000_0000_0000_0000
    ensures Pow(R1, 8) == 34444488709877454747081479018851205589883534409595458615323760395288576 && Pow(R1, 9) == 22607873285027655873860657001472988373879490141498863404231658646658012170682368
    ensures Pow(R1, 17) == 778716636120475217235294996332936046734099891222280347589967911434638443150066222107625919216282934217683098445463421924094897030113233403382195027968 && Pow(R1, 18) == 511115934471867172208656119319657755585090759991807498534067927572949531794529204528531496489828559676675086943890195876319267939977920550673577797302746087424
  {
    assert Pow(58, 1) == 58;
    assert Pow(58, 2) == 3364;
    assert Pow(58, 3) == 195112;
    assert Pow(58, 4) == 11316496;
    assert Pow(58, 5) == 656356768;
    assert Pow(256, 1) == 256;
    assert Pow(256, 2) == 65536;
    assert Pow(256, 3) == 16777216;
    assert Pow(256, 4) == 4294967296;
    assert Pow(TWO32, 1) == 0x1_0000_0000;
    assert Pow(TWO32, 2) == 0x1_0000_0000_0000_0000;
    assert Pow(TWO32, 3) == 0x1_0000_0000_0000_0000_0000_0000;
    assert Pow(TWO32, 4) == 0x1_0000_0000_0000_0000_0000_0000_0000_0000;
    assert Pow(TWO32, 5) == 0x1_0000_0000_0000_0000_0000_0000_0000_0000_0000_0000;
    assert Pow(TWO32, 6) == 0x1_0000_0000_0000_0000_0000_0000_0000_0000_0000_0000_0000_0000;
    assert Pow(TWO32, 7) == 0x1_0000_0000_0000_0000_0000_0000_0000_0000_0000_0000_0000_0000_0000_0000;
    assert Pow(TWO32, 8) == 0x1_0000_0000_0000_0000_0000_0000_0000_0000_0000_0000_0000_0000_0000_0000_0000_0000;
    assert Pow(TWO32, 9) == 0x1_0000_0000_0000_0000_0000_0000_0000_0000_0000_0000_0000_0000_0000_0000_0000_0000_0000_0000;
    assert Pow(TWO32, 10) == 0x1_0000_0000_0000_0000_0000_0000_0000_0000_0000_0000_0000_0000_0000_0000_0000_0000_0000_0000_0000_0000;
    assert Pow(TWO32, 11) == 0x1_0000_0000_0000_0000_0000_0000_0000_0000_0000_0000_0000_0000_0000_0000_0000_0000_0000_0000_0000_0000_0000_0000;
    assert Pow(TWO32, 12) == 0x1_0000_0000_0000_0000_0000_0000_0000_0000_0000_0000_0000_0000_0000_0000_0000_0000_0000_0000_0000_0000_0000_0000_0000_0000;
    assert Pow(TWO32, 13) == 0x1_0000_0000_0000_0000_0000_0000_0000_0000_0000_0000_0000_0000_0000_0000_0000_0000_0000_0000_0000_0000_0000_0000_0000_0000_0000_0000;
    assert Pow(TWO32, 14) == 0x1_0000_0000_0000_0000_0000_0000_0000_0000_0000_0000_0000_0000_0000_0000_0000_0000_0000_0000_0000_0000_0000_0000_0000_0000_0000_0000_0000_0000;
    assert Pow(TWO32, 15) == 0x1_0000_0000_0000_0000_0000_0000_0000_0000_0000_0000_0000_0000_0000_0000_0000_0000_0000_0000_0000_0000_0000_0000_0000_0000_0000_0000_0000_0000_0000_0000;
    assert Pow(TWO32, 16) == 0x1_0000_0000_0000_0000_0000_0000_0000_0000_0000_0000_0000_0000_0000_0000_0000_0000_0000_0000_0000_0000_0000_0000_0000_0000_0000_0000_0000_0000_0000_0000_0000_0000;
    assert Pow(R1, 1) == 656356768;
    assert Pow(R1, 2) == 430804206899405824;
    assert Pow(R1, 3) == 282761256881297307761016832;
    assert Pow(R1, 4) == 185592264682226060569122324245118976;
    assert Pow(R1, 5) == 121814739012626444160521369338174330862829568;
    assert Pow(R1, 6) == 79953928393091004080532279173738402825689466587316224;
    assert Pow(R1, 7) == 52478302028992644968172978478148648556151605660894866578604032;
    assert Pow(R1, 8) == 34444488709877454747081479018851205589883534409595458615323760395288576;
    assert Pow(R1, 9) == 22607873285027655873860657001472988373879490141498863404231658646658012170682368;
    assert Pow(R1, 10) == 14838830640714294999983396511843381888381117770762056659674968992599706869653743415066624;
    assert Pow(R1, 11) == 9739566920238603877587662188175995858447567212244748406177138578482959518713328307014411833311232;
    assert Pow(R1, 12) == 6392630665487523829925705590507004456832030712891733088851577912861189652777515686114891080333114973618176;
    assert Pow(R1, 13) == 4195846402617080285333017801504708926647867197590353864117278510585756073132092418807672386159471707456431265415168;
    assert Pow(R1, 14) == 2753972183846173557677697367882096287875343187903622050228328096163920642997351817085906260982478782493544726182049846657024;
    assert Pow(R1, 15) == 1807588281751176285484395030065199724574657841703238064381399091241744151446223671221432611809424278306037997340295216966699877138432;
    assert Pow(R1, 16) == 1186422802484875446938782836368857320496312595686192951071951026845568297926145894647994121417032351249683614819468764774121894984578316107776;
    assert Pow(R1, 17) == 778716636120475217235294996332936046734099891222280347589967911434638443150066222107625919216282934217683098445463421924094897030113233403382195027968;
    assert Pow(R1, 18) == 511115934471867172208656119319657755585090759991807498534067927572949531794529204528531496489828559676675086943890195876319267939977920550673577797302746087424;
  }

  /**
    INTERMEDIATE_SZ is ceil(log_(58^5)(256^N - 1)): the smallest number of
    base-58^5 digits that holds every N-byte value.
  */
  lemma IntermediateSzMinimal(sz: Size)
    ensures Pow(R1, sz.IntermediateSz() - 1) < Pow(256, sz.N()) - 1 <= Pow(R1, sz.IntermediateSz())
  {
    PowValues();
    match sz
    case Size32 => PowMul(256, 4, 8);
    case Size64 => PowMul(256, 4, 16);
  }

  /**
    FD_BASE58_ENCODED_N_LEN is ceil(log_58(256^N - 1)): the smallest number
    of base-58 digits that holds every N-byte value.
  */
  lemma EncodedLenIsCeilLog(sz: Size)
    ensures Pow(58, sz.EncodedLen() - 1) < Pow(256, sz.N()) - 1 <= Pow(58, sz.EncodedLen())
    ensures Pow(256, sz.N()) < Pow(58, sz.EncodedLen())
  {
    PowFiftyEight();
    PowValues();
    match sz
    case Size32 => PowMul(256, 4, 8);
    case Size64 => PowMul(256, 4, 16);
  }

  lemma PowFiftyEight()
    ensures Pow(58, 43) == 6720533081161609950612561534326096425053356165724989121353049538245544640512 && Pow(58, 44) == 389790918707373377135528568990913592653094657612049369038476873218241589149696
    ensures Pow(58, 87) == 2619602763909278630779532367663996861213512034071751089292652054066123722756822771170053592243575790708285943170538951352655233609300917168977704074084352 && Pow(58, 88) == 151936960306738160585212877324511817950383697976161563178973819135835175919895720727863108350127395861080584703891259178454003549339453195800706836296892416
  {
    PowValues();
    assert Pow(58, 3) == 195112 && Pow(58, 4) == 11316496 && Pow(58, 2) == 3364;
    PowMul(58, 5, 8);
    PowMul(58, 5, 17);
    PowAdd(58, 40, 3);
    PowAdd(58, 40, 4);
    PowAdd(58, 85, 2);
    PowAdd(58, 85, 3);
  }

  /** 256^N fits in RAW58_SZ base-58 digits, so the raw digits never lose a value. */
  lemma Raw58SzHolds(sz: Size)
    ensures Pow(256, sz.N()) <= Pow(58, sz.Raw58Sz())
  {
    IntermediateSzMinimal(sz);
    PowValues();
    PowMul(58, 5, sz.IntermediateSz());
  }

  // ---------------------------------------------------------------------
  // Conversion tables

  /** enc_table_32: row i is the base-58^5 expansion of 2^(32*(7-i)), 8 columns wide. */
  const ENC_TABLE_32: seq<seq<nat>> := [
    [   513735,  77223048, 437087610, 300156666, 605448490, 214625350, 141436834, 379377856],
    [        0,     78508, 646269101, 118408823,  91512303, 209184527, 413102373, 153715680],
    [        0,         0,     11997, 486083817,   3737691, 294005210, 247894721, 289024608],
    [        0,         0,         0,      1833, 324463681, 385795061, 551597588,  21339008],
    [        0,         0,         0,         0,       280, 127692781, 389432875, 357132832],
    [        0,         0,         0,         0,         0,        42, 537767569, 410450016],
    [        0,         0,         0,         0,         0,         0,         6, 356826688],
    [        0,         0,         0,         0,         0,         0,         0,         1]
  ]

  /** dec_table_32: row i is the base-2^32 expansion of 58^(5*(8-i)), 8 columns wide. */
  const DEC_TABLE_32: seq<seq<nat>> := [
    [      1277, 2650397687, 3801011509, 2074386530, 3248244966,  687255411, 2959155456,          0],
    [         0,       8360, 1184754854, 3047609191, 3418394749,  132556120, 1199103528,          0],
    [         0,          0,      54706, 2996985344, 1834629191, 3964963911,  485140318, 1073741824],
    [         0,          0,          0,     357981, 1476998812, 3337178590, 1483338760, 4194304000],
    [         0,          0,          0,          0,    2342503, 3052466824, 2595180627,   17825792],
    [         0,          0,          0,          0,          0,   15328518, 1933902296, 4063920128],
    [         0,          0,          0,          0,          0,          0,  100304420, 3355157504],
    [         0,          0,          0,          0,          0,          0,          0,  656356768],
    [         0,          0,          0,          0,          0,          0,          0,          1]
  ]

  /** enc_table_64: row i is the base-58^5 expansion of 2^(32*(15-i)), 17 columns wide. */
  const ENC_TABLE_64: seq<seq<nat>> := [
    [     2631, 149457141, 577092685, 632289089,  81912456, 221591423, 502967496, 403284731, 377738089, 492128779,    746799, 366351977, 190199623,  38066284, 526403762, 650603058, 454901440],
    [        0,       402,  68350375,  30641941, 266024478, 208884256, 571208415, 337765723, 215140626, 129419325, 480359048, 398051646, 635841659, 214020719, 136986618, 626219915,  49699360],
    [        0,         0,        61, 295059608, 141201404, 517024870, 239296485, 527697587, 212906911, 453637228, 467589845, 144614682,  45134568, 184514320, 644355351, 104784612, 308625792],
    [        0,         0,         0,         9, 256449755, 500124311, 479690581, 372802935, 413254725, 487877412, 520263169, 176791855,  78190744, 291820402,  74998585, 496097732,  59100544],
    [        0,         0,         0,         0,         1, 285573662, 455976778, 379818553, 100001224, 448949512, 109507367, 117185012, 347328982, 522665809,  36908802, 577276849,  64504928],
    [        0,         0,         0,         0,         0,         0, 143945778, 651677945, 281429047, 535878743, 264290972, 526964023, 199595821, 597442702, 499113091, 424550935, 458949280],
    [        0,         0,         0,         0,         0,         0,         0,  21997789, 294590275, 148640294, 595017589, 210481832, 404203788, 574729546, 160126051, 430102516,  44963712],
    [        0,         0,         0,         0,         0,         0,         0,         0,   3361701, 325788598,  30977630, 513969330, 194569730, 164019635, 136596846, 626087230, 503769920],
    [        0,         0,         0,         0,         0,         0,         0,         0,         0,    513735,  77223048, 437087610, 300156666, 605448490, 214625350, 141436834, 379377856],
    [        0,         0,         0,         0,         0,         0,         0,         0,         0,         0,     78508, 646269101, 118408823,  91512303, 209184527, 413102373, 153715680],
    [        0,         0,         0,         0,         0,         0,         0,         0,         0,         0,         0,     11997, 486083817,   3737691, 294005210, 247894721, 289024608],
    [        0,         0,         0,         0,         0,         0,         0,         0,         0,         0,         0,         0,      1833, 324463681, 385795061, 551597588,  21339008],
    [        0,         0,         0,         0,         0,         0,         0,         0,         0,         0,         0,         0,         0,       280, 127692781, 389432875, 357132832],
    [        0,         0,         0,         0,         0,         0,         0,         0,         0,         0,         0,         0,         0,         0,        42, 537767569, 410450016],
    [        0,         0,         0,         0,         0,         0,         0,         0,         0,         0,         0,         0,         0,         0,         0,         6, 356826688],
    [        0,         0,         0,         0,         0,         0,         0,         0,         0,         0,         0,         0,         0,         0,         0,         0,         1]
  ]

  /** dec_table_64: row i is the base-2^32 expansion of 58^(5*(17-i)), 16 columns wide. */
  const DEC_TABLE_64: seq<seq<nat>> := [
    [    249448, 3719864065,  173911550, 4021557284, 3115810883, 2498525019, 1035889824,  627529458, 3840888383, 3728167192, 2901437456, 3863405776, 1540739182, 1570766848,          0,          0],
    [         0,    1632305, 1882780341, 4128706713, 1023671068, 2618421812, 2005415586, 1062993857, 3577221846, 3960476767, 1695615427, 2597060712,  669472826,  104923136,          0,          0],
    [         0,          0,   10681231, 1422956801, 2406345166, 4058671871, 2143913881, 4169135587, 2414104418, 2549553452,  997594232,  713340517, 2290070198, 1103833088,          0,          0],
    [         0,          0,          0,   69894212, 1038812943, 1785020643, 1285619000, 2301468615, 3492037905,  314610629, 2761740102, 3410618104, 1699516363,  910779968,          0,          0],
    [         0,          0,          0,          0,  457363084,  927569770, 3976106370, 1389513021, 2107865525, 3716679421, 1828091393, 2088408376,  439156799, 2579227194,          0,          0],
    [         0,          0,          0,          0,          0, 2992822783,  383623235, 3862831115,  112778334,  339767049, 1447250220,  486575164, 3495303162, 2209946163,  268435456,          0],
    [         0,          0,          0,          0,          0,          4, 2404108010, 2962826229, 3998086794, 1893006839, 2266258239, 1429430446,  307953032, 2361423716,  176160768,          0],
    [         0,          0,          0,          0,          0,          0,         29, 3596590989, 3044036677, 1332209423, 1014420882,  868688145, 4264082837, 3688771808, 2485387264,          0],
    [         0,          0,          0,          0,          0,          0,          0,        195, 1054003707, 3711696540,  582574436, 3549229270, 1088536814, 2338440092, 1468637184,          0],
    [         0,          0,          0,          0,          0,          0,          0,          0,       1277, 2650397687, 3801011509, 2074386530, 3248244966,  687255411, 2959155456,          0],
    [         0,          0,          0,          0,          0,          0,          0,          0,          0,       8360, 1184754854, 3047609191, 3418394749,  132556120, 1199103528,          0],
    [         0,          0,          0,          0,          0,          0,          0,          0,          0,          0,      54706, 2996985344, 1834629191, 3964963911,  485140318, 1073741824],
    [         0,          0,          0,          0,          0,          0,          0,          0,          0,          0,          0,     357981, 1476998812, 3337178590, 1483338760, 4194304000],
    [         0,          0,          0,          0,          0,          0,          0,          0,          0,          0,          0,          0,    2342503, 3052466824, 2595180627,   17825792],
    [         0,          0,          0,          0,          0,          0,          0,          0,          0,          0,          0,          0,          0,   15328518, 1933902296, 4063920128],
    [         0,          0,          0,          0,          0,          0,          0,          0,          0,          0,          0,          0,          0,          0,  100304420, 3355157504],
    [         0,          0,          0,          0,          0,          0,          0,          0,          0,          0,          0,          0,          0,          0,          0,  656356768],
    [         0,          0,          0,          0,          0,          0,          0,          0,          0,          0,          0,          0,          0,          0,          0,          1]
  ]

  /** enc_table_N: BINARY_SZ rows of INTERMEDIATE_SZ-1 base-58^5 digits. */
  function EncTable(sz: Size): (t: seq<seq<nat>>)
    ensures |t| == sz.BinarySz() && IsTable(t, sz.IntermediateSz() - 1)
  {
    match sz
    case Size32 => ENC_TABLE_32
    case Size64 => ENC_TABLE_64
  }

  /** dec_table_N: INTERMEDIATE_SZ rows of BINARY_SZ base-2^32 digits. */
  function DecTable(sz: Size): (t: seq<seq<nat>>)
    ensures |t| == sz.IntermediateSz() && IsTable(t, sz.BinarySz())
  {
    match sz
    case Size32 => DEC_TABLE_32
    case Size64 => DEC_TABLE_64
  }

  /** Row i of enc_table_N is 2^(32*(BINARY_SZ-1-i)) written in base 58^5. */
  lemma EncTableRows(sz: Size)
    ensures forall i | 0 <= i < sz.BinarySz() ::
      Val(EncTable(sz)[i], R1) == Pow(TWO32, sz.BinarySz() - 1 - i)
  {
    match sz
    case Size32 => Enc32Rows();
    case Size64 => Enc64Rows();
  }

  /** Row i of dec_table_N is 58^(5*(INTERMEDIATE_SZ-1-i)) written in base 2^32. */
  lemma DecTableRows(sz: Size)
    ensures forall i | 0 <= i < sz.IntermediateSz() ::
      Val(DecTable(sz)[i], TWO32) == Pow(R1, sz.IntermediateSz() - 1 - i)
  {
    match sz
    case Size32 => Dec32Rows();
    case Size64 => Dec64Rows();
  }

  /** A table whose entries are digits below b holds, row by row, the fixed-width expansion of each row's value. */
  lemma RowsAreDigits(t: seq<seq<nat>>, b: nat)
    requires b >= 2
    requires forall i, j | 0 <= i < |t| && 0 <= j < |t[i]| :: t[i][j] < b
    ensures forall i | 0 <= i < |t| :: t[i] == DigitsN(Val(t[i], b), b, |t[i]|)
  {
    forall i | 0 <= i < |t|
      ensures t[i] == DigitsN(Val(t[i], b), b, |t[i]|)
    {
      DigitsNUnique(t[i], b);
    }
  }

  /**
    The entries of enc_table_N are below 58^5, so each row is the unique
    (INTERMEDIATE_SZ-1)-digit base-58^5 expansion of its power of 2^32.
  */
  lemma EncTableUnique(sz: Size)
    ensures forall i | 0 <= i < sz.BinarySz() ::
      EncTable(sz)[i] == DigitsN(Pow(TWO32, sz.BinarySz() - 1 - i), R1, sz.IntermediateSz() - 1)
  {
    EncTableEntries(sz);
    EncTableRows(sz);
    RowsAreDigits(EncTable(sz), R1);
  }

  /** Every entry of enc_table_N is a base-58^5 digit. */
  lemma EncTableEntries(sz: Size)
    ensures forall i, j | 0 <= i < sz.BinarySz() && 0 <= j < sz.IntermediateSz() - 1 :: EncTable(sz)[i][j] < R1
  {
    match sz {
    case Size32 =>
      Enc32Entries();
    case Size64 =>
      Enc64EntriesLow();
      Enc64EntriesHigh();
    }
  }

  /**
    The entries of dec_table_N are below 2^32, so each row is the unique
    BINARY_SZ-digit base-2^32 expansion of its power of 58^5.
  */
  lemma DecTableUnique(sz: Size)
    ensures forall i | 0 <= i < sz.IntermediateSz() ::
      DecTable(sz)[i] == DigitsN(Pow(R1, sz.IntermediateSz() - 1 - i), TWO32, sz.BinarySz())
  {
    DecTableEntries(sz);
    DecTableRows(sz);
    RowsAreDigits(DecTable(sz), TWO32);
  }

  /** Every entry of dec_table_N is a base-2^32 digit. */
  lemma DecTableEntries(sz: Size)
    ensures forall i, j | 0 <= i < sz.IntermediateSz() && 0 <= j < sz.BinarySz() :: DecTable(sz)[i][j] < TWO32
  {
    match sz {
    case Size32 =>
      Dec32Entries();
    case Size64 =>
      Dec64EntriesLow();
      Dec64EntriesHigh();
    }
  }

  // ---------------------------------------------------------------------
  // Column bounds: no 64-bit accumulator overflows

  /**
    With every limb at most 2^32-1, column k of the 32-byte encoding
    accumulates at most LIMB_MAX times its column sum, which stays at most
    SAFE_LIMIT.
  */
  lemma EncColumnBound32(k: nat)
    requires k < 8
    ensures LIMB_MAX * ColSum(ENC_TABLE_32, 0, 8, k) <= SAFE_LIMIT
  {
    if k == 0 {
      Enc32Col0();
    } else if k == 1 {
      Enc32Col1();
    } else if k == 2 {
      Enc32Col2();
    } else if k == 3 {
      Enc32Col3();
    } else if k == 4 {
      Enc32Col4();
    } else if k == 5 {
      Enc32Col5();
    } else if k == 6 {
      Enc32Col6();
    } else {
      Enc32Col7();
    }
  }

  /**
    The 64-byte encoding: the first eight rows never overflow a column.
  */
  lemma EncColumnBound64First(k: nat)
    requires k < 17
    ensures LIMB_MAX * ColSum(ENC_TABLE_64, 0, 8, k) < TWO64
  {
    if k == 0 {
      Enc64LowCol0();
    } else if k == 1 {
      Enc64LowCol1();
    } else if k == 2 {
      Enc64LowCol2();
    } else if k == 3 {
      Enc64LowCol3();
    } else if k == 4 {
      Enc64LowCol4();
    } else if k == 5 {
      Enc64LowCol5();
    } else if k == 6 {
      Enc64LowCol6();
    } else if k == 7 {
      Enc64LowCol7();
    } else if k == 8 {
      Enc64LowCol8();
    } else if k == 9 {
      Enc64LowCol9();
    } else if k == 10 {
      Enc64LowCol10();
    } else if k == 11 {
      Enc64LowCol11();
    } else if k == 12 {
      Enc64LowCol12();
    } else if k == 13 {
      Enc64LowCol13();
    } else if k == 14 {
      Enc64LowCol14();
    } else if k == 15 {
      Enc64LowCol15();
    } else {
      Enc64LowCol16();
    }
  }

  /**
    The 64-byte encoding: all sixteen rows keep every column other than 14
    and 15 (intermediate[15] and intermediate[16]) at most SAFE_LIMIT.
  */
  lemma EncColumnBound64(k: nat)
    requires k < 17 && k != 14 && k != 15
    ensures LIMB_MAX * ColSum(ENC_TABLE_64, 0, 16, k) <= SAFE_LIMIT
  {
    if k == 0 {
      Enc64Col0();
    } else if k == 1 {
      Enc64Col1();
    } else if k == 2 {
      Enc64Col2();
    } else if k == 3 {
      Enc64Col3();
    } else if k == 4 {
      Enc64Col4();
    } else if k == 5 {
      Enc64Col5();
    } else if k == 6 {
      Enc64Col6();
    } else if k == 7 {
      Enc64Col7();
    } else if k == 8 {
      Enc64Col8();
    } else if k == 9 {
      Enc64Col9();
    } else if k == 10 {
      Enc64Col10();
    } else if k == 11 {
      Enc64Col11();
    } else if k == 12 {
      Enc64Col12();
    } else if k == 13 {
      Enc64Col13();
    } else {
      Enc64Col16();
    }
  }

  /**
    The 64-byte encoding around the mini-reduction: column 14 receives the
    quotient of column 15 by 58^5 and then the last eight rows; column 15
    restarts below 58^5 and receives the last eight rows.  Both stay at
    most SAFE_LIMIT.
  */
  lemma EncColumnBounds64Reduced()
    ensures LIMB_MAX * ColSum(ENC_TABLE_64, 0, 8, 14) + LIMB_MAX * ColSum(ENC_TABLE_64, 0, 8, 15) / R1
            + LIMB_MAX * ColSum(ENC_TABLE_64, 8, 16, 14) <= SAFE_LIMIT
    ensures R1 - 1 + LIMB_MAX * ColSum(ENC_TABLE_64, 8, 16, 15) <= SAFE_LIMIT
  {
    Enc64LowCol14();
    Enc64LowCol15();
    Enc64HighCol14();
    Enc64HighCol15();
  }

  /**
    Without the mini-reduction, all sixteen rows of column 15 of the 64-byte
    encoding can exceed 64 bits: the reduction is necessary.
  */
  lemma MiniReductionNeeded()
    ensures LIMB_MAX * ColSum(ENC_TABLE_64, 0, 16, 15) >= TWO64
  {
    ColSumSplit(ENC_TABLE_64, 0, 8, 16, 15);
    Enc64LowCol15();
    Enc64HighCol15();
  }

  /**
    With every intermediate digit at most 58^5-1, column k of the decoding
    accumulates at most (58^5-1) times its column sum, which stays at most
    SAFE_LIMIT.
  */
  lemma DecColumnBound(sz: Size, k: nat)
    requires k < sz.BinarySz()
    ensures (R1 - 1) * ColSum(DecTable(sz), 0, sz.IntermediateSz(), k) <= SAFE_LIMIT
  {
    match sz
    case Size32 => DecColumnBound32(k);
    case Size64 => DecColumnBound64(k);
  }

  /**
    Column k of dec_table_32.
  */
  lemma DecColumnBound32(k: nat)
    requires k < 8
    ensures (R1 - 1) * ColSum(DEC_TABLE_32, 0, 9, k) <= SAFE_LIMIT
  {
    if k == 0 {
      Dec32Col0();
    } else if k == 1 {
      Dec32Col1();
    } else if k == 2 {
      Dec32Col2();
    } else if k == 3 {
      Dec32Col3();
    } else if k == 4 {
      Dec32Col4();
    } else if k == 5 {
      Dec32Col5();
    } else if k == 6 {
      Dec32Col6();
    } else {
      Dec32Col7();
    }
  }

  /**
    Column k of dec_table_64.
  */
  lemma DecColumnBound64(k: nat)
    requires k < 16
    ensures (R1 - 1) * ColSum(DEC_TABLE_64, 0, 18, k) <= SAFE_LIMIT
  {
    if k == 0 {
      Dec64Col0();
    } else if k == 1 {
      Dec64Col1();
    } else if k == 2 {
      Dec64Col2();
    } else if k == 3 {
      Dec64Col3();
    } else if k == 4 {
      Dec64Col4();
    } else if k == 5 {
      Dec64Col5();
    } else if k == 6 {
      Dec64Col6();
    } else if k == 7 {
      Dec64Col7();
    } else if k == 8 {
      Dec64Col8();
    } else if k == 9 {
      Dec64Col9();
    } else if k == 10 {
      Dec64Col10();
    } else if k == 11 {
      Dec64Col11();
    } else if k == 12 {
      Dec64Col12();
    } else if k == 13 {
      Dec64Col13();
    } else if k == 14 {
      Dec64Col14();
    } else {
      Dec64Col15();
    }
  }


  // ---------------------------------------------------------------------
  // The overflow analysis of the accumulations, as properties of a table

  /**
    Row i of an encoding table with n rows is worth 2^(32*(n-1-i)) in base
    58^5: the contribution of limb i.
  */
  ghost predicate EncRows(t: seq<seq<nat>>)
  {
    forall i | 0 <= i < |t| :: Val(t[i], R1) == Pow(TWO32, |t| - 1 - i)
  }

  /**
    Row i of a decoding table with n rows is worth 58^(5*(n-1-i)) in base
    2^32: the contribution of intermediate digit i.
  */
  ghost predicate DecRows(t: seq<seq<nat>>)
  {
    forall i | 0 <= i < |t| :: Val(t[i], TWO32) == Pow(R1, |t| - 1 - i)
  }

  /**
    The 32-byte accumulation cannot overflow: with every limb at most
    LIMB_MAX, every column of the 8 x 8 table sums to at most SAFE_LIMIT.
  */
  ghost predicate EncFits32(t: seq<seq<nat>>)
  {
    |t| == 8 && IsTable(t, 8) &&
    forall k | 0 <= k < 8 :: LIMB_MAX * ColSum(t, 0, 8, k) <= SAFE_LIMIT
  }

  /**
    The 64-byte accumulation cannot overflow when intermediate[16] is
    reduced after the first eight rows: the first eight rows fit in 64 bits
    in every column; all rows fit within SAFE_LIMIT in every column but the
    two the reduction touches (columns 14 and 15, that is intermediate[15]
    and intermediate[16]); column 14 fits with the reduction's quotient
    added, and column 15 fits once it starts below 58^5.
  */
  ghost predicate EncFits64(t: seq<seq<nat>>)
  {
    |t| == 16 && IsTable(t, 17) &&
    (forall k | 0 <= k < 17 :: LIMB_MAX * ColSum(t, 0, 8, k) < TWO64) &&
    (forall k | 0 <= k < 17 && k != 14 && k != 15 :: LIMB_MAX * ColSum(t, 0, 16, k) <= SAFE_LIMIT) &&
    LIMB_MAX * ColSum(t, 0, 8, 14) + LIMB_MAX * ColSum(t, 0, 8, 15) / R1 + LIMB_MAX * ColSum(t, 8, 16, 14) <= SAFE_LIMIT &&
    R1 - 1 + LIMB_MAX * ColSum(t, 8, 16, 15) <= SAFE_LIMIT
  }

  /**
    The decoding accumulation cannot overflow: with every intermediate
    digit at most 58^5 - 1, every column of the table sums to at most
    SAFE_LIMIT.
  */
  ghost predicate DecFits(t: seq<seq<nat>>, cols: nat)
  {
    IsTable(t, cols) &&
    forall k | 0 <= k < cols :: (R1 - 1) * ColSum(t, 0, |t|, k) <= SAFE_LIMIT
  }

  lemma EncTableFits32()
    ensures EncFits32(EncTable(Size32)) && EncRows(EncTable(Size32))
  {
    EncTableRows(Size32);
    forall k | 0 <= k < 8
      ensures LIMB_MAX * ColSum(ENC_TABLE_32, 0, 8, k) <= SAFE_LIMIT
    {
      EncColumnBound32(k);
    }
  }

  lemma EncTableFits64()
    ensures EncFits64(EncTable(Size64)) && EncRows(EncTable(Size64))
  {
    EncTableRows(Size64);
    EncFirstRowsFit64();
    EncAllRowsFit64();
    EncColumnBounds64Reduced();
  }

  lemma EncFirstRowsFit64()
    ensures forall k | 0 <= k < 17 :: LIMB_MAX * ColSum(ENC_TABLE_64, 0, 8, k) < TWO64
  {
    forall k | 0 <= k < 17
      ensures LIMB_MAX * ColSum(ENC_TABLE_64, 0, 8, k) < TWO64
    {
      EncColumnBound64First(k);
    }
  }

  lemma EncAllRowsFit64()
    ensures forall k | 0 <= k < 17 && k != 14 && k != 15 :: LIMB_MAX * ColSum(ENC_TABLE_64, 0, 16, k) <= SAFE_LIMIT
  {
    forall k | 0 <= k < 17 && k != 14 && k != 15
      ensures LIMB_MAX * ColSum(ENC_TABLE_64, 0, 16, k) <= SAFE_LIMIT
    {
      EncColumnBound64(k);
    }
  }

  lemma DecTableFits(sz: Size)
    ensures DecFits(DecTable(sz), sz.BinarySz()) && DecRows(DecTable(sz))
  {
    DecTableRows(sz);
    forall k | 0 <= k < sz.BinarySz()
      ensures (R1 - 1) * ColSum(DecTable(sz), 0, sz.IntermediateSz(), k) <= SAFE_LIMIT
    {
      DecColumnBound(sz, k);
    }
  }

  // ---------------------------------------------------------------------
  // Row values, one row at a time

  lemma Enc32Row0()
    ensures Val(ENC_TABLE_32[0], R1) == 0x1_0000_0000_0000_0000_0000_0000_0000_0000_0000_0000_0000_0000_0000_0000
  {
    ValUnroll8R1(ENC_TABLE_32[0]);
  }
  lemma Enc32Row1()
    ensures Val(ENC_TABLE_32[1], R1) == 0x1_0000_0000_0000_0000_0000_0000_0000_0000_0000_0000_0000_0000
  {
    ValUnroll8R1(ENC_TABLE_32[1]);
  }
  lemma Enc32Row2()
    ensures Val(ENC_TABLE_32[2], R1) == 0x1_0000_0000_0000_0000_0000_0000_0000_0000_0000_0000
  {
    ValUnroll8R1(ENC_TABLE_32[2]);
  }
  lemma Enc32Row3()
    ensures Val(ENC_TABLE_32[3], R1) == 0x1_0000_0000_0000_0000_0000_0000_0000_0000
  {
    ValUnroll8R1(ENC_TABLE_32[3]);
  }
  lemma Enc32Row4()
    ensures Val(ENC_TABLE_32[4], R1) == 0x1_0000_0000_0000_0000_0000_0000
  {
    ValUnroll8R1(ENC_TABLE_32[4]);
  }
  lemma Enc32Row5()
    ensures Val(ENC_TABLE_32[5], R1) == 0x1_0000_0000_0000_0000
  {
    ValUnroll8R1(ENC_TABLE_32[5]);
  }
  lemma Enc32Row6()
    ensures Val(ENC_TABLE_32[6], R1) == 0x1_0000_0000
  {
    ValUnroll8R1(ENC_TABLE_32[6]);
  }
  lemma Enc32Row7()
    ensures Val(ENC_TABLE_32[7], R1) == 0x1
  {
    ValUnroll8R1(ENC_TABLE_32[7]);
  }
  lemma Enc32Step0()
    ensures Val(ENC_TABLE_32[0], R1) == TWO32 * Val(ENC_TABLE_32[1], R1)
  {
    Enc32Row0();
    Enc32Row1();
  }
  lemma Enc32Step1()
    ensures Val(ENC_TABLE_32[1], R1) == TWO32 * Val(ENC_TABLE_32[2], R1)
  {
    Enc32Row1();
    Enc32Row2();
  }
  lemma Enc32Step2()
    ensures Val(ENC_TABLE_32[2], R1) == TWO32 * Val(ENC_TABLE_32[3], R1)
  {
    Enc32Row2();
    Enc32Row3();
  }
  lemma Enc32Step3()
    ensures Val(ENC_TABLE_32[3], R1) == TWO32 * Val(ENC_TABLE_32[4], R1)
  {
    Enc32Row3();
    Enc32Row4();
  }
  lemma Enc32Step4()
    ensures Val(ENC_TABLE_32[4], R1) == TWO32 * Val(ENC_TABLE_32[5], R1)
  {
    Enc32Row4();
    Enc32Row5();
  }
  lemma Enc32Step5()
    ensures Val(ENC_TABLE_32[5], R1) == TWO32 * Val(ENC_TABLE_32[6], R1)
  {
    Enc32Row5();
    Enc32Row6();
  }
  lemma Enc32Step6()
    ensures Val(ENC_TABLE_32[6], R1) == TWO32 * Val(ENC_TABLE_32[7], R1)
  {
    Enc32Row6();
    Enc32Row7();
  }
  /** Row i of enc_table_32 is worth 2^(32*(7-i)) in base 58^5. */
  lemma Enc32Rows()
    ensures forall i | 0 <= i < 8 :: Val(ENC_TABLE_32[i], R1) == Pow(TWO32, 7 - i)
  {
    Enc32Row7();
    forall j | 0 <= j < 7
      ensures Val(ENC_TABLE_32[j], R1) == TWO32 * Val(ENC_TABLE_32[j + 1], R1)
    {
      if j == 0 {
        Enc32Step0();
      } else if j == 1 {
        Enc32Step1();
      } else if j == 2 {
        Enc32Step2();
      } else if j == 3 {
        Enc32Step3();
      } else if j == 4 {
        Enc32Step4();
      } else if j == 5 {
        Enc32Step5();
      } else {
        Enc32Step6();
      }
    }
    forall i | 0 <= i < 8
      ensures Val(ENC_TABLE_32[i], R1) == Pow(TWO32, 7 - i)
    {
      RowPowers(ENC_TABLE_32, R1, TWO32, i);
    }
  }
  lemma Enc64Row0()
    ensures Val(ENC_TABLE_64[0], R1) == 0x1_0000_0000_0000_0000_0000_0000_0000_0000_0000_0000_0000_0000_0000_0000_0000_0000_0000_0000_0000_0000_0000_0000_0000_0000_0000_0000_0000_0000_0000_0000
  {
    ValUnroll17R1(ENC_TABLE_64[0]);
  }
  lemma Enc64Row1()
    ensures Val(ENC_TABLE_64[1], R1) == 0x1_0000_0000_0000_0000_0000_0000_0000_0000_0000_0000_0000_0000_0000_0000_0000_0000_0000_0000_0000_0000_0000_0000_0000_0000_0000_0000_0000_0000
  {
    ValUnroll17R1(ENC_TABLE_64[1]);
  }
  lemma Enc64Row2()
    ensures Val(ENC_TABLE_64[2], R1) == 0x1_0000_0000_0000_0000_0000_0000_0000_0000_0000_0000_0000_0000_0000_0000_0000_0000_0000_0000_0000_0000_0000_0000_0000_0000_0000_0000
  {
    ValUnroll17R1(ENC_TABLE_64[2]);
  }
  lemma Enc64Row3()
    ensures Val(ENC_TABLE_64[3], R1) == 0x1_0000_0000_0000_0000_0000_0000_0000_0000_0000_0000_0000_0000_0000_0000_0000_0000_0000_0000_0000_0000_0000_0000_0000_0000
  {
    ValUnroll17R1(ENC_TABLE_64[3]);
  }
  lemma Enc64Row4()
    ensures Val(ENC_TABLE_64[4], R1) == 0x1_0000_0000_0000_0000_0000_0000_0000_0000_0000_0000_0000_0000_0000_0000_0000_0000_0000_0000_0000_0000_0000_0000
  {
    ValUnroll17R1(ENC_TABLE_64[4]);
  }
  lemma Enc64Row5()
    ensures Val(ENC_TABLE_64[5], R1) == 0x1_0000_0000_0000_0000_0000_0000_0000_0000_0000_0000_0000_0000_0000_0000_0000_0000_0000_0000_0000_0000
  {
    ValUnroll17R1(ENC_TABLE_64[5]);
  }
  lemma Enc64Row6()
    ensures Val(ENC_TABLE_64[6], R1) == 0x1_0000_0000_0000_0000_0000_0000_0000_0000_0000_0000_0000_0000_0000_0000_0000_0000_0000_0000
  {
    ValUnroll17R1(ENC_TABLE_64[6]);
  }
  lemma Enc64Row7()
    ensures Val(ENC_TABLE_64[7], R1) == 0x1_0000_0000_0000_0000_0000_0000_0000_0000_0000_0000_0000_0000_0000_0000_0000_0000
  {
    ValUnroll17R1(ENC_TABLE_64[7]);
  }
  lemma Enc64Row8()
    ensures Val(ENC_TABLE_64[8], R1) == 0x1_0000_0000_0000_0000_0000_0000_0000_0000_0000_0000_0000_0000_0000_0000
  {
    ValUnroll17R1(ENC_TABLE_64[8]);
  }
  lemma Enc64Row9()
    ensures Val(ENC_TABLE_64[9], R1) == 0x1_0000_0000_0000_0000_0000_0000_0000_0000_0000_0000_0000_0000
  {
    ValUnroll17R1(ENC_TABLE_64[9]);
  }
  lemma Enc64Row10()
    ensures Val(ENC_TABLE_64[10], R1) == 0x1_0000_0000_0000_0000_0000_0000_0000_0000_0000_0000
  {
    ValUnroll17R1(ENC_TABLE_64[10]);
  }
  lemma Enc64Row11()
    ensures Val(ENC_TABLE_64[11], R1) == 0x1_0000_0000_0000_0000_0000_0000_0000_0000
  {
    ValUnroll17R1(ENC_TABLE_64[11]);
  }
  lemma Enc64Row12()
    ensures Val(ENC_TABLE_64[12], R1) == 0x1_0000_0000_0000_0000_0000_0000
  {
    ValUnroll17R1(ENC_TABLE_64[12]);
  }
  lemma Enc64Row13()
    ensures Val(ENC_TABLE_64[13], R1) == 0x1_0000_0000_0000_0000
  {
    ValUnroll17R1(ENC_TABLE_64[13]);
  }
  lemma Enc64Row14()
    ensures Val(ENC_TABLE_64[14], R1) == 0x1_0000_0000
  {
    ValUnroll17R1(ENC_TABLE_64[14]);
  }
  lemma Enc64Row15()
    ensures Val(ENC_TABLE_64[15], R1) == 0x1
  {
    ValUnroll17R1(ENC_TABLE_64[15]);
  }
  lemma Enc64Step0()
    ensures Val(ENC_TABLE_64[0], R1) == TWO32 * Val(ENC_TABLE_64[1], R1)
  {
    Enc64Row0();
    Enc64Row1();
  }
  lemma Enc64Step1()
    ensures Val(ENC_TABLE_64[1], R1) == TWO32 * Val(ENC_TABLE_64[2], R1)
  {
    Enc64Row1();
    Enc64Row2();
  }
  lemma Enc64Step2()
    ensures Val(ENC_TABLE_64[2], R1) == TWO32 * Val(ENC_TABLE_64[3], R1)
  {
    Enc64Row2();
    Enc64Row3();
  }
  lemma Enc64Step3()
    ensures Val(ENC_TABLE_64[3], R1) == TWO32 * Val(ENC_TABLE_64[4], R1)
  {
    Enc64Row3();
    Enc64Row4();
  }
  lemma Enc64Step4()
    ensures Val(ENC_TABLE_64[4], R1) == TWO32 * Val(ENC_TABLE_64[5], R1)
  {
    Enc64Row4();
    Enc64Row5();
  }
  lemma Enc64Step5()
    ensures Val(ENC_TABLE_64[5], R1) == TWO32 * Val(ENC_TABLE_64[6], R1)
  {
    Enc64Row5();
    Enc64Row6();
  }
  lemma Enc64Step6()
    ensures Val(ENC_TABLE_64[6], R1) == TWO32 * Val(ENC_TABLE_64[7], R1)
  {
    Enc64Row6();
    Enc64Row7();
  }
  lemma Enc64Step7()
    ensures Val(ENC_TABLE_64[7], R1) == TWO32 * Val(ENC_TABLE_64[8], R1)
  {
    Enc64Row7();
    Enc64Row8();
  }
  lemma Enc64Step8()
    ensures Val(ENC_TABLE_64[8], R1) == TWO32 * Val(ENC_TABLE_64[9], R1)
  {
    Enc64Row8();
    Enc64Row9();
  }
  lemma Enc64Step9()
    ensures Val(ENC_TABLE_64[9], R1) == TWO32 * Val(ENC_TABLE_64[10], R1)
  {
    Enc64Row9();
    Enc64Row10();
  }
  lemma Enc64Step10()
    ensures Val(ENC_TABLE_64[10], R1) == TWO32 * Val(ENC_TABLE_64[11], R1)
  {
    Enc64Row10();
    Enc64Row11();
  }
  lemma Enc64Step11()
    ensures Val(ENC_TABLE_64[11], R1) == TWO32 * Val(ENC_TABLE_64[12], R1)
  {
    Enc64Row11();
    Enc64Row12();
  }
  lemma Enc64Step12()
    ensures Val(ENC_TABLE_64[12], R1) == TWO32 * Val(ENC_TABLE_64[13], R1)
  {
    Enc64Row12();
    Enc64Row13();
  }
  lemma Enc64Step13()
    ensures Val(ENC_TABLE_64[13], R1) == TWO32 * Val(ENC_TABLE_64[14], R1)
  {
    Enc64Row13();
    Enc64Row14();
  }
  lemma Enc64Step14()
    ensures Val(ENC_TABLE_64[14], R1) == TWO32 * Val(ENC_TABLE_64[15], R1)
  {
    Enc64Row14();
    Enc64Row15();
  }
  /** Row i of enc_table_64 is worth 2^(32*(15-i)) in base 58^5. */
  lemma Enc64Rows()
    ensures forall i | 0 <= i < 16 :: Val(ENC_TABLE_64[i], R1) == Pow(TWO32, 15 - i)
  {
    Enc64Row15();
    forall j | 0 <= j < 15
      ensures Val(ENC_TABLE_64[j], R1) == TWO32 * Val(ENC_TABLE_64[j + 1], R1)
    {
      if j == 0 {
        Enc64Step0();
      } else if j == 1 {
        Enc64Step1();
      } else if j == 2 {
        Enc64Step2();
      } else if j == 3 {
        Enc64Step3();
      } else if j == 4 {
        Enc64Step4();
      } else if j == 5 {
        Enc64Step5();
      } else if j == 6 {
        Enc64Step6();
      } else if j == 7 {
        Enc64Step7();
      } else if j == 8 {
        Enc64Step8();
      } else if j == 9 {
        Enc64Step9();
      } else if j == 10 {
        Enc64Step10();
      } else if j == 11 {
        Enc64Step11();
      } else if j == 12 {
        Enc64Step12();
      } else if j == 13 {
        Enc64Step13();
      } else {
        Enc64Step14();
      }
    }
    forall i | 0 <= i < 16
      ensures Val(ENC_TABLE_64[i], R1) == Pow(TWO32, 15 - i)
    {
      RowPowers(ENC_TABLE_64, R1, TWO32, i);
    }
  }
  lemma Dec32Row0()
    ensures Val(DEC_TABLE_32[0], TWO32) == 34444488709877454747081479018851205589883534409595458615323760395288576
  {
    ValUnroll8Two32(DEC_TABLE_32[0]);
  }
  lemma Dec32Row1()
    ensures Val(DEC_TABLE_32[1], TWO32) == 52478302028992644968172978478148648556151605660894866578604032
  {
    ValUnroll8Two32(DEC_TABLE_32[1]);
  }
  lemma Dec32Row2()
    ensures Val(DEC_TABLE_32[2], TWO32) == 79953928393091004080532279173738402825689466587316224
  {
    ValUnroll8Two32(DEC_TABLE_32[2]);
  }
  lemma Dec32Row3()
    ensures Val(DEC_TABLE_32[3], TWO32) == 121814739012626444160521369338174330862829568
  {
    ValUnroll8Two32(DEC_TABLE_32[3]);
  }
  lemma Dec32Row4()
    ensures Val(DEC_TABLE_32[4], TWO32) == 185592264682226060569122324245118976
  {
    ValUnroll8Two32(DEC_TABLE_32[4]);
  }
  lemma Dec32Row5()
    ensures Val(DEC_TABLE_32[5], TWO32) == 282761256881297307761016832
  {
    ValUnroll8Two32(DEC_TABLE_32[5]);
  }
  lemma Dec32Row6()
    ensures Val(DEC_TABLE_32[6], TWO32) == 430804206899405824
  {
    ValUnroll8Two32(DEC_TABLE_32[6]);
  }
  lemma Dec32Row7()
    ensures Val(DEC_TABLE_32[7], TWO32) == 656356768
  {
    ValUnroll8Two32(DEC_TABLE_32[7]);
  }
  lemma Dec32Row8()
    ensures Val(DEC_TABLE_32[8], TWO32) == 1
  {
    ValUnroll8Two32(DEC_TABLE_32[8]);
  }
  lemma Dec32Step0()
    ensures Val(DEC_TABLE_32[0], TWO32) == R1 * Val(DEC_TABLE_32[1], TWO32)
  {
    Dec32Row0();
    Dec32Row1();
  }
  lemma Dec32Step1()
    ensures Val(DEC_TABLE_32[1], TWO32) == R1 * Val(DEC_TABLE_32[2], TWO32)
  {
    Dec32Row1();
    Dec32Row2();
  }
  lemma Dec32Step2()
    ensures Val(DEC_TABLE_32[2], TWO32) == R1 * Val(DEC_TABLE_32[3], TWO32)
  {
    Dec32Row2();
    Dec32Row3();
  }
  lemma Dec32Step3()
    ensures Val(DEC_TABLE_32[3], TWO32) == R1 * Val(DEC_TABLE_32[4], TWO32)
  {
    Dec32Row3();
    Dec32Row4();
  }
  lemma Dec32Step4()
    ensures Val(DEC_TABLE_32[4], TWO32) == R1 * Val(DEC_TABLE_32[5], TWO32)
  {
    Dec32Row4();
    Dec32Row5();
  }
  lemma Dec32Step5()
    ensures Val(DEC_TABLE_32[5], TWO32) == R1 * Val(DEC_TABLE_32[6], TWO32)
  {
    Dec32Row5();
    Dec32Row6();
  }
  lemma Dec32Step6()
    ensures Val(DEC_TABLE_32[6], TWO32) == R1 * Val(DEC_TABLE_32[7], TWO32)
  {
    Dec32Row6();
    Dec32Row7();
  }
  lemma Dec32Step7()
    ensures Val(DEC_TABLE_32[7], TWO32) == R1 * Val(DEC_TABLE_32[8], TWO32)
  {
    Dec32Row7();
    Dec32Row8();
  }
  /** Row i of dec_table_32 is worth 58^(5*(8-i)) in base 2^32. */
  lemma Dec32Rows()
    ensures forall i | 0 <= i < 9 :: Val(DEC_TABLE_32[i], TWO32) == Pow(R1, 8 - i)
  {
    Dec32Row8();
    forall j | 0 <= j < 8
      ensures Val(DEC_TABLE_32[j], TWO32) == R1 * Val(DEC_TABLE_32[j + 1], TWO32)
    {
      if j == 0 {
        Dec32Step0();
      } else if j == 1 {
        Dec32Step1();
      } else if j == 2 {
        Dec32Step2();
      } else if j == 3 {
        Dec32Step3();
      } else if j == 4 {
        Dec32Step4();
      } else if j == 5 {
        Dec32Step5();
      } else if j == 6 {
        Dec32Step6();
      } else {
        Dec32Step7();
      }
    }
    forall i | 0 <= i < 9
      ensures Val(DEC_TABLE_32[i], TWO32) == Pow(R1, 8 - i)
    {
      RowPowers(DEC_TABLE_32, TWO32, R1, i);
    }
  }
  lemma Dec64Row0()
    ensures Val(DEC_TABLE_64[0], TWO32) == 778716636120475217235294996332936046734099891222280347589967911434638443150066222107625919216282934217683098445463421924094897030113233403382195027968
  {
    ValUnroll16Two32(DEC_TABLE_64[0]);
  }
  lemma Dec64Row1()
    ensures Val(DEC_TABLE_64[1], TWO32) == 1186422802484875446938782836368857320496312595686192951071951026845568297926145894647994121417032351249683614819468764774121894984578316107776
  {
    ValUnroll16Two32(DEC_TABLE_64[1]);
  }
  lemma Dec64Row2()
    ensures Val(DEC_TABLE_64[2], TWO32) == 1807588281751176285484395030065199724574657841703238064381399091241744151446223671221432611809424278306037997340295216966699877138432
  {
    ValUnroll16Two32(DEC_TABLE_64[2]);
  }
  lemma Dec64Row3()
    ensures Val(DEC_TABLE_64[3], TWO32) == 2753972183846173557677697367882096287875343187903622050228328096163920642997351817085906260982478782493544726182049846657024
  {
    ValUnroll16Two32(DEC_TABLE_64[3]);
  }
  lemma Dec64Row4()
    ensures Val(DEC_TABLE_64[4], TWO32) == 4195846402617080285333017801504708926647867197590353864117278510585756073132092418807672386159471707456431265415168
  {
    ValUnroll16Two32(DEC_TABLE_64[4]);
  }
  lemma Dec64Row5()
    ensures Val(DEC_TABLE_64[5], TWO32) == 6392630665487523829925705590507004456832030712891733088851577912861189652777515686114891080333114973618176
  {
    ValUnroll16Two32(DEC_TABLE_64[5]);
  }
  lemma Dec64Row6()
    ensures Val(DEC_TABLE_64[6], TWO32) == 9739566920238603877587662188175995858447567212244748406177138578482959518713328307014411833311232
  {
    ValUnroll16Two32(DEC_TABLE_64[6]);
  }
  lemma Dec64Row7()
    ensures Val(DEC_TABLE_64[7], TWO32) == 14838830640714294999983396511843381888381117770762056659674968992599706869653743415066624
  {
    ValUnroll16Two32(DEC_TABLE_64[7]);
  }
  lemma Dec64Row8()
    ensures Val(DEC_TABLE_64[8], TWO32) == 22607873285027655873860657001472988373879490141498863404231658646658012170682368
  {
    ValUnroll16Two32(DEC_TABLE_64[8]);
  }
  lemma Dec64Row9()
    ensures Val(DEC_TABLE_64[9], TWO32) == 34444488709877454747081479018851205589883534409595458615323760395288576
  {
    ValUnroll16Two32(DEC_TABLE_64[9]);
  }
  lemma Dec64Row10()
    ensures Val(DEC_TABLE_64[10], TWO32) == 52478302028992644968172978478148648556151605660894866578604032
  {
    ValUnroll16Two32(DEC_TABLE_64[10]);
  }
  lemma Dec64Row11()
    ensures Val(DEC_TABLE_64[11], TWO32) == 79953928393091004080532279173738402825689466587316224
  {
    ValUnroll16Two32(DEC_TABLE_64[11]);
  }
  lemma Dec64Row12()
    ensures Val(DEC_TABLE_64[12], TWO32) == 121814739012626444160521369338174330862829568
  {
    ValUnroll16Two32(DEC_TABLE_64[12]);
  }
  lemma Dec64Row13()
    ensures Val(DEC_TABLE_64[13], TWO32) == 185592264682226060569122324245118976
  {
    ValUnroll16Two32(DEC_TABLE_64[13]);
  }
  lemma Dec64Row14()
    ensures Val(DEC_TABLE_64[14], TWO32) == 282761256881297307761016832
  {
    ValUnroll16Two32(DEC_TABLE_64[14]);
  }
  lemma Dec64Row15()
    ensures Val(DEC_TABLE_64[15], TWO32) == 430804206899405824
  {
    ValUnroll16Two32(DEC_TABLE_64[15]);
  }
  lemma Dec64Row16()
    ensures Val(DEC_TABLE_64[16], TWO32) == 656356768
  {
    ValUnroll16Two32(DEC_TABLE_64[16]);
  }
  lemma Dec64Row17()
    ensures Val(DEC_TABLE_64[17], TWO32) == 1
  {
    ValUnroll16Two32(DEC_TABLE_64[17]);
  }
  lemma Dec64Step0()
    ensures Val(DEC_TABLE_64[0], TWO32) == R1 * Val(DEC_TABLE_64[1], TWO32)
  {
    Dec64Row0();
    Dec64Row1();
  }
  lemma Dec64Step1()
    ensures Val(DEC_TABLE_64[1], TWO32) == R1 * Val(DEC_TABLE_64[2], TWO32)
  {
    Dec64Row1();
    Dec64Row2();
  }
  lemma Dec64Step2()
    ensures Val(DEC_TABLE_64[2], TWO32) == R1 * Val(DEC_TABLE_64[3], TWO32)
  {
    Dec64Row2();
    Dec64Row3();
  }
  lemma Dec64Step3()
    ensures Val(DEC_TABLE_64[3], TWO32) == R1 * Val(DEC_TABLE_64[4], TWO32)
  {
    Dec64Row3();
    Dec64Row4();
  }
  lemma Dec64Step4()
    ensures Val(DEC_TABLE_64[4], TWO32) == R1 * Val(DEC_TABLE_64[5], TWO32)
  {
    Dec64Row4();
    Dec64Row5();
  }
  lemma Dec64Step5()
    ensures Val(DEC_TABLE_64[5], TWO32) == R1 * Val(DEC_TABLE_64[6], TWO32)
  {
    Dec64Row5();
    Dec64Row6();
  }
  lemma Dec64Step6()
    ensures Val(DEC_TABLE_64[6], TWO32) == R1 * Val(DEC_TABLE_64[7], TWO32)
  {
    Dec64Row6();
    Dec64Row7();
  }
  lemma Dec64Step7()
    ensures Val(DEC_TABLE_64[7], TWO32) == R1 * Val(DEC_TABLE_64[8], TWO32)
  {
    Dec64Row7();
    Dec64Row8();
  }
  lemma Dec64Step8()
    ensures Val(DEC_TABLE_64[8], TWO32) == R1 * Val(DEC_TABLE_64[9], TWO32)
  {
    Dec64Row8();
    Dec64Row9();
  }
  lemma Dec64Step9()
    ensures Val(DEC_TABLE_64[9], TWO32) == R1 * Val(DEC_TABLE_64[10], TWO32)
  {
    Dec64Row9();
    Dec64Row10();
  }
  lemma Dec64Step10()
    ensures Val(DEC_TABLE_64[10], TWO32) == R1 * Val(DEC_TABLE_64[11], TWO32)
  {
    Dec64Row10();
    Dec64Row11();
  }
  lemma Dec64Step11()
    ensures Val(DEC_TABLE_64[11], TWO32) == R1 * Val(DEC_TABLE_64[12], TWO32)
  {
    Dec64Row11();
    Dec64Row12();
  }
  lemma Dec64Step12()
    ensures Val(DEC_TABLE_64[12], TWO32) == R1 * Val(DEC_TABLE_64[13], TWO32)
  {
    Dec64Row12();
    Dec64Row13();
  }
  lemma Dec64Step13()
    ensures Val(DEC_TABLE_64[13], TWO32) == R1 * Val(DEC_TABLE_64[14], TWO32)
  {
    Dec64Row13();
    Dec64Row14();
  }
  lemma Dec64Step14()
    ensures Val(DEC_TABLE_64[14], TWO32) == R1 * Val(DEC_TABLE_64[15], TWO32)
  {
    Dec64Row14();
    Dec64Row15();
  }
  lemma Dec64Step15()
    ensures Val(DEC_TABLE_64[15], TWO32) == R1 * Val(DEC_TABLE_64[16], TWO32)
  {
    Dec64Row15();
    Dec64Row16();
  }
  lemma Dec64Step16()
    ensures Val(DEC_TABLE_64[16], TWO32) == R1 * Val(DEC_TABLE_64[17], TWO32)
  {
    Dec64Row16();
    Dec64Row17();
  }
  /** Row i of dec_table_64 is worth 58^(5*(17-i)) in base 2^32. */
  lemma Dec64Rows()
    ensures forall i | 0 <= i < 18 :: Val(DEC_TABLE_64[i], TWO32) == Pow(R1, 17 - i)
  {
    Dec64Row17();
    forall j | 0 <= j < 17
      ensures Val(DEC_TABLE_64[j], TWO32) == R1 * Val(DEC_TABLE_64[j + 1], TWO32)
    {
      if j == 0 {
        Dec64Step0();
      } else if j == 1 {
        Dec64Step1();
      } else if j == 2 {
        Dec64Step2();
      } else if j == 3 {
        Dec64Step3();
      } else if j == 4 {
        Dec64Step4();
      } else if j == 5 {
        Dec64Step5();
      } else if j == 6 {
        Dec64Step6();
      } else if j == 7 {
        Dec64Step7();
      } else if j == 8 {
        Dec64Step8();
      } else if j == 9 {
        Dec64Step9();
      } else if j == 10 {
        Dec64Step10();
      } else if j == 11 {
        Dec64Step11();
      } else if j == 12 {
        Dec64Step12();
      } else if j == 13 {
        Dec64Step13();
      } else if j == 14 {
        Dec64Step14();
      } else if j == 15 {
        Dec64Step15();
      } else {
        Dec64Step16();
      }
    }
    forall i | 0 <= i < 18
      ensures Val(DEC_TABLE_64[i], TWO32) == Pow(R1, 17 - i)
    {
      RowPowers(DEC_TABLE_64, TWO32, R1, i);
    }
  }

  // ---------------------------------------------------------------------
  // Closed forms used to evaluate rows and columns of the literal tables

  lemma ValUnroll8R1(s: seq<nat>)
    requires |s| == 8
    ensures Val(s, R1) == (((((((s[0]) * R1 + s[1]) * R1 + s[2]) * R1 + s[3]) * R1 + s[4]) * R1 + s[5]) * R1 + s[6]) * R1 + s[7]
  {
    assert s[..1][..0] == [];
    ValSnoc(s, R1, 1);
    ValSnoc(s, R1, 2);
    ValSnoc(s, R1, 3);
    ValSnoc(s, R1, 4);
    ValSnoc(s, R1, 5);
    ValSnoc(s, R1, 6);
    ValSnoc(s, R1, 7);
    assert s[..8] == s;
  }
  lemma ValUnroll17R1(s: seq<nat>)
    requires |s| == 17
    ensures Val(s, R1) == ((((((((((((((((s[0]) * R1 + s[1]) * R1 + s[2]) * R1 + s[3]) * R1 + s[4]) * R1 + s[5]) * R1 + s[6]) * R1 + s[7]) * R1 + s[8]) * R1 + s[9]) * R1 + s[10]) * R1 + s[11]) * R1 + s[12]) * R1 + s[13]) * R1 + s[14]) * R1 + s[15]) * R1 + s[16]
  {
    assert s[..1][..0] == [];
    ValSnoc(s, R1, 1);
    ValSnoc(s, R1, 2);
    ValSnoc(s, R1, 3);
    ValSnoc(s, R1, 4);
    ValSnoc(s, R1, 5);
    ValSnoc(s, R1, 6);
    ValSnoc(s, R1, 7);
    ValSnoc(s, R1, 8);
    ValSnoc(s, R1, 9);
    ValSnoc(s, R1, 10);
    ValSnoc(s, R1, 11);
    ValSnoc(s, R1, 12);
    ValSnoc(s, R1, 13);
    ValSnoc(s, R1, 14);
    ValSnoc(s, R1, 15);
    ValSnoc(s, R1, 16);
    assert s[..17] == s;
  }
  lemma ValUnroll8Two32(s: seq<nat>)
    requires |s| == 8
    ensures Val(s, TWO32) == (((((((s[0]) * TWO32 + s[1]) * TWO32 + s[2]) * TWO32 + s[3]) * TWO32 + s[4]) * TWO32 + s[5]) * TWO32 + s[6]) * TWO32 + s[7]
  {
    assert s[..1][..0] == [];
    ValSnoc(s, TWO32, 1);
    ValSnoc(s, TWO32, 2);
    ValSnoc(s, TWO32, 3);
    ValSnoc(s, TWO32, 4);
    ValSnoc(s, TWO32, 5);
    ValSnoc(s, TWO32, 6);
    ValSnoc(s, TWO32, 7);
    assert s[..8] == s;
  }
  lemma ValUnroll16Two32(s: seq<nat>)
    requires |s| == 16
    ensures Val(s, TWO32) == (((((((((((((((s[0]) * TWO32 + s[1]) * TWO32 + s[2]) * TWO32 + s[3]) * TWO32 + s[4]) * TWO32 + s[5]) * TWO32 + s[6]) * TWO32 + s[7]) * TWO32 + s[8]) * TWO32 + s[9]) * TWO32 + s[10]) * TWO32 + s[11]) * TWO32 + s[12]) * TWO32 + s[13]) * TWO32 + s[14]) * TWO32 + s[15]
  {
    assert s[..1][..0] == [];
    ValSnoc(s, TWO32, 1);
    ValSnoc(s, TWO32, 2);
    ValSnoc(s, TWO32, 3);
    ValSnoc(s, TWO32, 4);
    ValSnoc(s, TWO32, 5);
    ValSnoc(s, TWO32, 6);
    ValSnoc(s, TWO32, 7);
    ValSnoc(s, TWO32, 8);
    ValSnoc(s, TWO32, 9);
    ValSnoc(s, TWO32, 10);
    ValSnoc(s, TWO32, 11);
    ValSnoc(s, TWO32, 12);
    ValSnoc(s, TWO32, 13);
    ValSnoc(s, TWO32, 14);
    ValSnoc(s, TWO32, 15);
    assert s[..16] == s;
  }

  lemma ColSumUnroll8(t: seq<seq<nat>>, lo: nat, k: nat)
    requires lo + 8 <= |t| && forall i | lo <= i < lo + 8 :: k < |t[i]|
    ensures ColSum(t, lo, lo + 8, k) == t[lo][k] + t[lo + 1][k] + t[lo + 2][k] + t[lo + 3][k] + t[lo + 4][k] + t[lo + 5][k] + t[lo + 6][k] + t[lo + 7][k]
  {
    assert ColSum(t, lo, lo + 1, k) == ColSum(t, lo, lo + 0, k) + t[lo + 0][k];
    assert ColSum(t, lo, lo + 2, k) == ColSum(t, lo, lo + 1, k) + t[lo + 1][k];
    assert ColSum(t, lo, lo + 3, k) == ColSum(t, lo, lo + 2, k) + t[lo + 2][k];
    assert ColSum(t, lo, lo + 4, k) == ColSum(t, lo, lo + 3, k) + t[lo + 3][k];
    assert ColSum(t, lo, lo + 5, k) == ColSum(t, lo, lo + 4, k) + t[lo + 4][k];
    assert ColSum(t, lo, lo + 6, k) == ColSum(t, lo, lo + 5, k) + t[lo + 5][k];
    assert ColSum(t, lo, lo + 7, k) == ColSum(t, lo, lo + 6, k) + t[lo + 6][k];
    assert ColSum(t, lo, lo + 8, k) == ColSum(t, lo, lo + 7, k) + t[lo + 7][k];
  }
  lemma ColSumUnroll9(t: seq<seq<nat>>, lo: nat, k: nat)
    requires lo + 9 <= |t| && forall i | lo <= i < lo + 9 :: k < |t[i]|
    ensures ColSum(t, lo, lo + 9, k) == t[lo][k] + t[lo + 1][k] + t[lo + 2][k] + t[lo + 3][k] + t[lo + 4][k] + t[lo + 5][k] + t[lo + 6][k] + t[lo + 7][k] + t[lo + 8][k]
  {
    assert ColSum(t, lo, lo + 1, k) == ColSum(t, lo, lo + 0, k) + t[lo + 0][k];
    assert ColSum(t, lo, lo + 2, k) == ColSum(t, lo, lo + 1, k) + t[lo + 1][k];
    assert ColSum(t, lo, lo + 3, k) == ColSum(t, lo, lo + 2, k) + t[lo + 2][k];
    assert ColSum(t, lo, lo + 4, k) == ColSum(t, lo, lo + 3, k) + t[lo + 3][k];
    assert ColSum(t, lo, lo + 5, k) == ColSum(t, lo, lo + 4, k) + t[lo + 4][k];
    assert ColSum(t, lo, lo + 6, k) == ColSum(t, lo, lo + 5, k) + t[lo + 5][k];
    assert ColSum(t, lo, lo + 7, k) == ColSum(t, lo, lo + 6, k) + t[lo + 6][k];
    assert ColSum(t, lo, lo + 8, k) == ColSum(t, lo, lo + 7, k) + t[lo + 7][k];
    assert ColSum(t, lo, lo + 9, k) == ColSum(t, lo, lo + 8, k) + t[lo + 8][k];
  }
  lemma ColSumUnroll18(t: seq<seq<nat>>, lo: nat, k: nat)
    requires lo + 18 <= |t| && forall i | lo <= i < lo + 18 :: k < |t[i]|
    ensures ColSum(t, lo, lo + 18, k) == t[lo][k] + t[lo + 1][k] + t[lo + 2][k] + t[lo + 3][k] + t[lo + 4][k] + t[lo + 5][k] + t[lo + 6][k] + t[lo + 7][k] + t[lo + 8][k] + t[lo + 9][k] + t[lo + 10][k] + t[lo + 11][k] + t[lo + 12][k] + t[lo + 13][k] + t[lo + 14][k] + t[lo + 15][k] + t[lo + 16][k] + t[lo + 17][k]
  {
    assert ColSum(t, lo, lo + 1, k) == ColSum(t, lo, lo + 0, k) + t[lo + 0][k];
    assert ColSum(t, lo, lo + 2, k) == ColSum(t, lo, lo + 1, k) + t[lo + 1][k];
    assert ColSum(t, lo, lo + 3, k) == ColSum(t, lo, lo + 2, k) + t[lo + 2][k];
    assert ColSum(t, lo, lo + 4, k) == ColSum(t, lo, lo + 3, k) + t[lo + 3][k];
    assert ColSum(t, lo, lo + 5, k) == ColSum(t, lo, lo + 4, k) + t[lo + 4][k];
    assert ColSum(t, lo, lo + 6, k) == ColSum(t, lo, lo + 5, k) + t[lo + 5][k];
    assert ColSum(t, lo, lo + 7, k) == ColSum(t, lo, lo + 6, k) + t[lo + 6][k];
    assert ColSum(t, lo, lo + 8, k) == ColSum(t, lo, lo + 7, k) + t[lo + 7][k];
    assert ColSum(t, lo, lo + 9, k) == ColSum(t, lo, lo + 8, k) + t[lo + 8][k];
    assert ColSum(t, lo, lo + 10, k) == ColSum(t, lo, lo + 9, k) + t[lo + 9][k];
    assert ColSum(t, lo, lo + 11, k) == ColSum(t, lo, lo + 10, k) + t[lo + 10][k];
    assert ColSum(t, lo, lo + 12, k) == ColSum(t, lo, lo + 11, k) + t[lo + 11][k];
    assert ColSum(t, lo, lo + 13, k) == ColSum(t, lo, lo + 12, k) + t[lo + 12][k];
    assert ColSum(t, lo, lo + 14, k) == ColSum(t, lo, lo + 13, k) + t[lo + 13][k];
    assert ColSum(t, lo, lo + 15, k) == ColSum(t, lo, lo + 14, k) + t[lo + 14][k];
    assert ColSum(t, lo, lo + 16, k) == ColSum(t, lo, lo + 15, k) + t[lo + 15][k];
    assert ColSum(t, lo, lo + 17, k) == ColSum(t, lo, lo + 16, k) + t[lo + 16][k];
    assert ColSum(t, lo, lo + 18, k) == ColSum(t, lo, lo + 17, k) + t[lo + 17][k];
  }

  // ---------------------------------------------------------------------
  // Column sums of the literal tables, one column at a time

  /** A column of 16 rows whose two halves have known sums stays within SAFE_LIMIT once scaled by LIMB_MAX. */
  lemma SplitBound(t: seq<seq<nat>>, k: nat, lowSum: nat, highSum: nat)
    requires |t| == 16 && IsTable(t, 17) && k < 17
    requires ColSum(t, 0, 8, k) == lowSum && ColSum(t, 8, 16, k) == highSum
    requires LIMB_MAX * (lowSum + highSum) <= SAFE_LIMIT
    ensures LIMB_MAX * ColSum(t, 0, 16, k) <= SAFE_LIMIT
  {
    ColSumSplit(t, 0, 8, 16, k);
  }

  lemma Enc32Col0()
    ensures ColSum(ENC_TABLE_32, 0, 8, 0) == 513735
  {
    ColSumUnroll8(ENC_TABLE_32, 0, 0);
  }
  lemma Enc32Col1()
    ensures ColSum(ENC_TABLE_32, 0, 8, 1) == 77301556
  {
    ColSumUnroll8(ENC_TABLE_32, 0, 1);
  }
  lemma Enc32Col2()
    ensures ColSum(ENC_TABLE_32, 0, 8, 2) == 1083368708
  {
    ColSumUnroll8(ENC_TABLE_32, 0, 2);
  }
  lemma Enc32Col3()
    ensures ColSum(ENC_TABLE_32, 0, 8, 3) == 904651139
  {
    ColSumUnroll8(ENC_TABLE_32, 0, 3);
  }
  lemma Enc32Col4()
    ensures ColSum(ENC_TABLE_32, 0, 8, 4) == 1025162445
  {
    ColSumUnroll8(ENC_TABLE_32, 0, 4);
  }
  lemma Enc32Col5()
    ensures ColSum(ENC_TABLE_32, 0, 8, 5) == 1231302971
  {
    ColSumUnroll8(ENC_TABLE_32, 0, 5);
  }
  lemma Enc32Col6()
    ensures ColSum(ENC_TABLE_32, 0, 8, 6) == 2281231966
  {
    ColSumUnroll8(ENC_TABLE_32, 0, 6);
  }
  lemma Enc32Col7()
    ensures ColSum(ENC_TABLE_32, 0, 8, 7) == 1967866689
  {
    ColSumUnroll8(ENC_TABLE_32, 0, 7);
  }
  lemma Enc64LowCol0()
    ensures ColSum(ENC_TABLE_64, 0, 8, 0) == 2631
  {
    ColSumUnroll8(ENC_TABLE_64, 0, 0);
  }
  lemma Enc64LowCol1()
    ensures ColSum(ENC_TABLE_64, 0, 8, 1) == 149457543
  {
    ColSumUnroll8(ENC_TABLE_64, 0, 1);
  }
  lemma Enc64LowCol2()
    ensures ColSum(ENC_TABLE_64, 0, 8, 2) == 645443121
  {
    ColSumUnroll8(ENC_TABLE_64, 0, 2);
  }
  lemma Enc64LowCol3()
    ensures ColSum(ENC_TABLE_64, 0, 8, 3) == 957990647
  {
    ColSumUnroll8(ENC_TABLE_64, 0, 3);
  }
  lemma Enc64LowCol4()
    ensures ColSum(ENC_TABLE_64, 0, 8, 4) == 745588094
  {
    ColSumUnroll8(ENC_TABLE_64, 0, 4);
  }
  lemma Enc64LowCol5()
    ensures ColSum(ENC_TABLE_64, 0, 8, 5) == 1733198522
  {
    ColSumUnroll8(ENC_TABLE_64, 0, 5);
  }
  lemma Enc64LowCol6()
    ensures ColSum(ENC_TABLE_64, 0, 8, 6) == 2393085533
  {
    ColSumUnroll8(ENC_TABLE_64, 0, 6);
  }
  lemma Enc64LowCol7()
    ensures ColSum(ENC_TABLE_64, 0, 8, 7) == 2695045263
  {
    ColSumUnroll8(ENC_TABLE_64, 0, 7);
  }
  lemma Enc64LowCol8()
    ensures ColSum(ENC_TABLE_64, 0, 8, 8) == 1898422598
  {
    ColSumUnroll8(ENC_TABLE_64, 0, 8);
  }
  lemma Enc64LowCol9()
    ensures ColSum(ENC_TABLE_64, 0, 8, 9) == 3022319891
  {
    ColSumUnroll8(ENC_TABLE_64, 0, 9);
  }
  lemma Enc64LowCol10()
    ensures ColSum(ENC_TABLE_64, 0, 8, 10) == 2468752419
  {
    ColSumUnroll8(ENC_TABLE_64, 0, 10);
  }
  lemma Enc64LowCol11()
    ensures ColSum(ENC_TABLE_64, 0, 8, 11) == 2454410357
  {
    ColSumUnroll8(ENC_TABLE_64, 0, 11);
  }
  lemma Enc64LowCol12()
    ensures ColSum(ENC_TABLE_64, 0, 8, 12) == 2095064915
  {
    ColSumUnroll8(ENC_TABLE_64, 0, 12);
  }
  lemma Enc64LowCol13()
    ensures ColSum(ENC_TABLE_64, 0, 8, 13) == 2587279417
  {
    ColSumUnroll8(ENC_TABLE_64, 0, 13);
  }
  lemma Enc64LowCol14()
    ensures ColSum(ENC_TABLE_64, 0, 8, 14) == 2215489106
  {
    ColSumUnroll8(ENC_TABLE_64, 0, 14);
  }
  lemma Enc64LowCol15()
    ensures ColSum(ENC_TABLE_64, 0, 8, 15) == 3935722847
  {
    ColSumUnroll8(ENC_TABLE_64, 0, 15);
  }
  lemma Enc64LowCol16()
    ensures ColSum(ENC_TABLE_64, 0, 8, 16) == 1944514976
  {
    ColSumUnroll8(ENC_TABLE_64, 0, 16);
  }
  lemma Enc64HighCol0()
    ensures ColSum(ENC_TABLE_64, 8, 16, 0) == 0
  {
    ColSumUnroll8(ENC_TABLE_64, 8, 0);
  }
  lemma Enc64HighCol1()
    ensures ColSum(ENC_TABLE_64, 8, 16, 1) == 0
  {
    ColSumUnroll8(ENC_TABLE_64, 8, 1);
  }
  lemma Enc64HighCol2()
    ensures ColSum(ENC_TABLE_64, 8, 16, 2) == 0
  {
    ColSumUnroll8(ENC_TABLE_64, 8, 2);
  }
  lemma Enc64HighCol3()
    ensures ColSum(ENC_TABLE_64, 8, 16, 3) == 0
  {
    ColSumUnroll8(ENC_TABLE_64, 8, 3);
  }
  lemma Enc64HighCol4()
    ensures ColSum(ENC_TABLE_64, 8, 16, 4) == 0
  {
    ColSumUnroll8(ENC_TABLE_64, 8, 4);
  }
  lemma Enc64HighCol5()
    ensures ColSum(ENC_TABLE_64, 8, 16, 5) == 0
  {
    ColSumUnroll8(ENC_TABLE_64, 8, 5);
  }
  lemma Enc64HighCol6()
    ensures ColSum(ENC_TABLE_64, 8, 16, 6) == 0
  {
    ColSumUnroll8(ENC_TABLE_64, 8, 6);
  }
  lemma Enc64HighCol7()
    ensures ColSum(ENC_TABLE_64, 8, 16, 7) == 0
  {
    ColSumUnroll8(ENC_TABLE_64, 8, 7);
  }
  lemma Enc64HighCol8()
    ensures ColSum(ENC_TABLE_64, 8, 16, 8) == 0
  {
    ColSumUnroll8(ENC_TABLE_64, 8, 8);
  }
  lemma Enc64HighCol9()
    ensures ColSum(ENC_TABLE_64, 8, 16, 9) == 513735
  {
    ColSumUnroll8(ENC_TABLE_64, 8, 9);
  }
  lemma Enc64HighCol10()
    ensures ColSum(ENC_TABLE_64, 8, 16, 10) == 77301556
  {
    ColSumUnroll8(ENC_TABLE_64, 8, 10);
  }
  lemma Enc64HighCol11()
    ensures ColSum(ENC_TABLE_64, 8, 16, 11) == 1083368708
  {
    ColSumUnroll8(ENC_TABLE_64, 8, 11);
  }
  lemma Enc64HighCol12()
    ensures ColSum(ENC_TABLE_64, 8, 16, 12) == 904651139
  {
    ColSumUnroll8(ENC_TABLE_64, 8, 12);
  }
  lemma Enc64HighCol13()
    ensures ColSum(ENC_TABLE_64, 8, 16, 13) == 1025162445
  {
    ColSumUnroll8(ENC_TABLE_64, 8, 13);
  }
  lemma Enc64HighCol14()
    ensures ColSum(ENC_TABLE_64, 8, 16, 14) == 1231302971
  {
    ColSumUnroll8(ENC_TABLE_64, 8, 14);
  }
  lemma Enc64HighCol15()
    ensures ColSum(ENC_TABLE_64, 8, 16, 15) == 2281231966
  {
    ColSumUnroll8(ENC_TABLE_64, 8, 15);
  }
  lemma Enc64HighCol16()
    ensures ColSum(ENC_TABLE_64, 8, 16, 16) == 1967866689
  {
    ColSumUnroll8(ENC_TABLE_64, 8, 16);
  }
  lemma Enc64Col0()
    ensures LIMB_MAX * ColSum(ENC_TABLE_64, 0, 16, 0) <= SAFE_LIMIT
  {
    Enc64LowCol0();
    Enc64HighCol0();
    SplitBound(ENC_TABLE_64, 0, 2631, 0);
  }
  lemma Enc64Col1()
    ensures LIMB_MAX * ColSum(ENC_TABLE_64, 0, 16, 1) <= SAFE_LIMIT
  {
    Enc64LowCol1();
    Enc64HighCol1();
    SplitBound(ENC_TABLE_64, 1, 149457543, 0);
  }
  lemma Enc64Col2()
    ensures LIMB_MAX * ColSum(ENC_TABLE_64, 0, 16, 2) <= SAFE_LIMIT
  {
    Enc64LowCol2();
    Enc64HighCol2();
    SplitBound(ENC_TABLE_64, 2, 645443121, 0);
  }
  lemma Enc64Col3()
    ensures LIMB_MAX * ColSum(ENC_TABLE_64, 0, 16, 3) <= SAFE_LIMIT
  {
    Enc64LowCol3();
    Enc64HighCol3();
    SplitBound(ENC_TABLE_64, 3, 957990647, 0);
  }
  lemma Enc64Col4()
    ensures LIMB_MAX * ColSum(ENC_TABLE_64, 0, 16, 4) <= SAFE_LIMIT
  {
    Enc64LowCol4();
    Enc64HighCol4();
    SplitBound(ENC_TABLE_64, 4, 745588094, 0);
  }
  lemma Enc64Col5()
    ensures LIMB_MAX * ColSum(ENC_TABLE_64, 0, 16, 5) <= SAFE_LIMIT
  {
    Enc64LowCol5();
    Enc64HighCol5();
    SplitBound(ENC_TABLE_64, 5, 1733198522, 0);
  }
  lemma Enc64Col6()
    ensures LIMB_MAX * ColSum(ENC_TABLE_64, 0, 16, 6) <= SAFE_LIMIT
  {
    Enc64LowCol6();
    Enc64HighCol6();
    SplitBound(ENC_TABLE_64, 6, 2393085533, 0);
  }
  lemma Enc64Col7()
    ensures LIMB_MAX * ColSum(ENC_TABLE_64, 0, 16, 7) <= SAFE_LIMIT
  {
    Enc64LowCol7();
    Enc64HighCol7();
    SplitBound(ENC_TABLE_64, 7, 2695045263, 0);
  }
  lemma Enc64Col8()
    ensures LIMB_MAX * ColSum(ENC_TABLE_64, 0, 16, 8) <= SAFE_LIMIT
  {
    Enc64LowCol8();
    Enc64HighCol8();
    SplitBound(ENC_TABLE_64, 8, 1898422598, 0);
  }
  lemma Enc64Col9()
    ensures LIMB_MAX * ColSum(ENC_TABLE_64, 0, 16, 9) <= SAFE_LIMIT
  {
    Enc64LowCol9();
    Enc64HighCol9();
    SplitBound(ENC_TABLE_64, 9, 3022319891, 513735);
  }
  lemma Enc64Col10()
    ensures LIMB_MAX * ColSum(ENC_TABLE_64, 0, 16, 10) <= SAFE_LIMIT
  {
    Enc64LowCol10();
    Enc64HighCol10();
    SplitBound(ENC_TABLE_64, 10, 2468752419, 77301556);
  }
  lemma Enc64Col11()
    ensures LIMB_MAX * ColSum(ENC_TABLE_64, 0, 16, 11) <= SAFE_LIMIT
  {
    Enc64LowCol11();
    Enc64HighCol11();
    SplitBound(ENC_TABLE_64, 11, 2454410357, 1083368708);
  }
  lemma Enc64Col12()
    ensures LIMB_MAX * ColSum(ENC_TABLE_64, 0, 16, 12) <= SAFE_LIMIT
  {
    Enc64LowCol12();
    Enc64HighCol12();
    SplitBound(ENC_TABLE_64, 12, 2095064915, 904651139);
  }
  lemma Enc64Col13()
    ensures LIMB_MAX * ColSum(ENC_TABLE_64, 0, 16, 13) <= SAFE_LIMIT
  {
    Enc64LowCol13();
    Enc64HighCol13();
    SplitBound(ENC_TABLE_64, 13, 2587279417, 1025162445);
  }
  lemma Enc64Col16()
    ensures LIMB_MAX * ColSum(ENC_TABLE_64, 0, 16, 16) <= SAFE_LIMIT
  {
    Enc64LowCol16();
    Enc64HighCol16();
    SplitBound(ENC_TABLE_64, 16, 1944514976, 1967866689);
  }
  lemma Dec32Col0()
    ensures ColSum(DEC_TABLE_32, 0, 9, 0) == 1277
  {
    ColSumUnroll9(DEC_TABLE_32, 0, 0);
  }
  lemma Dec32Col1()
    ensures ColSum(DEC_TABLE_32, 0, 9, 1) == 2650406047
  {
    ColSumUnroll9(DEC_TABLE_32, 0, 1);
  }
  lemma Dec32Col2()
    ensures ColSum(DEC_TABLE_32, 0, 9, 2) == 4985821069
  {
    ColSumUnroll9(DEC_TABLE_32, 0, 2);
  }
  lemma Dec32Col3()
    ensures ColSum(DEC_TABLE_32, 0, 9, 3) == 8119339046
  {
    ColSumUnroll9(DEC_TABLE_32, 0, 3);
  }
  lemma Dec32Col4()
    ensures ColSum(DEC_TABLE_32, 0, 9, 4) == 9980610221
  {
    ColSumUnroll9(DEC_TABLE_32, 0, 4);
  }
  lemma Dec32Col5()
    ensures ColSum(DEC_TABLE_32, 0, 9, 5) == 11189749374
  {
    ColSumUnroll9(DEC_TABLE_32, 0, 5);
  }
  lemma Dec32Col6()
    ensures ColSum(DEC_TABLE_32, 0, 9, 6) == 10756125405
  {
    ColSumUnroll9(DEC_TABLE_32, 0, 6);
  }
  lemma Dec32Col7()
    ensures ColSum(DEC_TABLE_32, 0, 9, 7) == 13361306017
  {
    ColSumUnroll9(DEC_TABLE_32, 0, 7);
  }
  lemma Dec64Col0()
    ensures ColSum(DEC_TABLE_64, 0, 18, 0) == 249448
  {
    ColSumUnroll18(DEC_TABLE_64, 0, 0);
  }
  lemma Dec64Col1()
    ensures ColSum(DEC_TABLE_64, 0, 18, 1) == 3721496370
  {
    ColSumUnroll18(DEC_TABLE_64, 0, 1);
  }
  lemma Dec64Col2()
    ensures ColSum(DEC_TABLE_64, 0, 18, 2) == 2067373122
  {
    ColSumUnroll18(DEC_TABLE_64, 0, 2);
  }
  lemma Dec64Col3()
    ensures ColSum(DEC_TABLE_64, 0, 18, 3) == 9643115010
  {
    ColSumUnroll18(DEC_TABLE_64, 0, 3);
  }
  lemma Dec64Col4()
    ensures ColSum(DEC_TABLE_64, 0, 18, 4) == 8042003144
  {
    ColSumUnroll18(DEC_TABLE_64, 0, 4);
  }
  lemma Dec64Col5()
    ensures ColSum(DEC_TABLE_64, 0, 18, 5) == 14881031902
  {
    ColSumUnroll18(DEC_TABLE_64, 0, 5);
  }
  lemma Dec64Col6()
    ensures ColSum(DEC_TABLE_64, 0, 18, 6) == 13234675935
  {
    ColSumUnroll18(DEC_TABLE_64, 0, 6);
  }
  lemma Dec64Col7()
    ensures ColSum(DEC_TABLE_64, 0, 18, 7) == 19972889066
  {
    ColSumUnroll18(DEC_TABLE_64, 0, 7);
  }
  lemma Dec64Col8()
    ensures ColSum(DEC_TABLE_64, 0, 18, 8) == 23641024866
  {
    ColSumUnroll18(DEC_TABLE_64, 0, 8);
  }
  lemma Dec64Col9()
    ensures ColSum(DEC_TABLE_64, 0, 18, 9) == 24196573359
  {
    ColSumUnroll18(DEC_TABLE_64, 0, 9);
  }
  lemma Dec64Col10()
    ensures ColSum(DEC_TABLE_64, 0, 18, 10) == 20480803456
  {
    ColSumUnroll18(DEC_TABLE_64, 0, 10);
  }
  lemma Dec64Col11()
    ensures ColSum(DEC_TABLE_64, 0, 18, 11) == 27126095556
  {
    ColSumUnroll18(DEC_TABLE_64, 0, 11);
  }
  lemma Dec64Col12()
    ensures ColSum(DEC_TABLE_64, 0, 18, 12) == 25775441434
  {
    ColSumUnroll18(DEC_TABLE_64, 0, 12);
  }
  lemma Dec64Col13()
    ensures ColSum(DEC_TABLE_64, 0, 18, 13) == 28057861387
  {
    ColSumUnroll18(DEC_TABLE_64, 0, 13);
  }
  lemma Dec64Col14()
    ensures ColSum(DEC_TABLE_64, 0, 18, 14) == 15154746077
  {
    ColSumUnroll18(DEC_TABLE_64, 0, 14);
  }
  lemma Dec64Col15()
    ensures ColSum(DEC_TABLE_64, 0, 18, 15) == 13361306017
  {
    ColSumUnroll18(DEC_TABLE_64, 0, 15);
  }

  // ---------------------------------------------------------------------
  // Entry bounds of the tables

  lemma Enc32Entries()
    ensures forall i, j | 0 <= i < 8 && 0 <= j < 8 :: ENC_TABLE_32[i][j] < R1
  {
  }

  lemma Enc64EntriesLow()
    ensures forall i, j | 0 <= i < 8 && 0 <= j < 17 :: ENC_TABLE_64[i][j] < R1
  {
  }

  lemma Enc64EntriesHigh()
    ensures forall i, j | 8 <= i < 16 && 0 <= j < 17 :: ENC_TABLE_64[i][j] < R1
  {
  }

  lemma Dec32Entries()
    ensures forall i, j | 0 <= i < 9 && 0 <= j < 8 :: DEC_TABLE_32[i][j] < TWO32
  {
  }

  lemma Dec64EntriesLow()
    ensures forall i, j | 0 <= i < 9 && 0 <= j < 16 :: DEC_TABLE_64[i][j] < TWO32
  {
  }

  lemma Dec64EntriesHigh()
    ensures forall i, j | 9 <= i < 18 && 0 <= j < 16 :: DEC_TABLE_64[i][j] < TWO32
  {
  }
}
