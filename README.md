# fd58 in Dafny: fixed-size Base58 encoding and decoding

This project models the C core of `fd58`, Firedancer's fast Base58 codec
for 32- and 64-byte values such as Solana account addresses and
transaction signatures. It also proves properties of that model.

- `fd_base58_encode_N` treats N bytes as a big-endian integer and writes
  it as a nul-terminated Base58 string. It uses the Bitcoin alphabet and
  writes one leading `'1'` per leading zero byte.
- `fd_base58_decode_N` reverses this. It rejects the text on an invalid
  character, on a text too long for the buffer, on a value that does not
  fit in N bytes, and on leading `'1'`s that do not match the leading
  zero bytes.

Neither direction uses bignum arithmetic. Both go through an
"intermediate" radix of 58^5 and precomputed conversion tables, and the
table rows are summed in 64-bit accumulators. Most of the proof work
shows that these accumulators never overflow.

The modules follow the source:

- `Radix` (radix.dfy): the arithmetic the template relies on.
  - `Val(s, b)` is the value of a big-endian digit string.
  - `Pow`, fixed-width digit strings `DigitsN`, shortest digit strings `Digits`.
  - Regrouping digits, and column sums `ColSum` of conversion tables.
- `Tables` (tables.dfy): the constants and tables of `fd_base58.c`.
  - The alphabet `base58_chars` and the inverse table `base58_inverse`.
  - The sizes of both instantiations (`Size32`, `Size64`).
  - The four conversion tables, transcribed exactly.
  - Proofs of what each table row is worth.
  - Proofs of the per-column bounds that keep every 64-bit sum in range.
- `Base58` (base58.dfy): the codec as functions on values.
  - `Encoding(b)` is the text of b, and `Decoding(sz, text)` is the bytes
    of a text or `None`.
  - The header's promises about them: lengths, alphabet, round trip, and
    canonicity.
- `Limbs` (limbs.dfy): the carry pass, which both directions share.
- `Encoder` (encode.dfy): `fd_base58_encode_N`. Each loop of the template
  is a method over arrays; the C `uint64_t` buffers become `array<uint64>`.
- `Decoder` (decode.dfy): `fd_base58_decode_N`, built the same way.

The machine integers are subset types: `uint8`, `uint32` and `uint64`
are the ranges [0, 2^8), [0, 2^32) and [0, 2^64). Every store into a
`uint64` entry is therefore checked to stay below 2^64. This is how the
model shows that no 64-bit accumulator wraps around. The main case is
the 64-byte encoding: its mini-reduction is required, because column 15
of all sixteen rows can exceed 2^64 without it (`Tables.MiniReductionNeeded`).

`Encoder.Encode` and `Decoder.Decode` are specified against
`Base58.Encoding` and `Base58.Decoding`. `Base58.RoundTrip` and
`Base58.Canonical` then prove that these two specifications invert each
other.

The decoder's failure output follows the code rather than the header.
The header allows `out` to hold anything on failure. In the code, `out`
is untouched when the text is invalid or its value is too large. When
only the leading-`'1'` check fails, `out` already holds the decoded
bytes. `Decoder.Decode` states both facts.

## Model

| member | source | states |
|---|---|---|
| Encoder.Encode | src/fd58/fd_base58_tmpl.h:32-174 | The returned length is that of the Base58 encoding of the N bytes, and lies between N and FD_BASE58_ENCODED_N_LEN. out[..len] is exactly that encoding and out[len] is the nul. No byte after the nul changes. |
| Encoder.CountLeadingZeros | src/fd58/fd_base58_tmpl.h:39-40 | The count is the number of zero bytes before the first nonzero byte (all N bytes when every byte is zero). |
| Encoder.BigEndianWord | src/fd58/fd_base58_tmpl.h:49-50 | A byte-swapped 32-bit load of four bytes is their big-endian value. |
| Encoder.ToLimbs | src/fd58/fd_base58_tmpl.h:44-51 | Limb i is the big-endian value of bytes 4i..4i+3. The limbs in base 2^32 are worth the bytes' big-endian value. |
| Encoder.AddRows | src/fd58/fd_base58_tmpl.h:69-71 | Accumulator k+1 gains exactly the limb-weighted sum of table column k over the given rows. That gain is at most LIMB_MAX times the column sum, and the caller keeps it below 2^64. With rows worth powers of 2^32, the accumulators gain exactly the value of those limbs. |
| Encoder.AddedValue | src/fd58/fd_base58_tmpl.h:55-58 | Adding rows lo..hi-1 keeps the invariant "accumulators in base 58^5 plus the unprocessed limbs = X". |
| Encoder.RangeAdded | src/fd58/fd_base58_tmpl.h:69-71 | The accumulators gain the base-58^5 value of the added column combinations. |
| Encoder.ColumnsAdded | src/fd58/fd_base58_tmpl.h:71 | Adding c[k] to entry k+1 (leaving entry 0) adds the value of c. |
| Encoder.Accumulate32 | src/fd58/fd_base58_tmpl.h:64-71 | Starting from zeros, entry 0 stays 0 and entry k+1 becomes the full column combination. Every entry stays at most 2^64-2^36, and the base-58^5 value is the limbs' value. |
| Encoder.FirstRows | src/fd58/fd_base58_tmpl.h:87-89 | After rows 0..7, each entry k+1 is at most LIMB_MAX times column k's sum over those rows, and the value is the first eight limbs scaled by 2^256. |
| Encoder.MiniReduce | src/fd58/fd_base58_tmpl.h:90-92 | Entry 15 gains entry 16 divided by 58^5, and entry 16 keeps the remainder. Nothing else changes and the value is preserved. Afterwards every entry has room for the last eight rows. |
| Encoder.ReducedRoom | src/fd58/fd_base58_tmpl.h:75-85 | After the mini-reduction, adding LIMB_MAX times the sum over rows 8..15 keeps every entry at most 2^64-2^36. This is the informal overflow argument of the comment, made exact. |
| Encoder.RoomAt15 | src/fd58/fd_base58_tmpl.h:81-84 | Entry 15, plus the quotient it receives and the last rows, stays within the limit. |
| Encoder.RoomAt16 | src/fd58/fd_base58_tmpl.h:78-80 | Entry 16, once reduced below 58^5, plus the last rows stays within the limit. |
| Encoder.RoomElsewhere | src/fd58/fd_base58_tmpl.h:84-85 | Every other entry stays within the limit, because the bound for all sixteen rows covers it. |
| Encoder.LastRows | src/fd58/fd_base58_tmpl.h:93-96 | Adding rows 8..15 keeps every entry at most 2^64-2^36. It adds exactly the value of the last eight limbs. |
| Encoder.FromZero | src/fd58/fd_base58_tmpl.h:62 | Because the accumulators start zeroed (the memset), their bound after rows 0..7 is the column bound alone. |
| Encoder.Accumulate64 | src/fd58/fd_base58_tmpl.h:73-96 | Starting from zeros, rows 0..7, the mini-reduction and rows 8..15 leave every entry at most 2^64-2^36. The base-58^5 value equals the limbs' value. |
| Encoder.Accumulate | src/fd58/fd_base58_tmpl.h:64-100 | For either N, no 64-bit overflow occurs and the intermediate value is the input's value. |
| Encoder.Intermediate | src/fd58/fd_base58_tmpl.h:53-118 | The INTERMEDIATE_SZ entries are all below 58^5 after the carry, and in base 58^5 they are worth the input bytes' value. |
| Limbs.QuotientBound | src/fd58/fd_base58_tmpl.h:111-113 | A 64-bit entry divided by 58^5 or 2^32 has a quotient below 2^36. Its remainder is below both the radix and the entry. |
| Limbs.CarryAt | src/fd58/fd_base58_tmpl.h:115-118 | One carry step: a[i-1] gains a[i]/r, a[i] becomes a[i] mod r, no other entry changes, and the value in radix r is preserved. |
| Limbs.Carry | src/fd58/fd_base58_tmpl.h:115-118 | If every entry is at most 2^64-2^36, the carry pass never overflows. Afterwards every entry but the first is below r and the value is unchanged. The decoder runs the same pass with r = 2^32 (lines 242-245, where >> 32 and & 0xFFFFFFFF are the quotient and remainder). |
| Encoder.FiveDigits | src/fd58/fd_base58_tmpl.h:133-137 | For v < 58^5, the five divisions are the five base-58 digits of v, most significant first, and the unreduced top quotient is below 58. |
| Encoder.EntryDigits | src/fd58/fd_base58_tmpl.h:132-137 | The five computed bytes are the 5-digit base-58 expansion of the entry. |
| Encoder.ExpandEntry | src/fd58/fd_base58_tmpl.h:132-137 | raw[5i..5i+4] becomes the entry's five base-58 digits. Earlier positions are unchanged. |
| Encoder.Expand | src/fd58/fd_base58_tmpl.h:125-138 | The raw digits are the entries' digits, ungrouped. Each is below 58, and in base 58 they are worth the intermediate value. |
| Encoder.TopEntry | src/fd58/fd_base58_tmpl.h:127-128 | When the value fits in the entries, the first entry is below 58^5 too, so the cast and the unreduced top division are safe. |
| Encoder.ValueFits | src/fd58/fd_base58_tmpl.h:11-13 | Any N-byte value is below (58^5)^INTERMEDIATE_SZ. |
| Encoder.RawDigits58 | src/fd58/fd_base58_tmpl.h:43-138 | RAW58_SZ digits below 58 whose base-58 value is the input's big-endian value. |
| Encoder.RawDigits | src/fd58/fd_base58_tmpl.h:146-147 | After their leading zeros, the raw digits are the shortest base-58 digits of the value. |
| Encoder.KeptDigits | src/fd58/fd_base58_tmpl.h:140-144 | Zero digits followed by d, with room for z more, keep z zeros before d once the others are dropped. |
| Encoder.SkipSpellsEncoding | src/fd58/fd_base58_tmpl.h:149-168 | raw_leading_0s >= in_leading_0s, so skip never underflows. Spelling the digits from skip onward gives the encoding. |
| Encoder.Skip | src/fd58/fd_base58_tmpl.h:146-168 | The skip lies within the raw digits, and the digits after it spell exactly the encoding of the input. |
| Encoder.WriteChars | src/fd58/fd_base58_tmpl.h:169-171 | out[..RAW58_SZ-skip] spells the kept digits in the alphabet and is followed by a nul. Bytes after the nul are untouched. |
| Encoder.Output | src/fd58/fd_base58_tmpl.h:140-173 | The returned length is the encoding's length. out holds the encoding and a nul, and nothing after the nul changes. |
| Decoder.Decode | src/fd58/fd_base58_tmpl.h:176-270 | Succeeds exactly when the C string (read up to its nul, at most FD_BASE58_ENCODED_N_SZ bytes) decodes; on success out[..N] is the decoded bytes. When the value fits, out[..N] holds its bytes even if the leading-'1' check then fails. Otherwise out is unchanged, and bytes beyond N never change. |
| Decoder.ValidChar | src/fd58/fd_base58_tmpl.h:184-189 | The clamped lookup accepts a byte exactly when it is a Base58 character. |
| Decoder.DigitOf | src/fd58/fd_base58_tmpl.h:202 | The unclamped lookup of a validated character is its digit, below 58. |
| Decoder.Scan | src/fd58/fd_base58_tmpl.h:182-190 | valid is true exactly when every character before the nul (within FD_BASE58_ENCODED_N_SZ bytes) is a Base58 character. If so, the count is the text's length. |
| Decoder.CStringLength | src/fd58/fd_base58_tmpl.h:182-185 | A count of non-nul bytes stopped by a nul or by the limit is the length of the scanned text. |
| Decoder.CStringPrefix | src/fd58/fd_base58_tmpl.h:183-185 | A non-nul byte within the limit that follows only non-nul bytes belongs to the scanned text. |
| Decoder.RawFromText | src/fd58/fd_base58_tmpl.h:196-202 | RAW58_SZ - cnt zero digits followed by the digits of the text. |
| Decoder.FiveDigitValue | src/fd58/fd_base58_tmpl.h:209-213 | The weighted sum with 11316496, 195112, 3364, 58 and 1 is the base-58 value of the five digits. |
| Decoder.Intermediate | src/fd58/fd_base58_tmpl.h:207-213 | Every entry is below 58^5, and in base 58^5 the entries are worth the raw digits' base-58 value. |
| Decoder.TextIntermediate | src/fd58/fd_base58_tmpl.h:194-213 | For a valid text of at most FD_BASE58_ENCODED_N_LEN characters, the entries are below 58^5 and worth the text's value. |
| Decoder.Accumulate | src/fd58/fd_base58_tmpl.h:226-232 | Every binary[j] stays at most 2^64-2^36. The limbs in base 2^32 are worth the intermediate value. |
| Decoder.ColumnsBound | src/fd58/fd_base58_tmpl.h:216-224 | Each accumulated column is at most 2^64-2^36 when the entries are below 58^5. |
| Decoder.ColumnsValue | src/fd58/fd_base58_tmpl.h:226-232 | The accumulated columns are worth, in base 2^32, the intermediate entries in base 58^5. |
| Decoder.ColumnsRow | src/fd58/fd_base58_tmpl.h:229-231 | The accumulated columns are the combination of all table rows. |
| Decoder.AccumulateTable | src/fd58/fd_base58_tmpl.h:226-232 | With the instantiation's dec_table, there is no overflow and the value is preserved. |
| Decoder.ToBinary | src/fd58/fd_base58_tmpl.h:194-245 | After the carry, every limb but the first is below 2^32. The limbs in base 2^32 are worth the text's base-58 value. |
| Decoder.TopLimb | src/fd58/fd_base58_tmpl.h:247-251 | With the other limbs normalized, the first is below the radix exactly when the value fits in the limbs. |
| Decoder.FitsInBytes | src/fd58/fd_base58_tmpl.h:247-251 | binary[0] <= 0xFFFFFFFF exactly when the value is below 256^N, so the check rejects exactly the values that need more than N bytes. |
| Decoder.LimbsPow | src/fd58/fd_base58.c:50 | N = 4*BINARY_SZ for both instantiations (fd_base58.c:87 for N = 64), and (2^32)^BINARY_SZ = 256^N. |
| Decoder.FourBytes | src/fd58/fd_base58_tmpl.h:257 | The four bytes of a 32-bit limb, most significant first, are its 4-digit base-256 expansion. |
| Decoder.LimbBytes | src/fd58/fd_base58_tmpl.h:257 | The byte-swapped store lays out the limb's 4-digit base-256 expansion. |
| Decoder.StoreLimb | src/fd58/fd_base58_tmpl.h:255-257 | out[4i..4i+3] becomes the limb's bytes, most significant first. Every other byte is unchanged. |
| Decoder.StoreLimbs | src/fd58/fd_base58_tmpl.h:253-258 | out[..4*BINARY_SZ] becomes the limbs' value as 4*BINARY_SZ big-endian bytes. The rest of out is unchanged. |
| Decoder.BytesOfLimbs | src/fd58/fd_base58_tmpl.h:253-258 | The bytes of the limbs in order are the big-endian bytes of the limbs' value. |
| Decoder.StoreValue | src/fd58/fd_base58_tmpl.h:247-258 | Stores exactly when the value is below 256^N. Then out[..N] is its bytes; otherwise out is untouched. |
| Decoder.LeadingCheck | src/fd58/fd_base58_tmpl.h:259-268 | Accepts exactly when the number of leading '1's of the text equals the number of leading zero bytes of out. |
| Decoder.DecodeText | src/fd58/fd_base58_tmpl.h:194-270 | For a scanned text, succeeds exactly when Decoding gives bytes. Whenever the value fits, out[..N] holds those bytes. |
| Base58.CString | src/fd58/fd_base58_tmpl.h:182-185 | The scanned text is a prefix of the buffer without nul bytes, at most the limit long, and it ends at a nul when shorter than the limit. |
| Base58.LeadingOnes | src/fd58/fd_base58_tmpl.h:263-268 | The count of '1's at the start of a text; the character after them, if any, is not '1'. |
| Base58.LeadingOnesUnique | src/fd58/fd_base58_tmpl.h:263-268 | A text starting with exactly n '1's has n leading ones. |
| Base58.Spell | src/fd58/fd_base58_tmpl.h:169 | Each digit is written as base58_chars of it. |
| Base58.Unspell | src/fd58/fd_base58_tmpl.h:202 | Each character's digit is below 58 and spells back to the character. |
| Base58.BytesValue | src/fd58/fd_base58.h:16-18 | Fixes how N bytes are read as a number: as one big-endian integer, byte 0 most significant. |
| Base58.BytesOf | src/fd58/fd_base58.h:40-42 | Fixes how the decoder writes a number to out: as its N big-endian bytes. |
| Base58.Encoding | src/fd58/fd_base58.h:16-28 | Writes down the encode promise of the header as the reference output format. The text is one '1' per leading zero byte, followed by the base-58 digits of the big-endian value without leading zeros, spelled in base58_chars. Encoder.Encode is specified against it. |
| Base58.DecodedBytes | src/fd58/fd_base58_tmpl.h:182-258 | Fixes what the decoder stores before the leading check. A text longer than FD_BASE58_ENCODED_N_LEN, a text with a byte outside the alphabet, or a value of 256^N or more gives None. Otherwise it gives the N big-endian bytes of the text's base-58 value. |
| Base58.Decoding | src/fd58/fd_base58.h:40-46 | Writes down the decode promise of the header as the reference result. It gives the bytes of DecodedBytes when the text's leading '1's match their leading zero bytes (tmpl.h:259-268), and None on every failure the header names. Decoder.Decode is specified against it. |
| Base58.BytesRoundTrip | src/fd58/fd_base58.h:40-42 | Big-endian bytes are worth less than 256^len, and writing the value back as len bytes gives the same bytes. |
| Base58.BytesOfValue | src/fd58/fd_base58.h:40-42 | A value below 256^N written as N big-endian bytes reads back as the same value. |
| Base58.EncodingAlphabet | src/fd58/fd_base58_tmpl.h:140-144 | The encoding uses only alphabet characters, and its number of leading '1's equals the number of leading zero bytes. |
| Base58.DigitsLength | src/fd58/fd_base58_tmpl.h:149-152 | The shortest base-58 digit string of x is just long enough: x < 58^len and, when it is nonempty, 58^(len-1) <= x. |
| Base58.ScaledPowers | src/fd58/fd_base58_tmpl.h:153-166 | 256^(N-z) <= 58^(LEN-z) for every z <= N. This is the exact form of the comment's logarithm argument. |
| Base58.EncodingLength | src/fd58/fd_base58.h:16-21 | The encoding of N bytes has between N and FD_BASE58_ENCODED_N_LEN characters. |
| Base58.EncodingUpper | src/fd58/fd_base58.h:20-21 | Leading zeros plus digits never exceed FD_BASE58_ENCODED_N_LEN. |
| Base58.EncodingLower | src/fd58/fd_base58.h:20-21 | Leading zeros plus digits are at least N. |
| Base58.DigitsAtMost | src/fd58/fd_base58_tmpl.h:150 | A value below 58^m has at most m base-58 digits. |
| Base58.DigitsMoreThan | src/fd58/fd_base58_tmpl.h:150 | A value of at least 58^m has more than m base-58 digits. |
| Base58.UnspellEncoding | src/fd58/fd_base58_tmpl.h:194-202 | The digits of an encoding are one zero per leading zero byte followed by the value's digits. |
| Base58.EncodingSpelled | src/fd58/fd_base58_tmpl.h:140-144 | The encoding spells z zero digits followed by the value's digits. |
| Base58.UnspellSpell | src/fd58/fd_base58.c:27-28 | The inverse table undoes the alphabet: reading a spelled digit string gives the digits back. |
| Base58.RoundTrip | src/fd58/fd_base58.h:40-46 | Decoding the encoding of any N bytes succeeds and gives back the same bytes. |
| Base58.Canonical | src/fd58/fd_base58_tmpl.h:259-268 | Every accepted text is the encoding of the N bytes it decodes to. Non-canonical spellings of a value are rejected, so decoding is injective. |
| Base58.SplitText | src/fd58/fd_base58_tmpl.h:259-268 | A Base58 text is its leading '1's (zero digits) followed by the spelling of digits that start nonzero. |
| Base58.AllZOverflows | src/fd58/fd_base58_tmpl.h:247-249 | A text of FD_BASE58_ENCODED_N_LEN 'z's is all valid characters but denotes a value of more than N bytes, so it is rejected. |
| Base58.ZerosEncoding | src/fd58/fd_base58.h:20-21 | N zero bytes encode to exactly N '1's, the lower bound of the length range. |
| Base58.OneEncoding | src/fd58/fd_base58.h:16-21 | The value 1 in N bytes encodes to N-1 '1's followed by "2". |
| Base58.MaxEncoding | src/fd58/fd_base58.h:20-21 | N bytes of 0xFF encode to exactly FD_BASE58_ENCODED_N_LEN characters, with no leading '1', so the upper bound is attained. |
| Tables.AlphabetRuns | src/fd58/fd_base58.c:21 | The 58 digit characters are the base58_chars string, position by position. |
| Tables.ALPHABET | src/fd58/fd_base58.c:21 | base58_chars written as its six runs: '1'..'9', 'A'..'H', 'J'..'N', 'P'..'Z', 'a'..'k', 'm'..'z'. The omitted '0', 'I', 'O' and 'l' are excluded. |
| Tables.BASE58_CHARS | src/fd58/fd_base58.c:21 | The 58 alphabet bytes, indexed by digit; equal to ALPHABET by AlphabetRuns. |
| Tables.Char | src/fd58/fd_base58.c:21 | base58_chars[d] for a digit d, given by the six runs. |
| Tables.IsBase58Char | src/fd58/fd_base58.c:21 | A byte is a Base58 character when it lies in one of the six runs. |
| Tables.AlphabetRun0 | src/fd58/fd_base58.c:21 | Digits 0..8 are '1'..'9'. |
| Tables.AlphabetRun1 | src/fd58/fd_base58.c:21 | Digits 9..16 are 'A'..'H'. |
| Tables.AlphabetRun2 | src/fd58/fd_base58.c:21 | Digits 17..21 are 'J'..'N'. |
| Tables.AlphabetRun3 | src/fd58/fd_base58.c:21 | Digits 22..32 are 'P'..'Z'. |
| Tables.AlphabetRun4 | src/fd58/fd_base58.c:21 | Digits 33..43 are 'a'..'k'. |
| Tables.AlphabetRun5 | src/fd58/fd_base58.c:21 | Digits 44..57 are 'm'..'z'. |
| Tables.Digit | src/fd58/fd_base58.c:27-28 | An alphabet byte's digit is below 58, and that digit's character is the byte. |
| Tables.CharDigit | src/fd58/fd_base58.c:27-28 | Each digit's character is in the alphabet, and its digit is the digit itself. |
| Tables.CharAscending | src/fd58/fd_base58.c:21 | The alphabet is strictly ascending. |
| Tables.AlphabetProperties | src/fd58/fd_base58.c:21 | 58 characters from '1' to 'z', strictly ascending. A byte is in the alphabet exactly when it is a Base58 character, and then it sits at the position of its digit. |
| Tables.InverseTable | src/fd58/fd_base58.c:27-44 | The table has SENTINEL+1 = 75 entries and its sentinel entry is invalid. It maps each character minus '1' to its digit, and every other entry is BASE58_INVALID_CHAR. |
| Tables.InverseOfDigits | src/fd58/fd_base58.c:36 | The entries for '1'..'9' are digits 0..8. |
| Tables.InverseOfUpper | src/fd58/fd_base58.c:37-40 | The entries for the upper-case run are digits 9..32. |
| Tables.InverseOfLower | src/fd58/fd_base58.c:40-43 | The entries for the lower-case run are digits 33..57. |
| Tables.InverseRejects0 | src/fd58/fd_base58.c:36-38 | Each of entries 0..19 is BASE58_INVALID_CHAR or the digit whose character is that entry's byte. |
| Tables.InverseRejects20 | src/fd58/fd_base58.c:38-40 | Each of entries 20..39 is BASE58_INVALID_CHAR or the digit whose character is that entry's byte. |
| Tables.InverseRejects40 | src/fd58/fd_base58.c:40-42 | Each of entries 40..59 is BASE58_INVALID_CHAR or the digit whose character is that entry's byte. |
| Tables.InverseRejects60 | src/fd58/fd_base58.c:42-43 | Each of entries 60..74 is BASE58_INVALID_CHAR or the digit whose character is that entry's byte. |
| Tables.BASE58_INVALID_CHAR | src/fd58/fd_base58.c:23 | The marker 255 for an entry of the inverse table that is not a character. |
| Tables.BASE58_INVERSE_TABLE_OFFSET | src/fd58/fd_base58.c:24 | The inverse table is indexed by the byte minus '1'. |
| Tables.BASE58_INVERSE_TABLE_SENTINEL | src/fd58/fd_base58.c:25 | The index one past 'z' (1 + 'z' - '1' = 74), where lookups are clamped. |
| Tables.BASE58_INVERSE | src/fd58/fd_base58.c:35-44 | base58_inverse transcribed entry by entry: 75 entries, BAD written as BASE58_INVALID_CHAR. |
| Tables.InverseIndex | src/fd58/fd_base58_tmpl.h:186-188 | The clamped index never passes the sentinel. It is below the sentinel exactly when the byte lies in '1'..'z', and then it is the byte minus '1'. |
| Tables.LookupAcceptsAlphabet | src/fd58/fd_base58_tmpl.h:186-189 | The clamped lookup is valid exactly for Base58 characters, and then it yields the character's digit. |
| Tables.IntermediateSzMinimal | src/fd58/fd_base58.c:49 | INTERMEDIATE_SZ is ceil(log_(58^5)(256^N - 1)) for N = 32 and, with the definition at fd_base58.c:86, N = 64 (stated exactly with powers). |
| Tables.EncodedLenIsCeilLog | src/fd58/fd_base58.h:11-12 | FD_BASE58_ENCODED_N_LEN is ceil(log_58(256^N - 1)), and 256^N < 58^LEN. |
| Tables.Raw58SzHolds | src/fd58/fd_base58_tmpl.h:28 | 256^N <= 58^RAW58_SZ, so the raw digits can hold any input. |
| Tables.R1 | src/fd58/fd_base58_tmpl.h:53 | R1div = 656356768 = 58^5, the intermediate radix (PowValues proves the power). |
| Tables.Size.N | src/fd58/fd_base58.c:48 | N is 32 or 64, one per instantiation (the second at fd_base58.c:85). |
| Tables.Size.BinarySz | src/fd58/fd_base58.c:50 | BINARY_SZ = N/4, the number of 32-bit limbs (also fd_base58.c:87). |
| Tables.Size.IntermediateSz | src/fd58/fd_base58.c:49 | INTERMEDIATE_SZ is 9 for N = 32 and 18 for N = 64 (fd_base58.c:86). |
| Tables.Size.Raw58Sz | src/fd58/fd_base58_tmpl.h:28 | RAW58_SZ = 5*INTERMEDIATE_SZ, that is 45 and 90. |
| Tables.Size.EncodedLen | src/fd58/fd_base58.h:11-12 | FD_BASE58_ENCODED_N_LEN is 44 for N = 32 and 88 for N = 64. |
| Tables.Size.EncodedSz | src/fd58/fd_base58.h:13-14 | FD_BASE58_ENCODED_N_SZ = LEN + 1, room for the nul. |
| Tables.EncTable | src/fd58/fd_base58.c:58-67 | enc_table_N has BINARY_SZ rows of INTERMEDIATE_SZ-1 entries: enc_table_32 here, enc_table_64 at fd_base58.c:92-109. |
| Tables.DecTable | src/fd58/fd_base58.c:72-82 | dec_table_N has INTERMEDIATE_SZ rows of BINARY_SZ entries: dec_table_32 here, dec_table_64 at fd_base58.c:111-130. |
| Tables.ENC_TABLE_32 | src/fd58/fd_base58.c:58-67 | enc_table_32 transcribed exactly: 8 rows of 8 entries. |
| Tables.DEC_TABLE_32 | src/fd58/fd_base58.c:72-82 | dec_table_32 transcribed exactly: 9 rows of 8 entries. |
| Tables.ENC_TABLE_64 | src/fd58/fd_base58.c:92-109 | enc_table_64 transcribed exactly: 16 rows of 17 entries. |
| Tables.DEC_TABLE_64 | src/fd58/fd_base58.c:111-130 | dec_table_64 transcribed exactly: 18 rows of 16 entries. |
| Tables.EncTableRows | src/fd58/fd_base58.c:52-53 | Row i of enc_table_N is worth 2^(32*(BINARY_SZ-1-i)) in base 58^5. |
| Tables.DecTableRows | src/fd58/fd_base58.c:69-70 | Row i of dec_table_N is worth 58^(5*(INTERMEDIATE_SZ-1-i)) in base 2^32. |
| Tables.EncTableEntries | src/fd58/fd_base58.c:52 | Every enc_table entry is below 58^5. |
| Tables.DecTableEntries | src/fd58/fd_base58.c:69 | Every dec_table entry is below 2^32. |
| Tables.EncTableUnique | src/fd58/fd_base58.c:52-56 | Each enc_table row is the unique fixed-width base-58^5 expansion of its power of 2^32. |
| Tables.DecTableUnique | src/fd58/fd_base58.c:69-70 | Each dec_table row is the unique fixed-width base-2^32 expansion of its power of 58^5. |
| Tables.EncColumnBound32 | src/fd58/fd_base58_tmpl.h:66-67 | For N = 32, every column accumulates at most 2^64-2^36 even with all limbs 2^32-1. |
| Tables.EncColumnBound64First | src/fd58/fd_base58_tmpl.h:75-78 | For N = 64, the first eight rows never overflow a column. |
| Tables.EncColumnBound64 | src/fd58/fd_base58_tmpl.h:84-85 | For N = 64, every column other than 14 and 15 stays at most 2^64-2^36 over all sixteen rows. |
| Tables.EncColumnBounds64Reduced | src/fd58/fd_base58_tmpl.h:78-84 | Columns 14 and 15 stay at most 2^64-2^36 around the mini-reduction: one receives the carried quotient, the other restarts below 58^5. |
| Tables.MiniReductionNeeded | src/fd58/fd_base58_tmpl.h:75-77 | Without the mini-reduction, column 15 can exceed 2^64. |
| Tables.DecColumnBound | src/fd58/fd_base58_tmpl.h:216-224 | Each decoding column accumulates at most 2^64-2^36 even with all intermediate digits 58^5-1. |
| Tables.DecColumnBound32 | src/fd58/fd_base58_tmpl.h:219-220 | The same bound for dec_table_32. |
| Tables.DecColumnBound64 | src/fd58/fd_base58_tmpl.h:222-224 | The same bound for dec_table_64, where binary[13] comes closest to 2^64. |
| Tables.EncTableFits32 | src/fd58/fd_base58_tmpl.h:66-67 | enc_table_32 meets the bounds and row values that Encoder.Accumulate32 needs. |
| Tables.EncTableFits64 | src/fd58/fd_base58_tmpl.h:75-85 | enc_table_64 meets the bounds and row values that the mini-reduced accumulation needs. |
| Tables.EncFirstRowsFit64 | src/fd58/fd_base58_tmpl.h:78 | Every column of the first eight rows of enc_table_64 is below 2^64. |
| Tables.EncAllRowsFit64 | src/fd58/fd_base58_tmpl.h:84-85 | All sixteen rows fit in every column but 14 and 15. |
| Tables.DecTableFits | src/fd58/fd_base58_tmpl.h:216-224 | dec_table_N meets the bounds and row values that Decoder.Accumulate needs. |

The `Radix` lemmas, and the generated per-row and per-column lemmas of
`Tables` (`Enc32Row0`, `Enc64Step3`, `Dec64Col2`, ...), are helpers of the
members above. Each of them checks one row or one column of one table.

## Left out

- The Python bindings and the build script are not part of this model.
- Pointer aliasing and `memcpy` are not modelled. The input is a value
  (`seq<uint8>`), while `out` and the internal buffers are arrays.
  `raw != out` is required where both are arrays, because the C code uses
  separate stack buffers.
- `__builtin_bswap32` on a little-endian load is modelled as reading four
  bytes big-endian, and the decoder's store as writing a limb's four bytes
  most significant first. Host endianness is not modelled.
- `>> 32` and `& 0xFFFFFFFF` on the decoder's unsigned limbs are modelled
  as division and remainder by 2^32, which they equal there.
- Encoder.Encode returns the length instead of the pointer `out`. It does
  not model the `opt_len` out-parameter, its NULL case, or its `(unsigned)`
  cast; the length is at most 88 in any case.
- Decoder.Decode returns a boolean instead of `out` or NULL.
- `char` signedness: the encoded text is a sequence of bytes. The code
  converts each character through `uint8_t` before the clamped lookup, and
  the unclamped lookup only sees characters that passed validation.
- Branch hints (`FD_UNLIKELY`), the timing figures and the AVX remark in
  the header, and performance in general are not modelled.
- The overflow arguments that the source's comments make with fractional
  powers of two are replaced by exact integer bounds on the tables. All
  accumulators stay at most 2^64-2^36, so a following carry of less than
  2^36 cannot overflow either.
- Only the instantiations N = 32 and N = 64 exist, as in the source. Its
  `#error` branch for other N is not modelled.
