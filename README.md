# ZBase64 — a verified model of zsign's Base64 codec

`ZBase64` (declared in `Shared/Magic/zsign/common/base64.h`, implemented in
`Shared/Magic/zsign/common/base64.cpp`) is the Base 64 codec of the zsign
signer. It follows the Base 64 encoding of section 4 of RFC 4648 with the
alphabet of Table 1 of that RFC.

- `Encode` turns every three input bytes into four alphabet characters. It
  pads a one- or two-byte tail with `=`, and returns a fresh NUL-terminated
  buffer.
- `Decode` works in three steps:
  - It counts the characters that are not whitespace. It rejects the text
    when that count is not a multiple of four.
  - It derives the output length from the count and from the `=` among the
    last two raw characters.
  - It runs a four-phase state machine over the remaining characters, which
    skips whitespace and every byte outside the alphabet.
- Every buffer either call hands out is recorded in `m_arrEnc` or `m_arrDec`.
  The destructor frees them all.

The project has three modules, one per file:

- `tables.dfy`, module `Base64Tables`, holds the 64-character alphabet
  (`s_ca_table_enc`), the decode table (`s_ca_table_dec`) and the C-locale
  whitespace test. `BuildDecodeTable` is the table's initialisation loop,
  proved to produce exactly the decode function.
- `spec.dfy`, module `Base64Spec`, is the value-level specification.
  - `Encoding(data)` is the text `Encode` writes.
  - `Decoding(s)` is what `Decode` reports and writes for the text `s`.
  - Its lemmas cover the shape of an encoding, the decoder's bounds, the
    step-by-step state machine against the group-wise unpacking, the round
    trip and the unusual inputs.
- `codec.dfy`, module `Base64Codec`, is class `ZBase64`.
  - Its fields `encoded` and `decoded` are `m_arrEnc` and `m_arrDec`. The
    ghost field `released` lists the buffers passed to `delete[]`.
  - Its methods include the four overloads, which write into `array<byte>`
    buffers. Each overload is proved against the functions of `Base64Spec`.
  - `Dispose` is the destructor. It releases every tracked buffer and empties
    both lists.

Bytes are `bv8`, so shifts truncate to eight bits exactly as the stores into
`unsigned char` do. A C `int` is an unbounded `int`, and a C string is
`seq<byte>`. A pointer argument is `array?<byte>`, where `null` is the null
pointer. The `int*` out-parameter of `Decode` is a value passed in
(`outDataLen`) and a value passed out (`outLen`). A rejected call returns the
incoming value unchanged, as the C++ leaves `*pOutDataLen` untouched.

## Model

| member | source | states |
|---|---|---|
| Base64Tables.EncodeChar | Shared/Magic/zsign/common/base64.cpp:36 | `s_ca_table_enc[v]` for a sextet `v < 64`: A–Z for 0–25, a–z for 26–51, 0–9 for 52–61, `+` for 62 and `/` for 63; the literal itself is the constant `Alphabet` |
| Base64Tables.DecodeChar | Shared/Magic/zsign/common/base64.cpp:115-121 | `s_ca_table_dec[c]` once filled: the alphabet index of `c`, and 0xff for every byte outside the alphabet |
| Base64Tables.IsSpace | Shared/Magic/zsign/common/base64.cpp:95 | `isspace` in the C locale, used both by the count loop and by the skip at line 130: space, `\t`, `\n`, `\v`, `\f`, `\r` |
| Base64Tables.AlphabetIsEncodeTable | Shared/Magic/zsign/common/base64.cpp:36 | the encode alphabet has 64 entries, and entry `v` is the character `EncodeChar(v)`: A–Z, a–z, 0–9, `+`, `/` in RFC 4648 Table 1 order |
| Base64Tables.EncodeCharDistinct | Shared/Magic/zsign/common/base64.cpp:36 | two alphabet indices give the same character exactly when they are equal; no alphabet character is `=` or whitespace |
| Base64Tables.DecodeCharInverts | Shared/Magic/zsign/common/base64.cpp:119-121 | the decode table maps the `i`-th alphabet character back to `i` |
| Base64Tables.DecodeCharValid | Shared/Magic/zsign/common/base64.cpp:118-121 | a byte decodes to 0xff exactly when no alphabet index encodes to it; otherwise it decodes to an index below 64 that encodes back to it |
| Base64Tables.SkippedBytes | Shared/Magic/zsign/common/base64.cpp:130-137 | `=` and the whitespace bytes map to 0xff in the decode table, so the decoder never consumes them |
| Base64Tables.PartialTableStep | Shared/Magic/zsign/common/base64.cpp:119-121 | one pass of the fill loop changes only the entry of character `enc[i]`, from 0xff to `i` |
| Base64Tables.BuildDecodeTable | Shared/Magic/zsign/common/base64.cpp:115-123 | filling all 256 entries with 0xff, then storing `i` at `enc[i]` for `i < 64`, yields a fresh 256-entry table equal to the decode function at every byte |
| Base64Spec.GroupSextets | Shared/Magic/zsign/common/base64.cpp:55-58 | the four alphabet indices of a full group: `p0>>2`, `(p0&3)<<4` OR `p1>>4`, `(p1&0xf)<<2` OR `p2>>6` and `p2&0x3f` |
| Base64Spec.EncodeGroup | Shared/Magic/zsign/common/base64.cpp:55-58 | the four characters stored at `q[0..3]` for a full group: the alphabet characters of its four indices |
| Base64Spec.PadLength | Shared/Magic/zsign/common/base64.cpp:64-75 | the number of `=` that end the text: two for a remainder of 1, one for a remainder of 2, none for a remainder of 0 |
| Base64Spec.PaddedGroup | Shared/Magic/zsign/common/base64.cpp:64-75 | the four characters stored for a tail of one byte (two characters, `==`) or of two bytes (three characters, `=`) |
| Base64Spec.Encoding | Shared/Magic/zsign/common/base64.cpp:44 | the text for `n` input bytes has exactly `(n + 2) / 3 * 4` characters |
| Base64Spec.EncodingDrop | Shared/Magic/zsign/common/base64.cpp:54-62 | after `g` full groups have been consumed, the rest of the text is the encoding of the rest of the input (`p += 3`, `q += 4`) |
| Base64Spec.EncodingGroupAt | Shared/Magic/zsign/common/base64.cpp:54-62 | the `g`-th full input triple becomes characters `4g..4g+3`, the alphabet characters of `p0>>2`, `(p0&3)<<4` OR `p1>>4`, `(p1&0xf)<<2` OR `p2>>6` and `p2&0x3f` |
| Base64Spec.EncodingTail | Shared/Magic/zsign/common/base64.cpp:64-76 | for a tail of one or two bytes, the last four characters are that tail's padded group, and the text ends with them |
| Base64Spec.ShortEncoding | Shared/Magic/zsign/common/base64.cpp:64-76 | one byte encodes as two characters and `==`; two bytes encode as three characters and `=` |
| Base64Spec.EncodingShape | Shared/Magic/zsign/common/base64.cpp:54-76 | a remainder of 1 ends the text in exactly `==`, a remainder of 2 in exactly one `=`, a remainder of 0 gives no `=`; every other character is an alphabet character |
| Base64Spec.EncodingHasNoSpace | Shared/Magic/zsign/common/base64.cpp:54-76 | no character of an encoding is whitespace, so all of them count when it is decoded |
| Base64Spec.NonSpaceCount | Shared/Magic/zsign/common/base64.cpp:93-98 | `nRealLen`: the number of non-whitespace characters of the text, never more than its length |
| Base64Spec.TrailingPads | Shared/Magic/zsign/common/base64.cpp:105-109 | `nPadding`: one for each `=` among the last two raw characters, whitespace included, so at most two |
| Base64Spec.Skipped | Shared/Magic/zsign/common/base64.cpp:129-137 | the loop passes over a character without a state change when it is whitespace or its table entry is 0xff |
| Base64Spec.Sextets | Shared/Magic/zsign/common/base64.cpp:129-137 | the table values the loop feeds to the `switch`, in input order: at most one per non-whitespace character, each below 64 |
| Base64Spec.Unpack | Shared/Magic/zsign/common/base64.cpp:127-157 | the bytes the `switch` touches for a run of sextets: three per full group of four, then one per sextet of a final partial group |
| Base64Spec.UnpackPartial | Shared/Magic/zsign/common/base64.cpp:139-155 | the bytes touched by a final group of one, two or three sextets: one byte per sextet, the last one holding only its high bits |
| Base64Spec.DecodeGroup | Shared/Magic/zsign/common/base64.cpp:139-155 | the three bytes a full group of four sextets leaves behind, with shifts truncated to eight bits |
| Base64Spec.Decoding | Shared/Magic/zsign/common/base64.cpp:88-157 | a text is rejected exactly when it is empty or its non-whitespace count is not a multiple of 4; an accepted text reports a length within two of `count / 4 * 3`, and the bytes written below it are no more than that length |
| Base64Spec.ReportedLength | Shared/Magic/zsign/common/base64.cpp:105-111 | the reported length is `nRealLen / 4 * 3 - nPadding`, with `nPadding` counting `=` at the last two raw positions only; the bytes the state machine touches fit below that length plus one |
| Base64Spec.SextetsBelowPadding | Shared/Magic/zsign/common/base64.cpp:105-109 | the characters counted as padding are never consumed, so at most `nRealLen - nPadding` sextets are fed to the state machine |
| Base64Spec.DecodeWritesInBounds | Shared/Magic/zsign/common/base64.cpp:112-157 | every byte the state machine touches lies below index `outLen + 1`, the size of the buffer it writes into |
| Base64Spec.SextetsOfSpace | Shared/Magic/zsign/common/base64.cpp:130-132 | a whitespace character consumes no sextet |
| Base64Spec.SextetsOfChar | Shared/Magic/zsign/common/base64.cpp:134-137 | any other character consumes its decode-table value, unless that value is 0xff |
| Base64Spec.SextetsAppend | Shared/Magic/zsign/common/base64.cpp:129-157 | the sextets consumed from two texts in a row are those of the first text, then those of the second |
| Base64Spec.Step | Shared/Magic/zsign/common/base64.cpp:139-155 | one pass of the `switch (j % 4)` on the bytes touched so far: it adds one byte in phases 0–2 and none in phase 3 |
| Base64Spec.OrLast | Shared/Magic/zsign/common/base64.cpp:143-153 | the `q[k] OR= x` stores of phases 1–3, which change the last touched byte only and keep the length |
| Base64Spec.StepKeeps | Shared/Magic/zsign/common/base64.cpp:139-155 | one step of the state machine leaves every byte before the current one untouched |
| Base64Spec.StepWrites | Shared/Magic/zsign/common/base64.cpp:139-155 | phase 0 starts a byte with `c << 2`; phase 1 ORs `c >> 4` into it and starts the next with `c << 4`; phase 2 ORs `c >> 2` and starts `c << 6`; phase 3 ORs `c` into the third byte |
| Base64Spec.UnpackSnoc | Shared/Magic/zsign/common/base64.cpp:127-157 | feeding one more sextet to the `j % 4` state machine turns the bytes of the group-wise unpacking of `v` into those of `v + [c]` |
| Base64Spec.UnpackOfEncoding | Shared/Magic/zsign/common/base64.cpp:54-157 | unpacking the sextets of an encoding gives back the input, plus one zero byte after a padded tail |
| Base64Spec.RoundTrip | Shared/Magic/zsign/common/base64.cpp:39-161 | decoding the encoding of any non-empty byte string reports its length and writes exactly its bytes |
| Base64Spec.TrailingNewlineHidesPadding | Shared/Magic/zsign/common/base64.cpp:107-108 | `"QQ=="` reports length 1 with byte `A`, but `"QQ==\n"` reports length 2, the second byte being the zero left over from the last sextet |
| Base64Spec.AllPaddingWritesNothing | Shared/Magic/zsign/common/base64.cpp:105-137 | `"===="` is accepted and reports length 1, but no byte is ever written below that length |
| Base64Spec.WhitespaceOnlyIsEmpty | Shared/Magic/zsign/common/base64.cpp:88-111 | the empty text is rejected, while a text of whitespace only is accepted with length 0 |
| Base64Codec.Int32Of | Shared/Magic/zsign/common/base64.cpp:83 | `(int)size()` lies in the 32-bit range, agrees with the size modulo 2^32, and is the size itself whenever the size fits |
| Base64Codec.ZBase64.constructor | Shared/Magic/zsign/common/base64.cpp:18 | a new object tracks no buffers |
| Base64Codec.ZBase64.Dispose | Shared/Magic/zsign/common/base64.cpp:20-34 | every buffer of `m_arrEnc`, then every buffer of `m_arrDec`, is released in order, and both lists end up empty |
| Base64Codec.ZBase64.Encode | Shared/Magic/zsign/common/base64.cpp:39-80 | returns null, recording nothing, exactly for a null pointer or `nDataLen <= 0`; otherwise returns a fresh buffer that holds `Encoding` of the first `nDataLen` bytes and then a NUL, appended to `m_arrEnc`, with `m_arrDec` unchanged |
| Base64Codec.ZBase64.WriteEncoding | Shared/Magic/zsign/common/base64.cpp:48-78 | the buffer of `(n + 2) / 3 * 4 + 1` bytes ends up holding exactly the encoding followed by the NUL |
| Base64Codec.ZBase64.EncodeGroups | Shared/Magic/zsign/common/base64.cpp:54-62 | after `nDataLen / 3` passes, `p` and `q` stand at `3 * (n / 3)` and `4 * (n / 3)`, and the buffer holds the first `q` characters of the encoding |
| Base64Codec.ZBase64.PutGroup | Shared/Magic/zsign/common/base64.cpp:55-58 | the four characters of a full group land at `q[0..3]`, and nothing else in the buffer changes |
| Base64Codec.ZBase64.PutTail | Shared/Magic/zsign/common/base64.cpp:64-75 | the padded tail group lands at `q[0..3]`, and nothing else in the buffer changes |
| Base64Codec.ZBase64.EncodeString | Shared/Magic/zsign/common/base64.cpp:82-84 | behaves as the pointer form on the string's bytes with length `(int)size()` |
| Base64Codec.ZBase64.Decode | Shared/Magic/zsign/common/base64.cpp:87-161 | returns null for a null pointer or `nDataLen <= 0`, and otherwise returns null exactly when `Decoding` rejects the text; a null result leaves `*pOutDataLen` and both lists unchanged. Otherwise it stores the reported length, returns a fresh buffer of that length plus one that is appended to `m_arrDec`, NUL-terminated at `outLen`, and holding the written bytes of `Decoding` |
| Base64Codec.ZBase64.OutputLength | Shared/Magic/zsign/common/base64.cpp:92-111 | the count-and-padding checks accept exactly the texts `Decoding` accepts, and compute the length it reports |
| Base64Codec.ZBase64.CountNonSpace | Shared/Magic/zsign/common/base64.cpp:93-98 | `nRealLen` is the number of non-whitespace characters among the first `nDataLen` |
| Base64Codec.ZBase64.WriteDecoding | Shared/Magic/zsign/common/base64.cpp:125-157 | after the loop, the buffer holds, at every index the state machine touched, the byte that the group-wise unpacking of the consumed sextets gives |
| Base64Codec.ZBase64.StoreSextet | Shared/Magic/zsign/common/base64.cpp:139-156 | the `switch (j % 4)` extends the bytes held for the sextets before `c` to those for the sextets up to `c`, and advances `q` by three exactly after phase 3 |
| Base64Codec.ZBase64.Phase0 | Shared/Magic/zsign/common/base64.cpp:140-142 | case 0 writes the byte that phase 0 starts, keeping every earlier byte |
| Base64Codec.ZBase64.Phase1 | Shared/Magic/zsign/common/base64.cpp:143-146 | case 1 completes the first byte of the group and starts the second, keeping every earlier byte |
| Base64Codec.ZBase64.Phase2 | Shared/Magic/zsign/common/base64.cpp:147-150 | case 2 completes the second byte and starts the third, keeping every earlier byte |
| Base64Codec.ZBase64.Phase3 | Shared/Magic/zsign/common/base64.cpp:151-154 | case 3 completes the third byte of the group, keeping every earlier byte |
| Base64Codec.ZBase64.DecodeString | Shared/Magic/zsign/common/base64.cpp:163-165 | behaves as the pointer form on the string's bytes with length `(int)size()` |

## Left out

- The Mach-O signer (`Shared/Magic/zsign/archo.h`) is not part of this
  model. Only its declarations exist, so there is no behaviour to model. The
  two Python scripts next to it only drive external tools and files.
- `new[]` and `delete[]`: a buffer is a fresh `array<byte>`. Releasing it is
  recorded in the ghost list `released` rather than freeing memory. Use
  after release is not modelled.
- The lazy, non-thread-safe initialisation of the static decode table:
  `Decode` builds the table with `BuildDecodeTable` on every call. The proof
  shows the result equals the one table the C++ builds once. Concurrency is
  not modelled.
- `isspace` follows the C locale: space, `\t`, `\n`, `\v`, `\f` and `\r`.
  Other locales are not modelled.
- Base64Codec.ZBase64.Decode: says nothing about buffer bytes the state
  machine never writes below `outLen`, such as byte 0 for `"===="`. The C++
  leaves them uninitialised.
- Base64Codec.ZBase64.Encode: does not model the 32-bit overflow of
  `(nDataLen + 2) / 3 * 4`. That value exceeds `INT_MAX` from
  `nDataLen >= 1610612734`, about three quarters of `INT_MAX`. Lengths are
  unbounded integers, and the caller must pass a buffer of at least
  `nDataLen` bytes.
- Base64Codec.ZBase64.Decode: the model has no null `pOutDataLen`. The C++
  is safe with one only on the rejection paths (lines 88-90 and 101-103),
  which return before the one dereference at line 111. An accepted text
  with a null out-pointer dereferences null. The caller must also pass a
  buffer of at least `nDataLen` bytes.
