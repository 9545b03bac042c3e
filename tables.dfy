/** Lookup tables of the ZBase64 codec: the 64-character encode alphabet, the
    decode table that inverts it, and the C-locale whitespace test.
    Both tables are immutable lookups indexed by a byte. */
module Base64Tables {

  /** One byte of a C `char`/`unsigned char` buffer. */
  type byte = bv8

  /** The padding character '='. */
  const Pad: byte := 0x3D

  /** The string terminator written after every produced buffer. */
  const Nul: byte := 0

  /** The value a decode-table entry holds for a byte outside the alphabet. */
  const Invalid: byte := 0xFF

  /** The encode alphabet exactly as the class declares it (`s_ca_table_enc`). */
  const Alphabet: seq<char> :=
    ['A', 'B', 'C', 'D', 'E', 'F', 'G', 'H', 'I', 'J', 'K', 'L', 'M', 'N', 'O', 'P', 'Q', 'R', 'S', 'T', 'U', 'V', 'W', 'X', 'Y', 'Z'] +
    ['a', 'b', 'c', 'd', 'e', 'f', 'g', 'h', 'i', 'j', 'k', 'l', 'm', 'n', 'o', 'p', 'q', 'r', 's', 't', 'u', 'v', 'w', 'x', 'y', 'z'] +
    ['0', '1', '2', '3', '4', '5', '6', '7', '8', '9'] +
    ['+', '/']

  /** `s_ca_table_enc[v]`: the character code of alphabet index `v`, laid out
      as in Table 1 of RFC 4648 (A-Z, then a-z, then 0-9, then '+' and '/'). */
  function EncodeChar(v: byte): (c: byte)
    requires v < 64
  {
    if v < 26 then 0x41 + v
    else if v < 52 then 0x61 + (v - 26)
    else if v < 62 then 0x30 + (v - 52)
    else if v == 62 then 0x2B
    else 0x2F
  }

  /** `EncodeChar` spells out the `s_ca_table_enc` literal, character by
      character. */
  lemma AlphabetIsEncodeTable()
    ensures |Alphabet| == 64
    ensures forall v: byte | v < 64 :: Alphabet[v as int] as int == EncodeChar(v) as int
  {
  }

  /** `isspace` in the C locale: space, tab, newline, vertical tab, form feed
      and carriage return. */
  predicate IsSpace(c: byte)
  {
    c == 0x20 || (0x09 <= c && c <= 0x0D)
  }

  /** `s_ca_table_dec[c]`: the alphabet index of character `c`, or `Invalid`
      when `c` is not one of the 64 alphabet characters. */
  function DecodeChar(c: byte): (v: byte)
  {
    if 0x41 <= c <= 0x5A then c - 0x41
    else if 0x61 <= c <= 0x7A then c - 0x61 + 26
    else if 0x30 <= c <= 0x39 then c - 0x30 + 52
    else if c == 0x2B then 62
    else if c == 0x2F then 63
    else Invalid
  }

  /** The alphabet has 64 distinct characters; none of them is '=' and none is
      whitespace. */
  lemma EncodeCharDistinct(v: byte, w: byte)
    requires v < 64 && w < 64
    ensures EncodeChar(v) == EncodeChar(w) <==> v == w
    ensures EncodeChar(v) != Pad && !IsSpace(EncodeChar(v))
  {
  }

  /** The decode table inverts the encode table: it maps the v-th alphabet
      character back to v. */
  lemma DecodeCharInverts(v: byte)
    requires v < 64
    ensures DecodeChar(EncodeChar(v)) == v
  {
  }

  /** The decode table maps a byte to `Invalid` exactly when the byte is not
      an alphabet character; any other byte goes to the index that encodes
      back to it. */
  lemma DecodeCharValid(c: byte)
    ensures DecodeChar(c) == Invalid <==> (forall v: byte | v < 64 :: EncodeChar(v) != c)
    ensures DecodeChar(c) != Invalid ==> DecodeChar(c) < 64 && EncodeChar(DecodeChar(c)) == c
  {
    if DecodeChar(c) == Invalid {
      forall v: byte | v < 64 ensures EncodeChar(v) != c {
        DecodeCharInverts(v);
      }
    } else {
      var v := DecodeChar(c);
      assert v < 64 && EncodeChar(v) == c;
    }
  }

  /** The facts above for every alphabet index at once. */
  lemma EncodeCharFacts()
    ensures forall v: byte | v < 64 ::
      EncodeChar(v) != Pad && !IsSpace(EncodeChar(v)) && DecodeChar(EncodeChar(v)) == v
  {
  }

  /** '=' and the whitespace bytes are outside the alphabet. */
  lemma SkippedBytes(c: byte)
    requires c == Pad || IsSpace(c)
    ensures DecodeChar(c) == Invalid
  {
  }

  /** Entry `c` of the decode table once the alphabet indices below `i` have
      been stored: the index of `c` if it is below `i`, else 0xff. */
  function PartialTable(c: byte, i: int): byte
  {
    if (DecodeChar(c) as int) < i then DecodeChar(c) else Invalid
  }

  /** Storing alphabet index `i` at its character changes exactly that entry
      from 0xff to `i`. */
  lemma PartialTableStep(c: byte, i: nat)
    requires i < 64
    ensures PartialTable(c, i + 1) == if c == EncodeChar(i as byte) then i as byte else PartialTable(c, i)
  {
    var v := i as byte;
    if c == EncodeChar(v) {
      DecodeCharInverts(v);
    } else {
      DecodeCharValid(c);
      assert DecodeChar(c) != v;
    }
  }

  /** The table is filled lazily on first use: every entry is set to 0xff,
      then entry `enc[i]` is set to `i` for each of the 64 alphabet indices.
      Doing so yields exactly `DecodeChar`. */
  method BuildDecodeTable() returns (t: array<byte>)
    ensures fresh(t) && t.Length == 256
    ensures forall c: byte :: t[c as int] == DecodeChar(c)
  {
    t := new byte[256];
    for k := 0 to 256
      invariant forall j | 0 <= j < k :: t[j] == Invalid
    {
      t[k] := Invalid;
    }
    for i := 0 to 64
      invariant forall c: byte :: t[c as int] == PartialTable(c, i)
    {
      t[EncodeChar(i as byte) as int] := i as byte;
      var next := i + 1;
      forall c: byte
        ensures t[c as int] == PartialTable(c, next)
      {
        PartialTableStep(c, i);
      }
    }
    forall c: byte
      ensures t[c as int] == DecodeChar(c)
    {
      assert t[c as int] == PartialTable(c, 64);
      DecodeCharValid(c);
    }
  }
}
