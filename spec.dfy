/** Value-level specification of the ZBase64 codec: what `Encode` produces for
    a byte string, and what `Decode` reports and writes for a text. The
    methods of class `ZBase64` are proved against these functions. */
module Base64Spec {
  import opened Base64Tables

  datatype Option<T> = None | Some(value: T)

  /** What a successful `Decode` reports: the length it stores through its
      out-parameter, and the prefix of the result buffer whose bytes it
      actually writes (bytes it never writes are left unspecified). */
  datatype Decoded = Decoded(length: nat, written: seq<byte>)

  // ---------------------------------------------------------------------
  // Encoding

  /** The four alphabet indices of a full input group (a, b, c): its 24 bits
      cut into four six-bit sextets, high bits first. */
  function GroupSextets(a: byte, b: byte, c: byte): seq<byte>
  {
    [a >> 2, ((a & 0x03) << 4) | (b >> 4), ((b & 0x0F) << 2) | (c >> 6), c & 0x3F]
  }

  /** The four characters that a full input group (a, b, c) becomes. */
  function EncodeGroup(a: byte, b: byte, c: byte): seq<byte>
  {
    var s := GroupSextets(a, b, c);
    [EncodeChar(s[0]), EncodeChar(s[1]), EncodeChar(s[2]), EncodeChar(s[3])]
  }

  /** The text `Encode` writes for `data` (without its NUL terminator): one
      group of four characters per three input bytes, then a padded group for
      a tail of one or two bytes. */
  function Encoding(data: seq<byte>): (text: seq<byte>)
    ensures |text| == (|data| + 2) / 3 * 4
    decreases |data|
  {
    if |data| == 0 then []
    else if |data| <= 2 then PaddedGroup(data[0], data[|data| - 1], |data|)
    else EncodeGroup(data[0], data[1], data[2]) + Encoding(data[3..])
  }

  /** One unfolding of `Encoding`: a full first group, then the rest. */
  lemma EncodingStep(data: seq<byte>)
    requires 3 <= |data|
    ensures Encoding(data) == EncodeGroup(data[0], data[1], data[2]) + Encoding(data[3..])
  {
  }

  /** Number of '=' that end the encoding of `n` bytes. */
  function PadLength(n: nat): nat
  {
    if n % 3 == 1 then 2 else if n % 3 == 2 then 1 else 0
  }

  /** Dropping `g` full groups from the input drops `4 * g` characters from
      the front of the encoding. */
  lemma {:induction false} EncodingDrop(data: seq<byte>, g: nat)
    requires g <= |data| / 3
    ensures 4 * g <= |Encoding(data)|
    ensures Encoding(data)[4 * g..] == Encoding(data[3 * g..])
  {
    if g > 0 {
      EncodingDrop(data[3..], g - 1);
      EncodingStep(data);
      assert data[3..][3 * (g - 1)..] == data[3 * g..];
      assert Encoding(data)[4 * g..] == Encoding(data[3..])[4 * (g - 1)..];
    }
  }

  /** The `g`-th full input group becomes characters `4g .. 4g+3`, in input
      order. */
  lemma EncodingGroupAt(data: seq<byte>, g: nat)
    requires g < |data| / 3
    ensures 4 * g + 4 <= |Encoding(data)|
    ensures Encoding(data)[4 * g..4 * g + 4]
         == EncodeGroup(data[3 * g], data[3 * g + 1], data[3 * g + 2])
  {
    EncodingDrop(data, g);
    var rest := data[3 * g..];
    EncodingStep(rest);
    assert Encoding(data)[4 * g..4 * g + 4] == Encoding(rest)[..4];
  }

  /** The padded group that a tail of `rem` bytes becomes: `a` alone gives
      two characters and "==", `a` and `b` give three characters and "=". */
  function PaddedGroup(a: byte, b: byte, rem: int): seq<byte>
  {
    if rem == 1 then [EncodeChar(a >> 2), EncodeChar((a & 0x03) << 4), Pad, Pad]
    else [EncodeChar(a >> 2), EncodeChar(((a & 0x03) << 4) | (b >> 4)), EncodeChar((b & 0x0F) << 2), Pad]
  }

  /** After the full groups, a tail of one or two bytes becomes its padded
      group, and the text ends there. */
  lemma EncodingTail(data: seq<byte>, a: byte, b: byte)
    requires |data| % 3 != 0
    requires a == data[|data| / 3 * 3] && (|data| % 3 == 2 ==> b == data[|data| / 3 * 3 + 1])
    ensures |data| / 3 * 4 + 4 == |Encoding(data)|
    ensures Encoding(data)[|data| / 3 * 4..] == PaddedGroup(a, b, |data| % 3)
  {
    var g := |data| / 3;
    TailCounts(|data|);
    EncodingDrop(data, g);
    ShortEncoding(data[3 * g..], a, b);
  }

  /** A length that is not a multiple of three splits into full groups and
      a tail of one or two, and its encoding has one group more. */
  lemma TailCounts(n: nat)
    requires n % 3 != 0
    ensures n - n / 3 * 3 == n % 3 && (n + 2) / 3 * 4 == n / 3 * 4 + 4
  {
  }

  /** The encoding of one or two bytes is their padded group. */
  lemma ShortEncoding(tail: seq<byte>, a: byte, b: byte)
    requires 1 <= |tail| <= 2 && a == tail[0] && (|tail| == 2 ==> b == tail[1])
    ensures Encoding(tail) == PaddedGroup(a, b, |tail|)
  {
  }

  /** Text `t` ends in exactly `pad` '=' characters, and every other
      character is an alphabet character. */
  predicate Shaped(t: seq<byte>, pad: nat)
  {
    forall k | 0 <= k < |t| ::
      (t[k] == Pad <==> k >= |t| - pad) && (t[k] == Pad || DecodeChar(t[k]) != Invalid)
  }

  /** A tail of one input byte ends the text in exactly "==", a tail of two in
      exactly one '=', and no tail produces no '=' at all; every other
      character is an alphabet character. */
  lemma {:induction false} EncodingShape(data: seq<byte>)
    ensures Shaped(Encoding(data), PadLength(|data|))
    decreases |data|
  {
    if |data| <= 2 {
      ShortEncodingShape(data);
    } else {
      var rest := data[3..];
      EncodingShape(rest);
      EncodingStep(data);
      EncodeGroupShape(data[0], data[1], data[2]);
      PadLengthStep(|rest|);
      ShapedAfterGroup(EncodeGroup(data[0], data[1], data[2]), Encoding(rest), PadLength(|rest|));
    }
  }

  /** A full group does not change the padding length. */
  lemma PadLengthStep(m: nat)
    ensures PadLength(m + 3) == PadLength(m)
  {
    assert (m + 3) % 3 == m % 3;
  }

  /** A group of four alphabet characters in front of a shaped text keeps
      it shaped. */
  lemma ShapedAfterGroup(g: seq<byte>, r: seq<byte>, pad: nat)
    requires |g| == 4 && pad <= |r|
    requires forall j | 0 <= j < 4 :: g[j] != Pad && DecodeChar(g[j]) != Invalid
    requires Shaped(r, pad)
    ensures Shaped(g + r, pad)
  {
    var t := g + r;
    forall k | 0 <= k < |t|
      ensures (t[k] == Pad <==> k >= |t| - pad) && (t[k] == Pad || DecodeChar(t[k]) != Invalid)
    {
      if k < 4 {
        assert t[k] == g[k];
      } else {
        assert t[k] == r[k - 4];
      }
    }
  }

  /** The shape of the encoding of at most two bytes. */
  lemma ShortEncodingShape(data: seq<byte>)
    requires |data| <= 2
    ensures Shaped(Encoding(data), PadLength(|data|))
  {
    if |data| == 1 {
      ShortEncoding(data, data[0], 0);
      PaddedGroupShape(data[0], 0, 1);
    } else if |data| == 2 {
      ShortEncoding(data, data[0], data[1]);
      PaddedGroupShape(data[0], data[1], 2);
    }
  }

  /** A padded group ends in two '=' for one byte and one '=' for two. */
  lemma PaddedGroupShape(a: byte, b: byte, rem: int)
    requires rem == 1 || rem == 2
    ensures Shaped(PaddedGroup(a, b, rem), 3 - rem)
  {
    EncodeCharFacts();
  }

  /** A full group has no '=' and only alphabet characters. */
  lemma EncodeGroupShape(a: byte, b: byte, c: byte)
    ensures forall j | 0 <= j < 4 ::
      EncodeGroup(a, b, c)[j] != Pad && DecodeChar(EncodeGroup(a, b, c)[j]) != Invalid
  {
    EncodeCharFacts();
  }

  // ---------------------------------------------------------------------
  // Decoding

  /** The number of non-whitespace characters of `s` (`nRealLen`). */
  function NonSpaceCount(s: seq<byte>): (n: nat)
    ensures n <= |s|
    decreases |s|
  {
    if s == [] then 0
    else NonSpaceCount(s[..|s| - 1]) + (if IsSpace(s[|s| - 1]) then 0 else 1)
  }

  /** Whether the decoder passes over character `c` without a state change. */
  predicate Skipped(c: byte)
  {
    IsSpace(c) || DecodeChar(c) == Invalid
  }

  /** The alphabet indices of the characters the decoder consumes, in input
      order: whitespace and bytes outside the alphabet ('=' among them) are
      skipped. */
  function Sextets(s: seq<byte>): (v: seq<byte>)
    ensures |v| <= NonSpaceCount(s)
    ensures forall k | 0 <= k < |v| :: v[k] < 64
    decreases |s|
  {
    if s == [] then []
    else if Skipped(s[|s| - 1]) then Sextets(s[..|s| - 1])
    else Sextets(s[..|s| - 1]) + [DecodeChar(s[|s| - 1])]
  }

  /** The bytes that the decoder's state machine writes for the sextets `v`,
      group by group: four sextets give three bytes; a final group of one,
      two or three sextets touches one, two or three bytes. Shifts truncate
      to eight bits, as a store into an `unsigned char` does. */
  function Unpack(v: seq<byte>): (bytes: seq<byte>)
    ensures |bytes| == |v| / 4 * 3 + |v| % 4
    decreases |v|
  {
    if |v| < 4 then UnpackPartial(v)
    else DecodeGroup(v[0], v[1], v[2], v[3]) + Unpack(v[4..])
  }

  /** The bytes that a final group of fewer than four sextets touches. */
  function UnpackPartial(v: seq<byte>): (bytes: seq<byte>)
    requires |v| < 4
    ensures |bytes| == |v|
  {
    if |v| == 0 then []
    else if |v| == 1 then [v[0] << 2]
    else if |v| == 2 then [(v[0] << 2) | (v[1] >> 4), v[1] << 4]
    else [(v[0] << 2) | (v[1] >> 4), (v[1] << 4) | (v[2] >> 2), v[2] << 6]
  }

  /** The three bytes that a full group of four sextets becomes. */
  function DecodeGroup(a: byte, b: byte, c: byte, d: byte): seq<byte>
  {
    [(a << 2) | (b >> 4), (b << 4) | (c >> 2), (c << 6) | d]
  }

  /** Number of '=' among the last two raw characters of `s` (`nPadding`). */
  function TrailingPads(s: seq<byte>): (p: nat)
    requires |s| >= 2
    ensures p <= 2
  {
    (if s[|s| - 1] == Pad then 1 else 0) + (if s[|s| - 2] == Pad then 1 else 0)
  }

  /** What `Decode` does with the text `s`: `None` for a rejected text,
      otherwise the length it reports and the bytes it writes below that
      length. */
  function Decoding(s: seq<byte>): (r: Option<Decoded>)
    ensures r.None? <==> |s| == 0 || NonSpaceCount(s) % 4 != 0
    ensures r.Some? ==>
      |r.value.written| <= r.value.length <= NonSpaceCount(s) / 4 * 3 <= r.value.length + 2
  {
    if |s| == 0 then None
    else
      var count := NonSpaceCount(s);
      if count % 4 != 0 then None
      else
        var pad := if count > 0 then TrailingPads(s) else 0;
        var length := count / 4 * 3 - pad;
        var bytes := Unpack(Sextets(s));
        Some(Decoded(length, Cut(bytes, length)))
  }

  /** The first `length` elements of `bytes`, or all of them when there are
      fewer. */
  function Cut(bytes: seq<byte>, length: nat): (r: seq<byte>)
    ensures |r| <= length && r <= bytes
  {
    if |bytes| <= length then bytes else bytes[..length]
  }

  // ---------------------------------------------------------------------
  // Lemmas about decoding

  lemma {:induction false} SextetsAppend(a: seq<byte>, b: seq<byte>)
    ensures Sextets(a + b) == Sextets(a) + Sextets(b)
    decreases |b|
  {
    if b != [] {
      var b' := b[..|b| - 1];
      assert (a + b)[..|a + b| - 1] == a + b';
      SextetsAppend(a, b');
    } else {
      assert a + b == a;
    }
  }

  lemma {:induction false} NonSpaceCountAppend(a: seq<byte>, b: seq<byte>)
    ensures NonSpaceCount(a + b) == NonSpaceCount(a) + NonSpaceCount(b)
    decreases |b|
  {
    if b != [] {
      var b' := b[..|b| - 1];
      assert (a + b)[..|a + b| - 1] == a + b';
      NonSpaceCountAppend(a, b');
    } else {
      assert a + b == a;
    }
  }

  /** A text whose first `a` characters are alphabet characters and whose
      remaining characters are skipped yields the indices of those `a`
      characters. */
  lemma {:induction false} SextetsOfShape(t: seq<byte>, a: nat)
    requires a <= |t|
    requires forall k | 0 <= k < a :: !Skipped(t[k])
    requires forall k | a <= k < |t| :: Skipped(t[k])
    ensures Sextets(t) == seq(a, k requires 0 <= k < a => DecodeChar(t[k]))
    decreases |t|
  {
    if t != [] {
      var t' := t[..|t| - 1];
      if a == |t| {
        SextetsOfShape(t', a - 1);
      } else {
        SextetsOfShape(t', a);
      }
    }
  }

  /** A text without whitespace counts every character. */
  lemma {:induction false} NonSpaceCountNoSpace(s: seq<byte>)
    requires forall k | 0 <= k < |s| :: !IsSpace(s[k])
    ensures NonSpaceCount(s) == |s|
    decreases |s|
  {
    if s != [] {
      NonSpaceCountNoSpace(s[..|s| - 1]);
    }
  }

  /** The two trailing characters counted as padding are never consumed, so
      the consumed characters number at most `nRealLen - nPadding`. */
  lemma SextetsBelowPadding(s: seq<byte>)
    requires |s| >= 2
    ensures |Sextets(s)| + TrailingPads(s) <= NonSpaceCount(s)
  {
    var n := |s|;
    var s1 := s[..n - 1];
    var s2 := s1[..n - 2];
    CountsOfLast(s);
    CountsOfLast(s1);
    assert s1[n - 2] == s[n - 2];
  }

  /** The last character of `s` adds at most as much to the consumed sextets,
      plus one if it is '=', as it adds to the non-whitespace count. */
  lemma CountsOfLast(s: seq<byte>)
    requires |s| > 0
    ensures var s' := s[..|s| - 1];
      |Sextets(s)| - |Sextets(s')| + (if s[|s| - 1] == Pad then 1 else 0)
      <= NonSpaceCount(s) - NonSpaceCount(s')
  {
    SkippedBytes(Pad);
  }

  /** The length `Decode` stores for an accepted text: three per four
      non-whitespace characters, less the '=' counted among the last two
      characters; the bytes the state machine touches fit below that length
      plus one. */
  lemma ReportedLength(s: seq<byte>, count: int, pad: int)
    requires |s| > 0 && count == NonSpaceCount(s) && count % 4 == 0
    requires count > 0 ==> |s| >= 2 && pad == TrailingPads(s)
    requires count == 0 ==> pad == 0
    ensures Decoding(s).Some?
    ensures Decoding(s).value.length == count / 4 * 3 - pad
    ensures Decoding(s).value.written == Cut(Unpack(Sextets(s)), count / 4 * 3 - pad)
    ensures |Unpack(Sextets(s))| <= count / 4 * 3 - pad + 1
  {
    DecodeWritesInBounds(s);
  }

  /** A whitespace character adds no sextet. */
  lemma SextetsOfSpace(s: seq<byte>, i: nat)
    requires i < |s| && IsSpace(s[i])
    ensures Sextets(s[..i + 1]) == Sextets(s[..i])
  {
    assert s[..i + 1][..i] == s[..i];
  }

  /** Any other character adds its alphabet index `c`, unless it is outside
      the alphabet. */
  lemma SextetsOfChar(s: seq<byte>, i: nat, c: byte)
    requires i < |s| && !IsSpace(s[i]) && c == DecodeChar(s[i])
    ensures Sextets(s[..i + 1]) == if c == Invalid then Sextets(s[..i]) else Sextets(s[..i]) + [c]
  {
    assert s[..i + 1][..i] == s[..i];
  }

  /** A prefix of a text yields no more sextets than the whole text. */
  lemma SextetsPrefixBound(s: seq<byte>, i: nat)
    requires i <= |s|
    ensures |Sextets(s[..i])| <= |Sextets(s)|
  {
    assert s == s[..i] + s[i..];
    SextetsAppend(s[..i], s[i..]);
  }

  /** The number of bytes the state machine touches grows with the number of
      sextets it consumes. */
  lemma UnpackLengthMonotone(m1: nat, m2: nat)
    requires m1 <= m2
    ensures m1 / 4 * 3 + m1 % 4 <= m2 / 4 * 3 + m2 % 4
  {
  }

  /** Every byte the decoder writes lies below index `length + 1`: the buffer
      of `length + 1` bytes it allocates is never overrun, the NUL included. */
  lemma DecodeWritesInBounds(s: seq<byte>)
    requires Decoding(s).Some?
    ensures |Unpack(Sextets(s))| <= Decoding(s).value.length + 1
  {
    var count := NonSpaceCount(s);
    var m := |Sextets(s)|;
    if count > 0 {
      SextetsBelowPadding(s);
      var pad := TrailingPads(s);
      UnpackLengthMonotone(m, count - pad);
      assert (count - pad) / 4 * 3 + (count - pad) % 4 <= count / 4 * 3 - pad + 1;
    }
  }

  // The decoder's four-phase state machine (`j % 4`), fed one sextet at a
  // time, touches exactly the bytes that the group-wise `Unpack` describes.

  /** One unfolding of `Unpack`: a full first group, then the rest; and the
      same for the sextets followed by one more. */
  lemma UnpackStep(v: seq<byte>, c: byte)
    requires |v| >= 4
    ensures Unpack(v) == DecodeGroup(v[0], v[1], v[2], v[3]) + Unpack(v[4..])
    ensures Unpack(v + [c]) == DecodeGroup(v[0], v[1], v[2], v[3]) + Unpack(v[4..] + [c])
  {
    AppendAfterGroup(v, c);
  }

  /** Appending to a sequence of at least four elements keeps its first four
      and appends to the rest. */
  lemma AppendAfterGroup(v: seq<byte>, c: byte)
    requires |v| >= 4
    ensures (v + [c])[4..] == v[4..] + [c]
    ensures (v + [c])[0] == v[0] && (v + [c])[1] == v[1] && (v + [c])[2] == v[2] && (v + [c])[3] == v[3]
  {
  }

  /** One step of the decoder's four-phase state machine: `u` holds the
      bytes touched so far, the sextet `c` arrives in phase `j`. Phase 0
      starts a new byte; phases 1 and 2 complete the last byte with an OR
      and start the next; phase 3 completes the last byte of the group. */
  function Step(u: seq<byte>, j: int, c: byte): (r: seq<byte>)
    requires 0 <= j < 4 && (j != 0 ==> |u| > 0)
    ensures |r| == if j == 3 then |u| else |u| + 1
  {
    if j == 0 then u + [c << 2]
    else if j == 1 then OrLast(u, c >> 4) + [c << 4]
    else if j == 2 then OrLast(u, c >> 2) + [c << 6]
    else OrLast(u, c)
  }

  /** `u` with `x` ORed into its last byte. */
  function OrLast(u: seq<byte>, x: byte): (r: seq<byte>)
    requires |u| > 0
    ensures |r| == |u|
  {
    u[|u| - 1 := u[|u| - 1] | x]
  }

  /** A step keeps every byte before the last one, and the last one too in
      phase 0. */
  lemma StepKeeps(u: seq<byte>, j: int, c: byte)
    requires 0 <= j < 4 && (j != 0 ==> |u| > 0)
    ensures forall k | 0 <= k < |u| && (j == 0 || k < |u| - 1) :: Step(u, j, c)[k] == u[k]
  {
  }

  /** The bytes a step writes, phase by phase. */
  lemma StepWrites(u: seq<byte>, j: int, c: byte)
    requires 0 <= j < 4 && (j != 0 ==> |u| > 0)
    ensures j == 0 ==> Step(u, j, c)[|u|] == c << 2
    ensures j == 1 ==> Step(u, j, c)[|u| - 1] == u[|u| - 1] | (c >> 4) && Step(u, j, c)[|u|] == c << 4
    ensures j == 2 ==> Step(u, j, c)[|u| - 1] == u[|u| - 1] | (c >> 2) && Step(u, j, c)[|u|] == c << 6
    ensures j == 3 ==> Step(u, j, c)[|u| - 1] == u[|u| - 1] | c
  {
  }

  /** A step after a full group of three bytes acts on the bytes that
      follow the group. */
  lemma StepAfterPrefix(h: seq<byte>, u: seq<byte>, j: int, c: byte)
    requires 0 <= j < 4 && (j != 0 ==> |u| > 0)
    ensures h + Step(u, j, c) == Step(h + u, j, c)
  {
    if j == 0 {
      AppendAssoc(h, u, [c << 2]);
    } else {
      OrLastAfterPrefix(h, u, if j == 1 then c >> 4 else if j == 2 then c >> 2 else c);
      if j != 3 {
        AppendAssoc(h, OrLast(u, if j == 1 then c >> 4 else c >> 2), [if j == 1 then c << 4 else c << 6]);
      }
    }
  }

  lemma AppendAssoc(a: seq<byte>, b: seq<byte>, c: seq<byte>)
    ensures a + (b + c) == (a + b) + c
  {
  }

  lemma OrLastAfterPrefix(h: seq<byte>, u: seq<byte>, x: byte)
    requires |u| > 0
    ensures h + OrLast(u, x) == OrLast(h + u, x)
  {
    var n := |h + u| - 1;
    assert (h + u)[n] == u[|u| - 1];
  }

  /** Four more sextets are one more group in the same phase. */
  lemma NextGroup(m: nat)
    ensures (m + 4) / 4 * 3 == m / 4 * 3 + 3 && (m + 4) % 4 == m % 4
  {
  }

  /** The state machine, run over the sextets one at a time, produces the
      group-wise `Unpack`. */
  lemma {:induction false} UnpackSnoc(v: seq<byte>, c: byte)
    ensures |v| % 4 != 0 ==> |Unpack(v)| > 0
    ensures Unpack(v + [c]) == Step(Unpack(v), |v| % 4, c)
    decreases |v|
  {
    if |v| < 4 {
      UnpackSnocShort(v, c);
    } else {
      var w := v[4..];
      UnpackStep(v, c);
      NextGroup(|w|);
      UnpackSnoc(w, c);
      StepAfterPrefix(DecodeGroup(v[0], v[1], v[2], v[3]), Unpack(w), |w| % 4, c);
    }
  }

  lemma UnpackSnocShort(v: seq<byte>, c: byte)
    requires |v| < 4
    ensures |v| % 4 != 0 ==> |Unpack(v)| > 0
    ensures Unpack(v + [c]) == Step(Unpack(v), |v| % 4, c)
  {
    ShortSeq(v, c);
    if |v| == 3 {
      SnocThree(v[0], v[1], v[2], c);
    } else if |v| == 2 {
      SnocTwo(v[0], v[1], c);
    } else if |v| == 1 {
      SnocOne(v[0], c);
    } else {
      SnocZero(c);
    }
  }

  lemma ShortSeq(v: seq<byte>, c: byte)
    requires |v| < 4
    ensures |v| == 0 ==> v == [] && v + [c] == [c]
    ensures |v| == 1 ==> v == [v[0]] && v + [c] == [v[0], c]
    ensures |v| == 2 ==> v == [v[0], v[1]] && v + [c] == [v[0], v[1], c]
    ensures |v| == 3 ==> v == [v[0], v[1], v[2]] && v + [c] == [v[0], v[1], v[2], c]
  {
  }

  lemma SnocZero(c: byte)
    ensures Unpack([c]) == Step(Unpack([]), 0, c)
  {
  }

  lemma SnocOne(a: byte, c: byte)
    ensures Unpack([a, c]) == Step(Unpack([a]), 1, c)
  {
  }

  lemma SnocTwo(a: byte, b: byte, c: byte)
    ensures Unpack([a, b, c]) == Step(Unpack([a, b]), 2, c)
  {
    UnpackOfThree(a, b, c);
    UnpackOfTwo(a, b);
    StepTwo((a << 2) | (b >> 4), b << 4, c);
  }

  lemma UnpackOfTwo(a: byte, b: byte)
    ensures Unpack([a, b]) == [(a << 2) | (b >> 4), b << 4]
  {
  }

  lemma StepTwo(x: byte, y: byte, c: byte)
    ensures Step([x, y], 2, c) == [x, y | (c >> 2), c << 6]
  {
  }

  lemma SnocThree(a: byte, b: byte, d: byte, c: byte)
    ensures Unpack([a, b, d, c]) == Step(Unpack([a, b, d]), 3, c)
  {
    UnpackOfThree(a, b, d);
    UnpackOfFour(a, b, d, c);
    StepThree((a << 2) | (b >> 4), (b << 4) | (d >> 2), d << 6, c);
  }

  lemma UnpackOfFour(a: byte, b: byte, d: byte, c: byte)
    ensures Unpack([a, b, d, c]) == DecodeGroup(a, b, d, c)
  {
    assert [a, b, d, c][4..] == [];
  }

  lemma StepThree(x: byte, y: byte, z: byte, c: byte)
    ensures Step([x, y, z], 3, c) == [x, y, z | c]
  {
  }

  // ---------------------------------------------------------------------
  // Round trip

  /** Decoding the sextets of one encoded group gives back the group; the
      bits below a padded tail are zero. */
  lemma GroupRoundTrip(a: byte, b: byte, c: byte)
    ensures var s := GroupSextets(a, b, c); DecodeGroup(s[0], s[1], s[2], s[3]) == [a, b, c]
    ensures (((a & 0x03) << 4) << 4) == 0 && (((b & 0x0F) << 2) << 6) == 0
  {
  }

  /** The decoder reads an encoded group back as the group's four sextets. */
  lemma SextetsOfGroup(a: byte, b: byte, c: byte)
    ensures Sextets(EncodeGroup(a, b, c)) == GroupSextets(a, b, c)
  {
    EncodeCharFacts();
    SextetsOfShape(EncodeGroup(a, b, c), 4);
  }

  /** Four leading sextets unpack to one group of three bytes. */
  lemma UnpackLeadingGroup(g: seq<byte>, rest: seq<byte>)
    requires |g| == 4
    ensures Unpack(g + rest) == DecodeGroup(g[0], g[1], g[2], g[3]) + Unpack(rest)
  {
    assert (g + rest)[4..] == rest;
  }

  /** An encoded group in front of any text decodes to the group's bytes in
      front of what the text decodes to. */
  lemma UnpackOfGroupThen(a: byte, b: byte, c: byte, t: seq<byte>)
    ensures Unpack(Sextets(EncodeGroup(a, b, c) + t)) == [a, b, c] + Unpack(Sextets(t))
  {
    var g := GroupSextets(a, b, c);
    SextetsAppend(EncodeGroup(a, b, c), t);
    SextetsOfGroup(a, b, c);
    UnpackLeadingGroup(g, Sextets(t));
    GroupRoundTrip(a, b, c);
  }

  /** The extra byte that a padded tail group makes the decoder touch. */
  function TailExtra(n: nat): seq<byte>
  {
    if n % 3 == 0 then [] else [0]
  }

  /** The decoder reads a one-byte tail "xy==" back as two sextets. */
  lemma SextetsOfTailOne(a: byte)
    ensures Sextets(Encoding([a])) == [a >> 2, (a & 0x03) << 4]
  {
    var t := PaddedGroup(a, a, 1);
    assert Encoding([a]) == t;
    EncodeCharFacts();
    SextetsOfShape(t, 2);
  }

  /** A one-byte tail "xy==" unpacks to the byte and one zero byte. */
  lemma UnpackOfTailOne(a: byte)
    ensures Unpack(Sextets(Encoding([a]))) == [a, 0]
  {
    SextetsOfTailOne(a);
    var x, y := a >> 2, (a & 0x03) << 4;
    UnpackOfTwo(x, y);
    assert (x << 2) | (y >> 4) == a;
    assert y << 4 == 0;
  }

  /** The decoder reads a two-byte tail "xyz=" back as three sextets. */
  lemma SextetsOfTailTwo(a: byte, b: byte)
    ensures Sextets(Encoding([a, b])) == [a >> 2, ((a & 0x03) << 4) | (b >> 4), (b & 0x0F) << 2]
  {
    var t := PaddedGroup(a, b, 2);
    assert Encoding([a, b]) == t;
    EncodeCharFacts();
    SextetsOfShape(t, 3);
  }

  /** Three sextets touch three bytes. */
  lemma UnpackOfThree(x: byte, y: byte, z: byte)
    ensures Unpack([x, y, z]) == [(x << 2) | (y >> 4), (y << 4) | (z >> 2), z << 6]
  {
  }

  /** A two-byte tail "xyz=" unpacks to the two bytes and one zero byte. */
  lemma UnpackOfTailTwo(a: byte, b: byte)
    ensures Unpack(Sextets(Encoding([a, b]))) == [a, b, 0]
  {
    SextetsOfTailTwo(a, b);
    var x, y, z := a >> 2, ((a & 0x03) << 4) | (b >> 4), (b & 0x0F) << 2;
    UnpackOfThree(x, y, z);
    assert (x << 2) | (y >> 4) == a;
    assert (y << 4) | (z >> 2) == b;
    assert z << 6 == 0;
  }

  /** Unpacking the sextets of an encoding gives back the input, followed by
      one zero byte when the input ends in a padded group. */
  lemma {:induction false} UnpackOfEncoding(data: seq<byte>)
    ensures Unpack(Sextets(Encoding(data))) == data + TailExtra(|data|)
    decreases |data|
  {
    if |data| < 3 {
      UnpackOfShortEncoding(data);
    } else {
      UnpackOfEncoding(data[3..]);
      UnpackOfEncodingStep(data);
    }
  }

  /** The base case: the empty input, or a padded tail alone. */
  lemma {:induction false} UnpackOfShortEncoding(data: seq<byte>)
    requires |data| < 3
    ensures Unpack(Sextets(Encoding(data))) == data + TailExtra(|data|)
  {
    if |data| == 1 {
      UnpackOfOne(data);
    } else if |data| == 2 {
      UnpackOfTwoBytes(data);
    }
  }

  lemma {:induction false} UnpackOfOne(data: seq<byte>)
    requires |data| == 1
    ensures Unpack(Sextets(Encoding(data))) == data + [0]
  {
    var a := data[0];
    assert data == [a];
    UnpackOfTailOne(a);
  }

  lemma {:induction false} UnpackOfTwoBytes(data: seq<byte>)
    requires |data| == 2
    ensures Unpack(Sextets(Encoding(data))) == data + [0]
  {
    var a, b := data[0], data[1];
    assert data == [a, b];
    UnpackOfTailTwo(a, b);
  }

  /** The inductive step: a full leading group unpacks to its three bytes in
      front of what the rest unpacks to. */
  lemma {:induction false} UnpackOfEncodingStep(data: seq<byte>)
    requires |data| >= 3
    requires Unpack(Sextets(Encoding(data[3..]))) == data[3..] + TailExtra(|data| - 3)
    ensures Unpack(Sextets(Encoding(data))) == data + TailExtra(|data|)
  {
    var u := Unpack(Sextets(Encoding(data[3..])));
    UnpackOfLeadingGroup(data);
    TailExtraStep(|data|);
    GroupThenRest(data, TailExtra(|data| - 3), u, TailExtra(|data|));
  }

  /** A leading full group decodes to its three bytes in front of what the
      encoding of the rest decodes to. */
  lemma UnpackOfLeadingGroup(data: seq<byte>)
    requires |data| >= 3
    ensures Unpack(Sextets(Encoding(data)))
         == [data[0], data[1], data[2]] + Unpack(Sextets(Encoding(data[3..])))
  {
    EncodingStep(data);
    UnpackOfGroupThen(data[0], data[1], data[2], Encoding(data[3..]));
  }

  /** A full group does not change whether a tail is padded. */
  lemma TailExtraStep(m: nat)
    requires m >= 3
    ensures TailExtra(m) == TailExtra(m - 3)
  {
    assert m % 3 == (m - 3) % 3;
  }

  /** A sequence of at least three elements, followed by `x`, is its first
      three elements followed by the rest and `x`. */
  lemma GroupThenRest(data: seq<byte>, x: seq<byte>, u: seq<byte>, y: seq<byte>)
    requires |data| >= 3 && u == data[3..] + x && y == x
    ensures [data[0], data[1], data[2]] + u == data + y
  {
  }

  /** An encoding holds no whitespace, so every character counts. */
  lemma EncodingHasNoSpace(data: seq<byte>)
    ensures NonSpaceCount(Encoding(data)) == |Encoding(data)|
  {
    var t := Encoding(data);
    EncodingShape(data);
    forall k | 0 <= k < |t| ensures !IsSpace(t[k]) {
      if t[k] != Pad {
        SpaceIsSkipped(t[k]);
      }
    }
    NonSpaceCountNoSpace(t);
  }

  /** The length that decoding an encoding of `n` bytes reports is `n`. */
  lemma DecodedLengthOfEncoding(n: nat)
    ensures n > 0 ==> (n + 2) / 3 * 4 > 0
    ensures ((n + 2) / 3 * 4) % 4 == 0
    ensures ((n + 2) / 3 * 4) / 4 * 3 - PadLength(n) == n
  {
  }

  /** The last two characters of an encoding hold as many '=' as its
      padding length. */
  lemma TrailingPadsOfEncoding(data: seq<byte>)
    requires |data| > 0
    ensures |Encoding(data)| >= 4
    ensures TrailingPads(Encoding(data)) == PadLength(|data|)
  {
    var t := Encoding(data);
    DecodedLengthOfEncoding(|data|);
    EncodingShape(data);
    assert t[|t| - 1] == Pad <==> PadLength(|data|) >= 1;
    assert t[|t| - 2] == Pad <==> PadLength(|data|) >= 2;
  }

  /** Cutting the input followed by a short extra back to the input's
      length gives back the input. */
  lemma CutExtra(data: seq<byte>, x: seq<byte>)
    ensures Cut(data + x, |data|) == data
  {
    if |data + x| > |data| {
      assert (data + x)[..|data|] == data;
    }
  }

  /** A text without whitespace, of a non-zero multiple of four characters,
      whose sextets unpack to `data` and at most one more byte, and whose
      reported length is `|data|`, decodes to `data`. */
  lemma DecodingOfText(t: seq<byte>, data: seq<byte>, x: seq<byte>)
    requires |t| >= 4 && |t| % 4 == 0 && NonSpaceCount(t) == |t|
    requires |t| / 4 * 3 - TrailingPads(t) == |data|
    requires Unpack(Sextets(t)) == data + x
    ensures Decoding(t) == Some(Decoded(|data|, data))
  {
    var count, pad := NonSpaceCount(t), TrailingPads(t);
    ReportedLength(t, count, pad);
    CutExtra(data, x);
    var r := Decoding(t).value;
    assert r.length == |data| && r.written == data;
  }

  /** Round trip: decoding the encoding of any non-empty byte string reports
      its length and writes exactly its bytes. */
  lemma RoundTrip(data: seq<byte>)
    requires |data| > 0
    ensures Decoding(Encoding(data)) == Some(Decoded(|data|, data))
  {
    EncodingHasNoSpace(data);
    TrailingPadsOfEncoding(data);
    UnpackOfEncoding(data);
    DecodedLengthOfEncoding(|data|);
    DecodingOfText(Encoding(data), data, TailExtra(|data|));
  }

  lemma SpaceIsSkipped(c: byte)
    requires DecodeChar(c) != Invalid
    ensures !IsSpace(c)
  {
  }

  // ---------------------------------------------------------------------
  // Behaviour on unusual texts

  /** Padding is looked for among the last two RAW characters, so a trailing
      newline hides one '=': "QQ==\n" reports length 2 where "QQ==" reports
      1, and the second reported byte is the zero left over from the last
      sextet. */
  lemma TrailingNewlineHidesPadding()
    ensures Decoding([0x51, 0x51, 0x3D, 0x3D]) == Some(Decoded(1, [0x41]))
    ensures Decoding([0x51, 0x51, 0x3D, 0x3D, 0x0A]) == Some(Decoded(2, [0x41, 0x00]))
  {
    var s: seq<byte> := [0x51, 0x51, 0x3D, 0x3D];
    var s' := s + [0x0A];
    SkippedBytes(Pad);
    SkippedBytes(0x0A);
    NonSpaceCountNoSpace(s);
    NonSpaceCountAppend(s, [0x0A]);
    SextetsOfShape(s, 2);
    SextetsOfShape(s', 2);
    assert Sextets(s) == Sextets(s') == [0x10, 0x10];
    assert Unpack([0x10, 0x10]) == [0x41, 0x00];
    assert s' == [0x51, 0x51, 0x3D, 0x3D, 0x0A];
    assert TrailingPads(s) == 2 && TrailingPads(s') == 1;
    assert [0x41, 0x00][..1] == [0x41 as byte];
    assert Decoding(s) == Some(Decoded(1, [0x41, 0x00][..1]));
    assert Decoding(s') == Some(Decoded(2, [0x41, 0x00]));
  }

  /** "====" passes the length check, reports length 1, and writes no byte. */
  lemma AllPaddingWritesNothing()
    ensures Decoding([Pad, Pad, Pad, Pad]) == Some(Decoded(1, []))
  {
    var s := [Pad, Pad, Pad, Pad];
    SkippedBytes(Pad);
    NonSpaceCountNoSpace(s);
    SextetsOfShape(s, 0);
  }

  /** A text made only of whitespace is accepted: it reports length 0 and
      is not rejected as the empty text is. */
  lemma WhitespaceOnlyIsEmpty()
    ensures Decoding([]) == None
    ensures Decoding([0x20, 0x0A]) == Some(Decoded(0, []))
  {
    var s: seq<byte> := [0x20, 0x0A];
    SkippedBytes(0x20);
    SkippedBytes(0x0A);
    assert NonSpaceCount(s) == 0 by {
      assert s[..1] == [0x20];
      assert [0x20][..0] == [];
    }
    SextetsOfShape(s, 0);
  }
}
