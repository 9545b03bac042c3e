/** The ZBase64 object. `Encode` and `Decode` each hand out a freshly
    allocated, NUL-terminated buffer and remember it in one of two lists;
    the destructor releases every remembered buffer. */
module Base64Codec {
  import opened Base64Tables
  import opened Base64Spec

  /** `(int)n` for a `size_t` n: the low 32 bits of n read as a two's
      complement value. */
  function Int32Of(n: nat): (r: int)
    ensures -0x8000_0000 <= r < 0x8000_0000
    ensures r <= n
    ensures n < 0x8000_0000 ==> r == n
    ensures (r - n) % 0x1_0000_0000 == 0
  {
    var low := n % 0x1_0000_0000;
    if low < 0x8000_0000 then low else low - 0x1_0000_0000
  }

  /** How `Encode` splits its input: `n / 3` full groups and a tail of
      `n % 3` bytes, which take `(n + 2) / 3 * 4` characters in all. */
  lemma GroupCount(n: nat)
    ensures 3 * (n / 3) + n % 3 == n
    ensures (n + 2) / 3 * 4 == 4 * (n / 3) + (if n % 3 == 0 then 0 else 4)
  {
  }

  /** One more sextet completes a group exactly when it arrives in phase 3. */
  lemma NextSextet(j: nat)
    ensures (j + 1) / 4 * 3 == j / 4 * 3 + (if j % 4 == 3 then 3 else 0)
    ensures (j + 1) % 4 == if j % 4 == 3 then 0 else j % 4 + 1
  {
  }

  /** A buffer that holds `bytes` below `length` holds the part of `bytes`
      that `Decoding` reports as written. */
  lemma KeepsWritten(buf: seq<byte>, bytes: seq<byte>, length: nat)
    requires |buf| > length
    requires forall k | 0 <= k < |bytes| && k < length :: buf[k] == bytes[k]
    ensures buf[..|Cut(bytes, length)|] == Cut(bytes, length)
  {
  }

  /** A buffer that holds the text `t` and then a NUL holds exactly
      `t + [Nul]`. */
  lemma Terminated(s: seq<byte>, t: seq<byte>)
    requires |s| == |t| + 1 && s[|t|] == Nul
    requires forall k | 0 <= k < |t| :: s[k] == t[k]
    ensures s == t + [Nul]
  {
  }

  class ZBase64 {
    /** `m_arrEnc`: every buffer that `Encode` has handed out, oldest first. */
    var encoded: seq<array<byte>>
    /** `m_arrDec`: every buffer that `Decode` has handed out, oldest first. */
    var decoded: seq<array<byte>>
    /** The buffers passed to `delete[]` so far, in order. */
    ghost var released: seq<array<byte>>

    constructor ()
      ensures encoded == [] && decoded == [] && released == []
    {
      encoded, decoded, released := [], [], [];
    }

    /** `~ZBase64`: releases every buffer in `m_arrEnc`, then every buffer in
        `m_arrDec`, and empties both lists. */
    method Dispose()
      modifies this
      ensures released == old(released) + old(encoded) + old(decoded)
      ensures encoded == [] && decoded == []
    {
      if |encoded| != 0 {
        for i := 0 to |encoded|
          invariant encoded == old(encoded) && decoded == old(decoded)
          invariant released == old(released) + encoded[..i]
        {
          released := released + [encoded[i]];
        }
        assert encoded[..|encoded|] == encoded;
        encoded := [];
      }
      if |decoded| != 0 {
        for i := 0 to |decoded|
          invariant encoded == [] && decoded == old(decoded)
          invariant released == old(released) + old(encoded) + decoded[..i]
        {
          released := released + [decoded[i]];
        }
        assert decoded[..|decoded|] == decoded;
        decoded := [];
      }
    }

    /** `Encode(const char* pData, int nDataLen)`: rejects a null pointer or a
        non-positive length; otherwise returns a new buffer holding the
        encoding of the first `nDataLen` bytes followed by a NUL, and records
        it in `encoded`. */
    method Encode(pData: array?<byte>, nDataLen: int) returns (r: array?<byte>)
      requires pData != null && 0 < nDataLen ==> nDataLen <= pData.Length
      modifies this
      ensures r == null <==> pData == null || nDataLen <= 0
      ensures r == null ==> encoded == old(encoded)
      ensures r != null ==>
        && pData != null && 0 < nDataLen
        && fresh(r)
        && r[..] == Encoding(pData[..nDataLen]) + [Nul]
        && encoded == old(encoded) + [r]
      ensures decoded == old(decoded) && released == old(released)
    {
      if pData == null || nDataLen <= 0 {
        return null;
      }

      var nEncodedLen := (nDataLen + 2) / 3 * 4;
      var pEncoded := new byte[nEncodedLen + 1];
      encoded := encoded + [pEncoded];
      WriteEncoding(pData, nDataLen, pEncoded);
      return pEncoded;
    }

    /** The writing part of `Encode`: `nDataLen / 3` full groups, then the
        padded tail group when `nDataLen % 3` is not zero, then the NUL. The
        buffer ends up holding exactly the encoding and its terminator. */
    static method WriteEncoding(pData: array<byte>, nDataLen: int, pEncoded: array<byte>)
      requires 0 < nDataLen <= pData.Length && pData != pEncoded
      requires pEncoded.Length == (nDataLen + 2) / 3 * 4 + 1
      modifies pEncoded
      ensures pEncoded[..] == Encoding(pData[..nDataLen]) + [Nul]
    {
      var nRemain := nDataLen % 3;
      ghost var data := pData[..nDataLen];
      ghost var text := Encoding(data);
      GroupCount(nDataLen);
      var p, q := EncodeGroups(pData, nDataLen, pEncoded, text);

      if 0 < nRemain {
        var a := pData[p];
        var b: byte := if 1 == nRemain then 0 else pData[p + 1];
        EncodingTail(data, a, b);
        PutTail(pEncoded, q, a, b, nRemain, text);
        q := q + 4;
      }

      pEncoded[q] := Nul;
      Terminated(pEncoded[..], text);
    }

    /** The main loop of `Encode`: each of the `nDataLen / 3` full groups
        becomes four characters. On exit `p` and `q` point just past the
        groups in the input and in the buffer, and the buffer holds the
        text's first `q` characters. */
    static method EncodeGroups(pData: array<byte>, nDataLen: int, pEncoded: array<byte>, ghost text: seq<byte>)
      returns (p: int, q: int)
      requires 0 < nDataLen <= pData.Length && pData != pEncoded
      requires pEncoded.Length == (nDataLen + 2) / 3 * 4 + 1
      requires text == Encoding(pData[..nDataLen])
      modifies pEncoded
      ensures p == nDataLen / 3 * 3 && q == nDataLen / 3 * 4
      ensures forall k | 0 <= k < q :: pEncoded[k] == text[k]
    {
      var nLoopTime := nDataLen / 3;
      ghost var data := pData[..nDataLen];
      GroupCount(nDataLen);
      p, q := 0, 0;
      for i := 0 to nLoopTime
        invariant p == 3 * i && q == 4 * i
        invariant forall k | 0 <= k < q :: pEncoded[k] == text[k]
      {
        EncodingGroupAt(data, i);
        var a, b, c := pData[p], pData[p + 1], pData[p + 2];
        assert a == data[3 * i] && b == data[3 * i + 1] && c == data[3 * i + 2];
        PutGroup(pEncoded, 4 * i, a, b, c, text);
        p, q := p + 3, q + 4;
      }
    }

    /** One pass of `Encode`'s main loop: the three bytes `a`, `b`, `c` become
        their four alphabet characters at `buf[at .. at + 3]`, which is where
        the text `t` holds them; nothing else in `buf` changes. */
    static method PutGroup(buf: array<byte>, at: int, a: byte, b: byte, c: byte, ghost t: seq<byte>)
      requires 0 <= at && at + 4 <= buf.Length && at + 4 <= |t|
      requires t[at..at + 4] == EncodeGroup(a, b, c)
      modifies buf
      ensures forall k | 0 <= k < buf.Length && (k < at || at + 4 <= k) :: buf[k] == old(buf[k])
      ensures forall k | at <= k < at + 4 :: buf[k] == t[k]
    {
      buf[at] := EncodeChar(a >> 2);
      buf[at + 1] := EncodeChar(((a & 0x03) << 4) | (b >> 4));
      buf[at + 2] := EncodeChar(((b & 0x0F) << 2) | (c >> 6));
      buf[at + 3] := EncodeChar(c & 0x3F);
    }

    /** The tail of `Encode`: one remaining byte `a` gives two characters and
        "==", two remaining bytes `a`, `b` give three characters and "=";
        these are the last four characters of the text `t`. */
    static method PutTail(buf: array<byte>, at: int, a: byte, b: byte, nRemain: int, ghost t: seq<byte>)
      requires 0 <= at && at + 4 <= buf.Length && at <= |t| && (nRemain == 1 || nRemain == 2)
      requires t[at..] == PaddedGroup(a, b, nRemain)
      modifies buf
      ensures forall k | 0 <= k < buf.Length && (k < at || at + 4 <= k) :: buf[k] == old(buf[k])
      ensures forall k | at <= k < at + 4 :: buf[k] == t[k]
    {
      buf[at] := EncodeChar(a >> 2);
      if 1 == nRemain {
        buf[at + 1] := EncodeChar((a & 0x03) << 4);
        buf[at + 2] := Pad;
        buf[at + 3] := Pad;
      } else {
        buf[at + 1] := EncodeChar(((a & 0x03) << 4) | (b >> 4));
        buf[at + 2] := EncodeChar((b & 0x0F) << 2);
        buf[at + 3] := Pad;
      }
    }

    /** `Encode(const string& strData)`: the pointer form applied to the
        string's bytes and its size converted to `int`. */
    method EncodeString(strData: seq<byte>) returns (r: array?<byte>)
      modifies this
      ensures var n := Int32Of(|strData|);
        && (r == null <==> n <= 0)
        && (r == null ==> encoded == old(encoded))
        && (r != null ==>
              && fresh(r)
              && r[..] == Encoding(strData[..n]) + [Nul]
              && encoded == old(encoded) + [r])
      ensures decoded == old(decoded) && released == old(released)
    {
      var cstr := new byte[|strData| + 1](k requires 0 <= k <= |strData| =>
        if k < |strData| then strData[k] else Nul);
      var n := Int32Of(|strData|);
      assert 0 < n ==> cstr[..n] == strData[..n];
      r := Encode(cstr, n);
    }

    /** `Decode(const char* pData, int nDataLen, int* pOutDataLen)`: rejects a
        null pointer, a non-positive length, or a text whose count of
        non-whitespace characters is not a multiple of four, leaving
        `*pOutDataLen` as it was (`outDataLen` in, `outLen` out). Otherwise
        stores the decoded length, returns a new buffer of that length plus
        one whose written bytes are those of `Decoding` and whose last byte
        is NUL, and records it in `decoded`. */
    method Decode(pData: array?<byte>, nDataLen: int, outDataLen: int)
      returns (r: array?<byte>, outLen: int)
      requires pData != null && 0 < nDataLen ==> nDataLen <= pData.Length
      modifies this
      ensures pData == null || nDataLen <= 0 ==> r == null
      ensures pData != null && 0 < nDataLen ==>
        (r == null <==> Decoding(pData[..nDataLen]).None?)
      ensures r == null ==> outLen == outDataLen && decoded == old(decoded)
      ensures r != null ==>
        && pData != null && 0 < nDataLen
        && fresh(r)
        && decoded == old(decoded) + [r]
        && var d := Decoding(pData[..nDataLen]).value;
        && outLen == d.length
        && r.Length == outLen + 1
        && r[outLen] == Nul
        && r[..|d.written|] == d.written
      ensures encoded == old(encoded) && released == old(released)
    {
      if pData == null || nDataLen <= 0 {
        return null, outDataLen;
      }
      var ok;
      ok, outLen := OutputLength(pData, nDataLen);
      if !ok {
        return null, outDataLen;
      }
      ghost var bytes := Unpack(Sextets(pData[..nDataLen]));
      var pDecoded := new byte[outLen + 1];
      decoded := decoded + [pDecoded];

      var table := BuildDecodeTable();
      WriteDecoding(pData, nDataLen, table, pDecoded);

      pDecoded[outLen] := Nul;
      KeepsWritten(pDecoded[..], bytes, outLen);
      return pDecoded, outLen;
    }

    /** The checks and the length computation of `Decode`: counts the
        non-whitespace characters, rejects the text (`ok` false) unless the
        count is a multiple of four, and otherwise computes the length it
        reports from the count and the '=' among the last two characters. */
    static method OutputLength(pData: array<byte>, nDataLen: int) returns (ok: bool, outLen: int)
      requires 0 < nDataLen <= pData.Length
      ensures ok <==> Decoding(pData[..nDataLen]).Some?
      ensures ok ==>
        && outLen == Decoding(pData[..nDataLen]).value.length
        && Decoding(pData[..nDataLen]).value.written == Cut(Unpack(Sextets(pData[..nDataLen])), outLen)
        && |Unpack(Sextets(pData[..nDataLen]))| <= outLen + 1
    {
      ghost var s := pData[..nDataLen];
      var nRealLen := CountNonSpace(pData, nDataLen);
      if 0 != nRealLen % 4 {
        return false, 0;
      }

      var nPadding := 0;
      if nRealLen > 0 {
        if Pad == pData[nDataLen - 1] {
          nPadding := nPadding + 1;
        }
        if Pad == pData[nDataLen - 2] {
          nPadding := nPadding + 1;
        }
      }

      outLen := nRealLen / 4 * 3 - nPadding;
      ReportedLength(s, nRealLen, nPadding);
      return true, outLen;
    }

    /** The first loop of `Decode`: counts the characters that are not
        whitespace (`nRealLen`). */
    static method CountNonSpace(pData: array<byte>, nDataLen: int) returns (n: int)
      requires 0 < nDataLen <= pData.Length
      ensures n == NonSpaceCount(pData[..nDataLen])
    {
      ghost var s := pData[..nDataLen];
      n := 0;
      for i := 0 to nDataLen
        invariant n == NonSpaceCount(s[..i])
      {
        assert s[..i + 1][..i] == s[..i];
        if !IsSpace(pData[i]) {
          n := n + 1;
        }
      }
      assert s[..nDataLen] == s;
    }

    /** The second loop of `Decode`: every character that is neither
        whitespace nor 0xff in the decode table `table` is fed to the
        four-phase state machine, which writes through `q`. Afterwards the
        buffer holds, at every index the machine touched, the byte `Unpack`
        gives for the consumed sextets. */
    static method WriteDecoding(pData: array<byte>, nDataLen: int, table: array<byte>, pDecoded: array<byte>)
      requires 0 < nDataLen <= pData.Length && pData != pDecoded && table != pDecoded
      requires table.Length == 256 && forall c: byte :: table[c as int] == DecodeChar(c)
      requires |Unpack(Sextets(pData[..nDataLen]))| <= pDecoded.Length
      modifies pDecoded
      ensures forall k | 0 <= k < |Unpack(Sextets(pData[..nDataLen]))| ::
        pDecoded[k] == Unpack(Sextets(pData[..nDataLen]))[k]
    {
      ghost var s := pData[..nDataLen];
      ghost var all := Sextets(s);
      var q, j := 0, 0;
      ghost var v: seq<byte> := [];
      for i := 0 to nDataLen
        invariant v == Sextets(s[..i]) && j == |v| && q == j / 4 * 3
        invariant |v| <= |all|
        invariant forall k | 0 <= k < |Unpack(v)| :: pDecoded[k] == Unpack(v)[k]
      {
        SextetsPrefixBound(s, i + 1);
        if IsSpace(pData[i]) {
          SextetsOfSpace(s, i);
          continue;
        }
        var c := table[pData[i]];
        SextetsOfChar(s, i, c);
        if 0xff == c {
          continue;
        }
        UnpackLengthMonotone(|v| + 1, |all|);
        q := StoreSextet(pDecoded, q, j, c, v);
        v := v + [c];
        j := j + 1;
      }
      assert s[..nDataLen] == s;
    }

    /** The `switch (j % 4)` of `Decode`: the `j`-th consumed sextet `c`
        extends what the buffer holds for the sextets `v` before it to what
        it holds for `v + [c]`; `q` advances by three once a group of four
        sextets is complete. */
    static method StoreSextet(buf: array<byte>, q: int, j: int, c: byte, ghost v: seq<byte>)
      returns (next: int)
      requires j == |v| && q == j / 4 * 3
      requires |Unpack(v + [c])| <= buf.Length
      requires forall k | 0 <= k < |Unpack(v)| :: buf[k] == Unpack(v)[k]
      modifies buf
      ensures forall k | 0 <= k < |Unpack(v + [c])| :: buf[k] == Unpack(v + [c])[k]
      ensures next == (j + 1) / 4 * 3
    {
      UnpackSnoc(v, c);
      NextSextet(j);
      ghost var u := Unpack(v);
      next := q;
      if j % 4 == 0 {
        Phase0(buf, q, c, u);
      } else if j % 4 == 1 {
        Phase1(buf, q, c, u);
      } else if j % 4 == 2 {
        Phase2(buf, q, c, u);
      } else {
        Phase3(buf, q, c, u);
        next := q + 3;
      }
    }

    /** `case 0`: the sextet fills the top six bits of a new byte. */
    static method Phase0(q: array<byte>, at: int, c: byte, ghost u: seq<byte>)
      requires 0 <= at && |u| == at && at + 1 <= q.Length
      requires forall k | 0 <= k < |u| :: q[k] == u[k]
      modifies q
      ensures forall k | 0 <= k < |Step(u, 0, c)| :: q[k] == Step(u, 0, c)[k]
    {
      StepKeeps(u, 0, c);
      StepWrites(u, 0, c);
      q[at] := c << 2;
    }

    /** `case 1`: the sextet's top two bits complete the first byte of the
        group, its low four bits start the second. */
    static method Phase1(q: array<byte>, at: int, c: byte, ghost u: seq<byte>)
      requires 0 <= at && |u| == at + 1 && at + 2 <= q.Length
      requires forall k | 0 <= k < |u| :: q[k] == u[k]
      modifies q
      ensures forall k | 0 <= k < |Step(u, 1, c)| :: q[k] == Step(u, 1, c)[k]
    {
      StepKeeps(u, 1, c);
      StepWrites(u, 1, c);
      q[at] := q[at] | (c >> 4);
      q[at + 1] := c << 4;
    }

    /** `case 2`: the sextet's top four bits complete the second byte, its
        low two bits start the third. */
    static method Phase2(q: array<byte>, at: int, c: byte, ghost u: seq<byte>)
      requires 0 <= at && |u| == at + 2 && at + 3 <= q.Length
      requires forall k | 0 <= k < |u| :: q[k] == u[k]
      modifies q
      ensures forall k | 0 <= k < |Step(u, 2, c)| :: q[k] == Step(u, 2, c)[k]
    {
      StepKeeps(u, 2, c);
      StepWrites(u, 2, c);
      q[at + 1] := q[at + 1] | (c >> 2);
      q[at + 2] := c << 6;
    }

    /** `case 3`: the sextet completes the third byte of the group. */
    static method Phase3(q: array<byte>, at: int, c: byte, ghost u: seq<byte>)
      requires 0 <= at && |u| == at + 3 && at + 3 <= q.Length
      requires forall k | 0 <= k < |u| :: q[k] == u[k]
      modifies q
      ensures forall k | 0 <= k < |Step(u, 3, c)| :: q[k] == Step(u, 3, c)[k]
    {
      StepKeeps(u, 3, c);
      StepWrites(u, 3, c);
      q[at + 2] := q[at + 2] | c;
    }

    /** `Decode(const string& strData, int* pOutDataLen)`: the pointer form
        applied to the string's bytes and its size converted to `int`. */
    method DecodeString(strData: seq<byte>, outDataLen: int)
      returns (r: array?<byte>, outLen: int)
      modifies this
      ensures var n := Int32Of(|strData|);
        && (r == null <==> n <= 0 || Decoding(strData[..n]).None?)
        && (r == null ==> outLen == outDataLen && decoded == old(decoded))
        && (r != null ==>
              && 0 < n
              && fresh(r)
              && decoded == old(decoded) + [r]
              && var d := Decoding(strData[..n]).value;
              && outLen == d.length
              && r.Length == outLen + 1
              && r[outLen] == Nul
              && r[..|d.written|] == d.written)
      ensures encoded == old(encoded) && released == old(released)
    {
      var cstr := new byte[|strData| + 1](k requires 0 <= k <= |strData| =>
        if k < |strData| then strData[k] else Nul);
      var n := Int32Of(|strData|);
      assert 0 < n ==> cstr[..n] == strData[..n];
      r, outLen := Decode(cstr, n, outDataLen);
    }
  }
}
