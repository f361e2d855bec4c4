/** Base 64 encoding as section 4 of RFC 4648 defines it (alphabet
    A-Z a-z 0-9 + /, padding '='), the browser's `btoa` over it, and a
    reference decoder that inverts the encoder. */
module Base64 {
  import opened JsCore

  type Sextet = v: int | 0 <= v < 64

  const Pad := '=' as int

  /** Table 1 of RFC 4648: the character for a 6-bit value. */
  function AlphabetChar(v: Sextet): (c: CodeUnit)
  {
    if v < 26 then 'A' as int + v
    else if v < 52 then 'a' as int + (v - 26)
    else if v < 62 then '0' as int + (v - 52)
    else if v == 62 then '+' as int
    else '/' as int
  }

  /** The value of an alphabet character; `None` for anything else,
      including the pad. */
  function AlphabetValue(c: CodeUnit): (r: Option<Sextet>)
    ensures r.Some? ==> AlphabetChar(r.value) == c
  {
    if 'A' as int <= c <= 'Z' as int then Some(c - 'A' as int)
    else if 'a' as int <= c <= 'z' as int then Some(c - 'a' as int + 26)
    else if '0' as int <= c <= '9' as int then Some(c - '0' as int + 52)
    else if c == '+' as int then Some(62)
    else if c == '/' as int then Some(63)
    else None
  }

  /** Every 6-bit value is written with a distinct, non-pad character. */
  lemma AlphabetValueOfChar(v: Sextet)
    ensures AlphabetValue(AlphabetChar(v)) == Some(v)
    ensures AlphabetChar(v) != Pad
  {
  }

  /** How many pad characters the encoding of `n` bytes ends with. */
  function PadCount(n: nat): (p: nat)
    ensures p <= 2
    ensures (n + p) % 3 == 0
  {
    (3 - n % 3) % 3
  }

  /** Three more bytes need the same padding. */
  lemma PadCountShift(n: nat)
    ensures PadCount(n + 3) == PadCount(n)
  {
    assert (n + 3) % 3 == n % 3;
  }

  /** The four 6-bit values three bytes split into, most significant bit
      first. */
  function Sextet0(b0: Byte): Sextet { b0 / 4 }

  function Sextet1(b0: Byte, b1: Byte): Sextet { (b0 % 4) * 16 + b1 / 16 }

  function Sextet2(b1: Byte, b2: Byte): Sextet { (b1 % 16) * 4 + b2 / 64 }

  function Sextet3(b2: Byte): Sextet { b2 % 64 }

  /** The four characters for one final group of one, two or three bytes
      (sections 4 and 5 of RFC 4648: the last group is zero-filled and
      padded). */
  function EncodeGroup(g: Bytes): (r: JsString)
    requires 1 <= |g| <= 3
    ensures |r| == 4
    ensures forall i :: 0 <= i < 4 ==> (r[i] == Pad <==> i >= 4 - PadCount(|g|))
  {
    var b0 := g[0];
    var b1 := if |g| > 1 then g[1] else 0;
    var b2 := if |g| > 2 then g[2] else 0;
    var c0 := AlphabetChar(Sextet0(b0));
    var c1 := AlphabetChar(Sextet1(b0, b1));
    AlphabetValueOfChar(Sextet0(b0));
    AlphabetValueOfChar(Sextet1(b0, b1));
    if |g| == 1 then
      assert PadCount(1) == 2;
      [c0, c1, Pad, Pad]
    else
      var c2 := AlphabetChar(Sextet2(b1, b2));
      AlphabetValueOfChar(Sextet2(b1, b2));
      if |g| == 2 then
        assert PadCount(2) == 1;
        [c0, c1, c2, Pad]
      else
        var c3 := AlphabetChar(Sextet3(b2));
        AlphabetValueOfChar(Sextet3(b2));
        assert PadCount(3) == 0;
        [c0, c1, c2, c3]
  }

  /** The base 64 encoding of a byte sequence. */
  function Encode(b: Bytes): (r: JsString)
    ensures |r| == 4 * ((|b| + 2) / 3)
    decreases |b|
  {
    if b == [] then []
    else if |b| <= 3 then EncodeGroup(b)
    else EncodeGroup(b[..3]) + Encode(b[3..])
  }

  /** Pad characters occur exactly in the last `PadCount(|b|)` positions. */
  lemma {:induction false} PaddingAtEnd(b: Bytes)
    ensures forall i :: 0 <= i < |Encode(b)| ==> (Encode(b)[i] == Pad <==> i >= |Encode(b)| - PadCount(|b|))
    decreases |b|
  {
    if |b| > 3 {
      PaddingAtEnd(b[3..]);
      var head, tail := EncodeGroup(b[..3]), Encode(b[3..]);
      assert Encode(b) == head + tail;
      PadCountShift(|b| - 3);
      assert PadCount(3) == 0;
      forall i | 0 <= i < |Encode(b)|
        ensures Encode(b)[i] == Pad <==> i >= |Encode(b)| - PadCount(|b|)
      {
        if i >= 4 {
          assert Encode(b)[i] == tail[i - 4];
        } else {
          assert Encode(b)[i] == head[i];
        }
      }
    }
  }

  // ---- the reference decoder ----

  /** The three bytes that four 6-bit values spell, most significant bit
      first. */
  function GroupByte0(v0: Sextet, v1: Sextet): Byte { v0 * 4 + v1 / 16 }

  function GroupByte1(v1: Sextet, v2: Sextet): Byte { (v1 % 16) * 16 + v2 / 4 }

  function GroupByte2(v2: Sextet, v3: Sextet): Byte { (v2 % 4) * 64 + v3 }

  /** The bytes of one group of four characters; pads are accepted only in
      the final group, as `==` or `=`. */
  function DecodeGroup(q: JsString, last: bool): (r: Option<Bytes>)
    requires |q| == 4
    ensures r.Some? ==> 1 <= |r.value| <= 3
  {
    match (AlphabetValue(q[0]), AlphabetValue(q[1]), AlphabetValue(q[2]), AlphabetValue(q[3]))
    case (Some(v0), Some(v1), Some(v2), Some(v3)) =>
      Some([GroupByte0(v0, v1), GroupByte1(v1, v2), GroupByte2(v2, v3)])
    case (Some(v0), Some(v1), Some(v2), None) =>
      if last && q[3] == Pad then Some([GroupByte0(v0, v1), GroupByte1(v1, v2)]) else None
    case (Some(v0), Some(v1), None, None) =>
      if last && q[2] == Pad && q[3] == Pad then Some([GroupByte0(v0, v1)]) else None
    case _ => None
  }

  /** Decodes a whole encoding; `None` when the length is not a multiple of
      four or a character is out of place. */
  function Decode(s: JsString): (r: Option<Bytes>)
    decreases |s|
  {
    if s == [] then Some([])
    else if |s| < 4 then None
    else
      match DecodeGroup(s[..4], |s| == 4)
      case None => None
      case Some(g) =>
        match Decode(s[4..])
        case None => None
        case Some(rest) => Some(g + rest)
  }

  /** Joining the 6-bit values of three bytes gives the bytes back. */
  lemma JoinSplit(b0: Byte, b1: Byte, b2: Byte)
    ensures GroupByte0(Sextet0(b0), Sextet1(b0, b1)) == b0
    ensures GroupByte1(Sextet1(b0, b1), Sextet2(b1, b2)) == b1
    ensures GroupByte2(Sextet2(b1, b2), Sextet3(b2)) == b2
  {
  }

  /** Decoding a group whose four characters are all alphabet characters. */
  lemma DecodeFullGroup(v0: Sextet, v1: Sextet, v2: Sextet, v3: Sextet, last: bool)
    ensures DecodeGroup([AlphabetChar(v0), AlphabetChar(v1), AlphabetChar(v2), AlphabetChar(v3)], last)
            == Some([GroupByte0(v0, v1), GroupByte1(v1, v2), GroupByte2(v2, v3)])
  {
    AlphabetValueOfChar(v0);
    AlphabetValueOfChar(v1);
    AlphabetValueOfChar(v2);
    AlphabetValueOfChar(v3);
  }

  lemma DecodeOnePadGroup(v0: Sextet, v1: Sextet, v2: Sextet)
    ensures DecodeGroup([AlphabetChar(v0), AlphabetChar(v1), AlphabetChar(v2), Pad], true)
            == Some([GroupByte0(v0, v1), GroupByte1(v1, v2)])
  {
    AlphabetValueOfChar(v0);
    AlphabetValueOfChar(v1);
    AlphabetValueOfChar(v2);
  }

  lemma DecodeTwoPadGroup(v0: Sextet, v1: Sextet)
    ensures DecodeGroup([AlphabetChar(v0), AlphabetChar(v1), Pad, Pad], true)
            == Some([GroupByte0(v0, v1)])
  {
    AlphabetValueOfChar(v0);
    AlphabetValueOfChar(v1);
  }

  lemma GroupRoundTrip(g: Bytes, last: bool)
    requires 1 <= |g| <= 3
    requires |g| < 3 ==> last
    ensures DecodeGroup(EncodeGroup(g), last) == Some(g)
  {
    if |g| == 1 {
      OneByteRoundTrip(g[0]);
      assert [g[0]] == g;
    } else if |g| == 2 {
      TwoByteRoundTrip(g[0], g[1]);
      assert [g[0], g[1]] == g;
    } else {
      ThreeByteRoundTrip(g[0], g[1], g[2], last);
      assert [g[0], g[1], g[2]] == g;
    }
  }

  lemma OneByteRoundTrip(b0: Byte)
    ensures DecodeGroup(EncodeGroup([b0]), true) == Some([b0])
  {
    var s0, s1 := Sextet0(b0), Sextet1(b0, 0);
    assert GroupByte0(s0, s1) == b0 by {
      JoinSplit(b0, 0, 0);
    }
    assert EncodeGroup([b0]) == [AlphabetChar(s0), AlphabetChar(s1), Pad, Pad];
    DecodeTwoPadGroup(s0, s1);
  }

  lemma TwoByteRoundTrip(b0: Byte, b1: Byte)
    ensures DecodeGroup(EncodeGroup([b0, b1]), true) == Some([b0, b1])
  {
    JoinSplit(b0, b1, 0);
    assert EncodeGroup([b0, b1]) == [AlphabetChar(Sextet0(b0)), AlphabetChar(Sextet1(b0, b1)), AlphabetChar(Sextet2(b1, 0)), Pad];
    DecodeOnePadGroup(Sextet0(b0), Sextet1(b0, b1), Sextet2(b1, 0));
  }

  lemma ThreeByteRoundTrip(b0: Byte, b1: Byte, b2: Byte, last: bool)
    ensures DecodeGroup(EncodeGroup([b0, b1, b2]), last) == Some([b0, b1, b2])
  {
    JoinSplit(b0, b1, b2);
    assert EncodeGroup([b0, b1, b2]) == [AlphabetChar(Sextet0(b0)), AlphabetChar(Sextet1(b0, b1)), AlphabetChar(Sextet2(b1, b2)), AlphabetChar(Sextet3(b2))];
    DecodeFullGroup(Sextet0(b0), Sextet1(b0, b1), Sextet2(b1, b2), Sextet3(b2), last);
  }

  /** The decoder inverts the encoder on every byte sequence. */
  lemma {:induction false} DecodeEncode(b: Bytes)
    ensures Decode(Encode(b)) == Some(b)
    decreases |b|
  {
    if b == [] {
    } else if |b| <= 3 {
      GroupRoundTrip(b, true);
      var e := Encode(b);
      assert e[..4] == e;
      assert e[4..] == [];
      assert Decode(e[4..]) == Some([]);
      assert b + [] == b;
    } else {
      var e := Encode(b);
      var head, tail := EncodeGroup(b[..3]), Encode(b[3..]);
      assert e == head + tail;
      assert e[..4] == head;
      assert e[4..] == tail;
      GroupRoundTrip(b[..3], |e| == 4);
      DecodeEncode(b[3..]);
      assert b[..3] + b[3..] == b;
    }
  }

  // ---- btoa ----

  /** The `DOMException` `btoa` throws. */
  datatype BtoaError = InvalidCharacterError

  /** A string every code unit of which fits in one byte. */
  predicate IsLatin1(s: JsString) { forall i :: 0 <= i < |s| ==> s[i] < 0x100 }

  /** The bytes of a Latin-1 string, one per code unit. */
  function Latin1Bytes(s: JsString): (r: Bytes)
    requires IsLatin1(s)
    ensures |r| == |s|
    ensures forall i :: 0 <= i < |s| ==> r[i] == s[i]
  {
    seq(|s|, i requires 0 <= i < |s| => s[i])
  }

  /** `btoa(s)`: throws for a code unit above 0xFF; otherwise the base 64
      encoding of the code units as bytes. */
  function Btoa(s: JsString): (r: Result<JsString, BtoaError>)
    ensures r.Failure? <==> !IsLatin1(s)
    ensures r.Success? ==> |r.value| == 4 * ((|s| + 2) / 3)
    ensures r.Success? ==> Decode(r.value) == Some(Latin1Bytes(s))
  {
    if IsLatin1(s) then
      DecodeEncode(Latin1Bytes(s));
      Success(Encode(Latin1Bytes(s)))
    else Failure(InvalidCharacterError)
  }

  lemma ReverseReverse<T>(s: seq<T>)
    ensures Reverse(Reverse(s)) == s
  {
    assert forall i :: 0 <= i < |s| ==> Reverse(Reverse(s))[i] == Reverse(s)[|s| - 1 - i];
  }
}
