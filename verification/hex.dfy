/** The hex codec of `src/utils/crypto.ts`: `bufferToHex` writes every byte
    as two lowercase digits; `hexToBuffer` cuts a string into tokens of at
    most two characters and reads each with `parseInt(token, 16)`. */
module Hex {
  import opened JsCore

  predicate IsDecimalDigit(c: CodeUnit) { '0' as int <= c <= '9' as int }

  predicate IsHexDigit(c: CodeUnit)
  {
    || IsDecimalDigit(c)
    || 'a' as int <= c <= 'f' as int
    || 'A' as int <= c <= 'F' as int
  }

  predicate IsLowerHexDigit(c: CodeUnit)
  {
    IsDecimalDigit(c) || 'a' as int <= c <= 'f' as int
  }

  /** A string made only of hex digits, in either case. */
  predicate IsHex(s: JsString) { forall i :: 0 <= i < |s| ==> IsHexDigit(s[i]) }

  /** A string made only of lowercase hex digits. */
  predicate IsLowerHex(s: JsString) { forall i :: 0 <= i < |s| ==> IsLowerHexDigit(s[i]) }

  /** Any prefix of lowercase hex is lowercase hex. */
  lemma LowerHexPrefix(s: JsString, n: nat)
    requires IsLowerHex(s)
    ensures IsLowerHex(Prefix(s, n))
  {
    var r := Prefix(s, n);
    assert forall i :: 0 <= i < |r| ==> r[i] == s[i];
  }

  function DigitValue(c: CodeUnit): (v: int)
    requires IsHexDigit(c)
    ensures 0 <= v < 16
  {
    if IsDecimalDigit(c) then c - '0' as int
    else if c >= 'a' as int then c - 'a' as int + 10
    else c - 'A' as int + 10
  }

  /** The lowercase digit `Number.prototype.toString(16)` writes for `v`. */
  function LowerDigit(v: int): (c: CodeUnit)
    requires 0 <= v < 16
    ensures IsLowerHexDigit(c) && DigitValue(c) == v
  {
    if v < 10 then '0' as int + v else 'a' as int + (v - 10)
  }

  /** `b.toString(16)`: one digit below 16, two digits otherwise. */
  function ToHexString(b: Byte): JsString
  {
    if b < 16 then [LowerDigit(b)] else [LowerDigit(b / 16), LowerDigit(b % 16)]
  }

  /** `s.padStart(2, '0')`. */
  function PadStart2(s: JsString): JsString
  {
    if |s| >= 2 then s else seq(2 - |s|, _ => '0' as int) + s
  }

  /** `b.toString(16).padStart(2, '0')`: exactly two lowercase digits, high
      nibble first. */
  function ByteToHex(b: Byte): (r: JsString)
    ensures |r| == 2 && IsLowerHexDigit(r[0]) && IsLowerHexDigit(r[1])
    ensures 16 * DigitValue(r[0]) + DigitValue(r[1]) == b
  {
    PadStart2(ToHexString(b))
  }

  /** `bufferToHex`. */
  function BufferToHex(b: Bytes): (r: JsString)
    ensures |r| == 2 * |b|
    ensures IsLowerHex(r)
  {
    if b == [] then [] else ByteToHex(b[0]) + BufferToHex(b[1..])
  }

  /** Characters 2i and 2i+1 of `bufferToHex` spell byte i. */
  lemma {:induction false} BufferToHexPairs(b: Bytes)
    ensures forall i :: 0 <= i < |b| ==> BufferToHex(b)[2 * i..2 * i + 2] == ByteToHex(b[i])
    decreases |b|
  {
    if b != [] {
      BufferToHexPairs(b[1..]);
      var rest := BufferToHex(b[1..]);
      var r := BufferToHex(b);
      assert r == ByteToHex(b[0]) + rest;
      forall i | 1 <= i < |b|
        ensures r[2 * i..2 * i + 2] == ByteToHex(b[i])
      {
        assert r[2 * i..2 * i + 2] == rest[2 * (i - 1)..2 * (i - 1) + 2];
        assert b[i] == b[1..][i - 1];
      }
    }
  }

  // ---- hexToBuffer ----

  /** The code units `.` refuses to match in a regular expression without
      the `s` flag. */
  predicate IsLineTerminator(c: CodeUnit)
  {
    c == 0x0A || c == 0x0D || c == 0x2028 || c == 0x2029
  }

  /** The matches of `/.{1,2}/g`, left to right: greedy runs of one or two
      code units, never spanning a line terminator. */
  function Tokens(s: JsString): (ts: seq<JsString>)
    ensures forall k :: 0 <= k < |ts| ==> 1 <= |ts[k]| <= 2
    decreases |s|
  {
    if |s| == 0 then []
    else if IsLineTerminator(s[0]) then Tokens(s[1..])
    else if |s| >= 2 && !IsLineTerminator(s[1]) then [s[..2]] + Tokens(s[2..])
    else [s[..1]] + Tokens(s[1..])
  }

  /** `s.match(/.{1,2}/g)`: `null` (here `None`) when nothing matches. */
  function MatchPairs(s: JsString): (r: Option<seq<JsString>>)
    ensures r.None? <==> Tokens(s) == []
    ensures r.Some? ==> r.value == Tokens(s)
  {
    var ts := Tokens(s);
    if ts == [] then None else Some(ts)
  }

  /** The white space and line terminators `parseInt` skips before a number. */
  predicate IsStrWhiteSpace(c: CodeUnit)
  {
    || c == 0x09 || c == 0x0B || c == 0x0C || c == 0x20 || c == 0xA0 || c == 0xFEFF
    || c == 0x1680 || (0x2000 <= c <= 0x200A) || c == 0x202F || c == 0x205F || c == 0x3000
    || IsLineTerminator(c)
  }

  function TrimStart(s: JsString): (r: JsString)
    ensures |r| <= |s| && r == s[|s| - |r|..]
    ensures |r| > 0 ==> !IsStrWhiteSpace(r[0])
  {
    if |s| > 0 && IsStrWhiteSpace(s[0]) then TrimStart(s[1..]) else s
  }

  /** Length of the longest prefix made of hex digits. */
  function HexPrefixLength(s: JsString): (n: nat)
    ensures n <= |s|
    ensures IsHex(s[..n])
    ensures n < |s| ==> !IsHexDigit(s[n])
  {
    if |s| > 0 && IsHexDigit(s[0]) then
      var n := 1 + HexPrefixLength(s[1..]);
      assert s[..n] == [s[0]] + s[1..][..n - 1];
      n
    else 0
  }

  /** The value of a string of hex digits, most significant first. */
  function HexValue(s: JsString): (v: nat)
    requires IsHex(s)
  {
    if s == [] then 0 else 16 * HexValue(s[..|s| - 1]) + DigitValue(s[|s| - 1])
  }

  /** A JavaScript number as `parseInt` can return it. */
  datatype Number = NaN | Int(v: int)

  /** `parseInt(s, 16)`: skip leading white space, read an optional sign and
      an optional `0x`/`0X` prefix, then the longest run of hex digits; no
      digits at all gives `NaN`. (The value is exact: the tokens it is
      applied to have at most two digits.) */
  function ParseIntHex(s: JsString): Number
  {
    var t := TrimStart(s);
    var negative := |t| > 0 && t[0] == '-' as int;
    var u := if |t| > 0 && (t[0] == '-' as int || t[0] == '+' as int) then t[1..] else t;
    var w := if |u| >= 2 && u[0] == '0' as int && (u[1] == 'x' as int || u[1] == 'X' as int)
             then u[2..] else u;
    var n := HexPrefixLength(w);
    if n == 0 then NaN
    else
      var v: int := HexValue(w[..n]);
      Int(if negative then -v else v)
  }

  /** `ToUint8`, the conversion a `Uint8Array` applies to each element:
      `NaN` becomes 0 and an integer is reduced modulo 256. */
  function ToUint8(x: Number): Byte
  {
    match x
    case NaN => 0
    case Int(v) => v % 0x100
  }

  /** `hexToBuffer`. */
  function HexToBuffer(hex: JsString): (r: Bytes)
    ensures hex == [] ==> r == []
    ensures |r| == |Tokens(hex)|
  {
    match MatchPairs(hex)
    case None => []
    case Some(ts) => seq(|ts|, k requires 0 <= k < |ts| => ToUint8(ParseIntHex(ts[k])))
  }

  // ---- properties ----

  /** A hex digit is none of the characters `parseInt` or the tokenizer
      treat specially. */
  lemma HexDigitIsPlain(c: CodeUnit)
    requires IsHexDigit(c)
    ensures !IsStrWhiteSpace(c) && !IsLineTerminator(c)
    ensures c != '-' as int && c != '+' as int && c != 'x' as int && c != 'X' as int
  {
  }

  lemma {:induction false} HexPrefixOfHex(s: JsString)
    requires IsHex(s)
    ensures HexPrefixLength(s) == |s|
    decreases |s|
  {
    if |s| > 0 {
      assert IsHex(s[1..]);
      HexPrefixOfHex(s[1..]);
    }
  }

  /** On a string of hex digits the tokens are the consecutive pairs, the
      last one a single digit when the length is odd. */
  lemma {:induction false} TokensOfHex(s: JsString)
    requires IsHex(s)
    ensures |Tokens(s)| == (|s| + 1) / 2
    ensures forall k :: 0 <= k < |s| / 2 ==> Tokens(s)[k] == s[2 * k..2 * k + 2]
    ensures |s| % 2 == 1 ==> Tokens(s)[|s| / 2] == [s[|s| - 1]]
    decreases |s|
  {
    if |s| == 0 {
    } else if |s| == 1 {
      HexDigitIsPlain(s[0]);
      assert Tokens(s) == [s[..1]] + Tokens(s[1..]);
    } else {
      HexDigitIsPlain(s[0]);
      HexDigitIsPlain(s[1]);
      var rest := s[2..];
      assert IsHex(rest);
      TokensOfHex(rest);
      assert Tokens(s) == [s[..2]] + Tokens(rest);
      forall k | 1 <= k < |s| / 2
        ensures Tokens(s)[k] == s[2 * k..2 * k + 2]
      {
        assert Tokens(s)[k] == Tokens(rest)[k - 1];
        assert rest[2 * (k - 1)..2 * (k - 1) + 2] == s[2 * k..2 * k + 2];
      }
    }
  }

  /** `parseInt` reads a token of one or two hex digits as its value. */
  lemma ParseHexToken(t: JsString)
    requires 1 <= |t| <= 2 && IsHex(t)
    ensures ParseIntHex(t) == Int(HexValue(t))
    ensures |t| == 1 ==> HexValue(t) == DigitValue(t[0])
    ensures |t| == 2 ==> HexValue(t) == 16 * DigitValue(t[0]) + DigitValue(t[1])
  {
    ParseHexDigits(t);
    HexValueOfToken(t);
  }

  /** A run of hex digits is read whole: no white space, sign or `0x` to
      skip. */
  lemma ParseHexDigits(t: JsString)
    requires 1 <= |t| && IsHex(t)
    ensures ParseIntHex(t) == Int(HexValue(t))
  {
    HexDigitIsPlain(t[0]);
    assert TrimStart(t) == t;
    assert |t| >= 2 ==> t[1] != 'x' as int && t[1] != 'X' as int by {
      if |t| >= 2 {
        HexDigitIsPlain(t[1]);
      }
    }
    HexPrefixOfHex(t);
    assert t[..|t|] == t;
  }

  /** The value of one or two hex digits. */
  lemma HexValueOfToken(t: JsString)
    requires 1 <= |t| <= 2 && IsHex(t)
    ensures |t| == 1 ==> HexValue(t) == DigitValue(t[0])
    ensures |t| == 2 ==> HexValue(t) == 16 * DigitValue(t[0]) + DigitValue(t[1])
  {
    if |t| == 2 {
      assert t[..1] == [t[0]];
      assert [t[0]][..0] == [];
    } else {
      assert t[..0] == [];
    }
  }

  lemma SmallMod(v: int)
    requires 0 <= v < 0x100
    ensures ToUint8(Int(v)) == v
  {
  }

  /** The byte a token of one or two hex digits becomes. */
  lemma TokenByte(t: JsString)
    requires 1 <= |t| <= 2 && IsHex(t)
    ensures |t| == 1 ==> ToUint8(ParseIntHex(t)) == DigitValue(t[0])
    ensures |t| == 2 ==> ToUint8(ParseIntHex(t)) == 16 * DigitValue(t[0]) + DigitValue(t[1])
  {
    ParseHexToken(t);
    var v := HexValue(t);
    assert 0 <= v < 0x100;
    SmallMod(v);
  }

  /** Byte `k` of `hexToBuffer` is token `k` read by `parseInt` and then
      coerced by the `Uint8Array`. */
  lemma HexToBufferAt(hex: JsString, k: int)
    requires 0 <= k < |Tokens(hex)|
    ensures HexToBuffer(hex)[k] == ToUint8(ParseIntHex(Tokens(hex)[k]))
  {
    assert MatchPairs(hex) == Some(Tokens(hex));
  }

  /** `hexToBuffer` on well-formed hex: one byte per pair of digits, and a
      trailing single digit becomes a byte of its own, so the result has
      ceil(len/2) bytes. */
  lemma HexToBufferOfHex(s: JsString)
    requires IsHex(s)
    ensures |HexToBuffer(s)| == (|s| + 1) / 2
    ensures forall k :: 0 <= k < |s| / 2 ==>
              HexToBuffer(s)[k] == 16 * DigitValue(s[2 * k]) + DigitValue(s[2 * k + 1])
    ensures |s| % 2 == 1 ==> HexToBuffer(s)[|s| / 2] == DigitValue(s[|s| - 1])
  {
    TokensOfHex(s);
    forall k | 0 <= k < |s| / 2
      ensures HexToBuffer(s)[k] == 16 * DigitValue(s[2 * k]) + DigitValue(s[2 * k + 1])
    {
      var t := Tokens(s)[k];
      assert t == s[2 * k..2 * k + 2];
      assert t[0] == s[2 * k] && t[1] == s[2 * k + 1];
      assert IsHex(t);
      TokenByte(t);
      HexToBufferAt(s, k);
    }
    if |s| % 2 == 1 {
      var t := Tokens(s)[|s| / 2];
      assert t == [s[|s| - 1]];
      TokenByte(t);
      HexToBufferAt(s, |s| / 2);
    }
  }

  /** Round trip: decoding the hex of any buffer gives the buffer back. */
  lemma HexRoundTrip(b: Bytes)
    ensures HexToBuffer(BufferToHex(b)) == b
  {
    var h := BufferToHex(b);
    assert IsHex(h) by {
      forall i | 0 <= i < |h| ensures IsHexDigit(h[i]) {
        assert IsLowerHexDigit(h[i]);
      }
    }
    HexToBufferOfHex(h);
    BufferToHexPairs(b);
    var d := HexToBuffer(h);
    forall k | 0 <= k < |b|
      ensures d[k] == b[k]
    {
      var pair := h[2 * k..2 * k + 2];
      assert pair == ByteToHex(b[k]);
      assert h[2 * k] == pair[0] && h[2 * k + 1] == pair[1];
      assert d[k] == 16 * DigitValue(h[2 * k]) + DigitValue(h[2 * k + 1]);
    }
  }
}
