/** `new TextEncoder().encode(s)`: the UTF-8 bytes of a JavaScript string.
    A surrogate pair becomes one four-byte sequence; a lone surrogate is
    replaced by U+FFFD, as the WHATWG Encoding Standard prescribes. */
module TextEncoding {
  import opened JsCore

  predicate IsHighSurrogate(c: CodeUnit) { 0xD800 <= c <= 0xDBFF }

  predicate IsLowSurrogate(c: CodeUnit) { 0xDC00 <= c <= 0xDFFF }

  predicate IsSurrogate(c: CodeUnit) { 0xD800 <= c <= 0xDFFF }

  /** The UTF-8 form of one Unicode scalar value. */
  function EncodeScalar(cp: int): (r: Bytes)
    requires 0 <= cp <= 0x10_FFFF
    ensures 1 <= |r| <= 4
    ensures |r| == 1 <==> cp < 0x80
    ensures |r| == 4 <==> cp >= 0x1_0000
    ensures r[0] < 0x80 <==> cp < 0x80
  {
    if cp < 0x80 then [cp]
    else if cp < 0x800 then [0xC0 + cp / 0x40, 0x80 + cp % 0x40]
    else if cp < 0x1_0000 then
      [0xE0 + cp / 0x1000, 0x80 + (cp / 0x40) % 0x40, 0x80 + cp % 0x40]
    else
      [0xF0 + cp / 0x4_0000, 0x80 + (cp / 0x1000) % 0x40,
       0x80 + (cp / 0x40) % 0x40, 0x80 + cp % 0x40]
  }

  /** The scalar value a high and a low surrogate stand for together. */
  function CombineSurrogates(hi: CodeUnit, lo: CodeUnit): (cp: int)
    requires IsHighSurrogate(hi) && IsLowSurrogate(lo)
    ensures 0x1_0000 <= cp <= 0x10_FFFF
  {
    0x1_0000 + (hi - 0xD800) * 0x400 + (lo - 0xDC00)
  }

  /** The three bytes of U+FFFD REPLACEMENT CHARACTER. */
  const Replacement: Bytes := [0xEF, 0xBF, 0xBD]

  function Utf8Encode(s: JsString): (r: Bytes)
    ensures |s| <= |r| <= 3 * |s|
    decreases |s|
  {
    if |s| == 0 then []
    else if |s| >= 2 && IsHighSurrogate(s[0]) && IsLowSurrogate(s[1]) then
      EncodeScalar(CombineSurrogates(s[0], s[1])) + Utf8Encode(s[2..])
    else if IsSurrogate(s[0]) then
      Replacement + Utf8Encode(s[1..])
    else
      EncodeScalar(s[0]) + Utf8Encode(s[1..])
  }

  predicate IsAscii(s: JsString) { forall i :: 0 <= i < |s| ==> s[i] < 0x80 }

  /** An ASCII string encodes to its own code units, one byte each. */
  lemma {:induction false} AsciiEncodesToItself(s: JsString)
    requires IsAscii(s)
    ensures Utf8Encode(s) == s
    decreases |s|
  {
    if |s| > 0 {
      AsciiEncodesToItself(s[1..]);
    }
  }

  /** Appending an ASCII code unit appends exactly its byte: an ASCII unit
      cannot complete a surrogate pair. */
  lemma {:induction false} AppendAscii(s: JsString, c: CodeUnit)
    requires c < 0x80
    ensures Utf8Encode(s + [c]) == Utf8Encode(s) + [c]
    decreases |s|
  {
    var t := s + [c];
    if |s| == 0 {
      assert t == [c];
    } else if |s| >= 2 && IsHighSurrogate(s[0]) && IsLowSurrogate(s[1]) {
      assert t[2..] == s[2..] + [c];
      AppendAscii(s[2..], c);
    } else {
      assert t[1..] == s[1..] + [c];
      AppendAscii(s[1..], c);
    }
  }

  /** The encoder is not injective: a lone surrogate and U+FFFD itself are
      sent as the same bytes, so a signature over one verifies the other. */
  lemma LoneSurrogateCollides()
    ensures Utf8Encode([0xD800]) == Utf8Encode([0xFFFD])
  {
    assert EncodeScalar(0xFFFD) == Replacement;
  }
}
