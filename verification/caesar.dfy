/** `CaesarCipherDemo`: a Caesar shift over the uppercase Latin letters,
    the shift controls, the input filter and the alphabet-mapping row. */
module CaesarCipher {
  import opened JsCore

  /** Code of 'A'; the letters are the 26 codes from here on. */
  const CodeA := 65

  predicate IsUpperLetter(c: int) { 65 <= c <= 90 }

  /** `toUpperCase` on one code unit, for the ASCII letters. */
  function UpperUnit(c: CodeUnit): CodeUnit
  {
    if 'a' as int <= c <= 'z' as int then c - 32 else c
  }

  /** `toUpperCase`, restricted to the ASCII case mapping. */
  function ToUpperCase(s: JsString): (r: JsString)
    ensures |r| == |s|
    ensures forall i :: 0 <= i < |s| ==> r[i] == UpperUnit(s[i])
  {
    seq(|s|, i requires 0 <= i < |s| => UpperUnit(s[i]))
  }

  predicate IsUpperText(s: JsString) { forall i :: 0 <= i < |s| ==> UpperUnit(s[i]) == s[i] }

  /** One code unit of `processText`, after upper-casing: a letter moves
      `shift` places, with `%` truncating toward zero as in JavaScript;
      anything else passes through. */
  function ShiftUnit(c: CodeUnit, shift: int): (r: CodeUnit)
    ensures !IsUpperLetter(c) ==> r == c
    ensures IsUpperLetter(c) && shift >= 0 ==> IsUpperLetter(r) && r - CodeA == (c - CodeA + shift) % 26
  {
    if IsUpperLetter(c) then ToUint16(JsRem(c - CodeA + shift, 26) + CodeA) else c
  }

  /** `processText(text, shift)`. */
  function ProcessText(text: JsString, shift: int): (r: JsString)
    ensures |r| == |text|
    ensures forall i :: 0 <= i < |text| && !IsUpperLetter(UpperUnit(text[i])) ==> r[i] == UpperUnit(text[i])
    ensures shift >= 0 ==>
              forall i :: 0 <= i < |text| && IsUpperLetter(UpperUnit(text[i])) ==>
                IsUpperLetter(r[i]) && r[i] - CodeA == (UpperUnit(text[i]) - CodeA + shift) % 26
  {
    var u := ToUpperCase(text);
    seq(|u|, i requires 0 <= i < |u| => ShiftUnit(u[i], shift))
  }

  /** Shifting by `s` and then by `26 - s` gives back the upper-cased text. */
  lemma ShiftBackRestores(text: JsString, s: int)
    requires 0 <= s <= 26
    ensures ProcessText(ProcessText(text, s), 26 - s) == ToUpperCase(text)
  {
    var once := ProcessText(text, s);
    var twice := ProcessText(once, 26 - s);
    forall i | 0 <= i < |text|
      ensures twice[i] == UpperUnit(text[i])
    {
      var c := UpperUnit(text[i]);
      if IsUpperLetter(c) {
        assert UpperUnit(once[i]) == once[i];
        var k := c - CodeA;
        assert once[i] - CodeA == (k + s) % 26;
        assert twice[i] - CodeA == ((k + s) % 26 + 26 - s) % 26;
        assert ((k + s) % 26 + 26 - s) % 26 == k by {
          if k + s < 26 {
            assert (k + s) % 26 == k + s;
            assert (k + 26) % 26 == k;
          } else {
            assert (k + s) % 26 == k + s - 26;
          }
        }
      } else {
        assert once[i] == c;
        assert UpperUnit(c) == c;
      }
    }
  }

  // ---- the demo's state ----

  /** The key the demo starts with. */
  const InitialShift := 3

  const MinShift := 1

  const MaxShift := 25

  /** The input element's `maxLength`. */
  const MaxInputLength := 10

  datatype CaesarDemo = CaesarDemo(input: JsString, shift: int)

  function Initial(): (r: CaesarDemo)
    ensures Valid(r) && |r.input| <= MaxInputLength
  {
    CaesarDemo(Str("HELLO"), InitialShift)
  }

  // ---- the input filter ----

  /** `toUpperCase` of one code unit under the full Unicode case mapping. It
      is a parameter: the tables are not part of the model. Some letters
      expand, 'ß' to "SS" and 'ﬃ' to "FFI". */
  type UpperMap = CodeUnit -> JsString

  /** The longest expansion of one unit under the Unicode case mapping. */
  const MaxExpansion := 3

  /** The mapping agrees with `UpperUnit` on ASCII. */
  predicate AsciiExact(upper: UpperMap)
  {
    forall c: CodeUnit :: c < 0x80 ==> upper(c) == [UpperUnit(c)]
  }

  /** No unit maps to more than `MaxExpansion` units. */
  predicate Bounded(upper: UpperMap)
  {
    forall c: CodeUnit :: |upper(c)| <= MaxExpansion
  }

  predicate IsAscii(s: JsString) { forall i :: 0 <= i < |s| ==> s[i] < 0x80 }

  predicate IsFilterChar(c: int) { IsUpperLetter(c) || c == ' ' as int }

  predicate IsFiltered(s: JsString) { forall i :: 0 <= i < |s| ==> IsFilterChar(s[i]) }

  /** `toUpperCase()` over a whole string, unit by unit. */
  function UpperCaseWith(upper: UpperMap, s: JsString): (r: JsString)
    ensures Bounded(upper) ==> |r| <= MaxExpansion * |s|
  {
    if s == [] then [] else upper(s[0]) + UpperCaseWith(upper, s[1..])
  }

  /** On ASCII text the full mapping is the ASCII one. */
  lemma {:induction false} UpperCaseWithAscii(upper: UpperMap, s: JsString)
    requires AsciiExact(upper) && IsAscii(s)
    ensures UpperCaseWith(upper, s) == ToUpperCase(s)
    decreases |s|
  {
    if s != [] {
      UpperCaseWithAscii(upper, s[1..]);
      assert ToUpperCase(s) == [UpperUnit(s[0])] + ToUpperCase(s[1..]);
    }
  }

  /** `replace(/[^A-Z ]/g, '')`: the letters A-Z and the space stay, in
      order, and nothing else. Nothing is dropped exactly when the text is
      already filtered. */
  function KeepLetters(s: JsString): (r: JsString)
    ensures |r| <= |s| && IsFiltered(r)
    ensures |r| == |s| <==> IsFiltered(s)
    ensures IsFiltered(s) ==> r == s
  {
    if s == [] then []
    else
      var rest := KeepLetters(s[1..]);
      if IsFilterChar(s[0]) then [s[0]] + rest else rest
  }

  /** What the input keeps of a typed value:
      `toUpperCase().replace(/[^A-Z ]/g, '')`. An expanding letter can make
      the result longer than what was typed, but never more than
      `MaxExpansion` times as long; ASCII text never grows. */
  function FilterInput(upper: UpperMap, raw: JsString): (r: JsString)
    ensures IsFiltered(r)
    ensures Bounded(upper) ==> |r| <= MaxExpansion * |raw|
  {
    KeepLetters(UpperCaseWith(upper, raw))
  }

  /** Typed ASCII text never grows in the filter. */
  lemma FilterAsciiNoLonger(upper: UpperMap, raw: JsString)
    requires AsciiExact(upper) && IsAscii(raw)
    ensures |FilterInput(upper, raw)| <= |raw|
  {
    UpperCaseWithAscii(upper, raw);
  }

  /** Filtering is idempotent: an already filtered value passes unchanged. */
  lemma FilterKeepsFiltered(upper: UpperMap, s: JsString)
    requires AsciiExact(upper) && IsFiltered(s)
    ensures FilterInput(upper, s) == s
  {
    UpperCaseWithAscii(upper, s);
    assert ToUpperCase(s) == s;
  }

  /** `n` copies of one code unit. */
  function Repeat(c: CodeUnit, n: nat): (r: JsString)
    ensures |r| == n && forall i :: 0 <= i < n ==> r[i] == c
  {
    seq(n, i => c)
  }

  /** When 'ß' upper-cases to "SS", `n` of them upper-case to `2n` S's. */
  lemma {:induction false} SharpSUpperCase(upper: UpperMap, n: nat)
    requires upper(0xDF) == ['S' as int, 'S' as int]
    ensures UpperCaseWith(upper, Repeat(0xDF, n)) == Repeat('S' as int, 2 * n)
    decreases n
  {
    if n > 0 {
      SharpSUpperCase(upper, n - 1);
      assert Repeat(0xDF, n)[1..] == Repeat(0xDF, n - 1);
      assert Repeat('S' as int, 2 * n) == ['S' as int, 'S' as int] + Repeat('S' as int, 2 * (n - 1));
    }
  }

  /** Ten 'ß', which the field's `maxLength` lets through, are stored as
      twenty letters: the input can hold more than `maxLength` units. */
  lemma ExpandedInputExceedsMaxLength(upper: UpperMap)
    requires upper(0xDF) == ['S' as int, 'S' as int]
    ensures |Repeat(0xDF, MaxInputLength)| == MaxInputLength
    ensures |FilterInput(upper, Repeat(0xDF, MaxInputLength))| == 2 * MaxInputLength
  {
    SharpSUpperCase(upper, MaxInputLength);
  }

  // ---- the demo's state machine ----

  /** The user interactions: the -/+ buttons and typing into the input. */
  datatype CaesarEvent = ShiftDown | ShiftUp | Typed(raw: JsString)

  /** What the field can report: user input never makes a value longer than
      `maxLength`, but a stored value that is already longer (after an
      expansion) can be edited without growing. */
  predicate Admissible(d: CaesarDemo, e: CaesarEvent)
  {
    e.Typed? ==> |e.raw| <= Max(MaxInputLength, |d.input|)
  }

  function Step(upper: UpperMap, d: CaesarDemo, e: CaesarEvent): (r: CaesarDemo)
    ensures e.ShiftDown? ==> r.shift == Max(MinShift, d.shift - 1) && r.input == d.input
    ensures e.ShiftUp? ==> r.shift == Min(MaxShift, d.shift + 1) && r.input == d.input
    ensures e.Typed? ==> r.input == FilterInput(upper, e.raw) && r.shift == d.shift
  {
    match e
    case ShiftDown => d.(shift := Max(MinShift, d.shift - 1))
    case ShiftUp => d.(shift := Min(MaxShift, d.shift + 1))
    case Typed(raw) => d.(input := FilterInput(upper, raw))
  }

  /** What every reachable state satisfies: the key is in 1..25 and the
      input holds only letters and spaces. */
  predicate Valid(d: CaesarDemo)
  {
    && MinShift <= d.shift <= MaxShift
    && IsFiltered(d.input)
  }

  /** A run stops at the first value the field could not report. */
  function Run(upper: UpperMap, d: CaesarDemo, events: seq<CaesarEvent>): CaesarDemo
    decreases |events|
  {
    if events == [] || !Admissible(d, events[0]) then d
    else Run(upper, Step(upper, d, events[0]), events[1..])
  }

  /** Every state reachable from a valid one is valid. */
  lemma {:induction false} ReachableValid(upper: UpperMap, events: seq<CaesarEvent>, d: CaesarDemo)
    requires Valid(d)
    ensures Valid(Run(upper, d, events))
    decreases |events|
  {
    if events != [] && Admissible(d, events[0]) {
      ReachableValid(upper, events[1..], Step(upper, d, events[0]));
    }
  }

  /** Typing only ASCII keeps the input within `maxLength`. */
  lemma {:induction false} AsciiTypingWithinMaxLength(upper: UpperMap, events: seq<CaesarEvent>, d: CaesarDemo)
    requires AsciiExact(upper) && |d.input| <= MaxInputLength
    requires forall k :: 0 <= k < |events| && events[k].Typed? ==> IsAscii(events[k].raw)
    ensures |Run(upper, d, events).input| <= MaxInputLength
    decreases |events|
  {
    if events != [] && Admissible(d, events[0]) {
      if events[0].Typed? {
        FilterAsciiNoLonger(upper, events[0].raw);
      }
      assert forall k :: 0 <= k < |events[1..]| ==> events[1..][k] == events[k + 1];
      AsciiTypingWithinMaxLength(upper, events[1..], Step(upper, d, events[0]));
    }
  }

  // ---- the alphabet-mapping row ----

  /** The row under "A B C D E" as written: `fromCharCode(65 + shift)` up to
      `fromCharCode(69 + shift)`, with no wrap past 'Z'. */
  function MappingRow(shift: int): (r: seq<CodeUnit>)
    ensures |r| == 5
  {
    [ToUint16(CodeA + shift), ToUint16(CodeA + 1 + shift), ToUint16(CodeA + 2 + shift),
     ToUint16(CodeA + 3 + shift), ToUint16(CodeA + 4 + shift)]
  }

  /** The row agrees with the cipher on A..E exactly when the shift is at
      most 21; from 22 on, E (and then D, C, B) shows a punctuation mark. */
  lemma MappingRowAgreesIff(shift: int)
    requires MinShift <= shift <= MaxShift
    ensures (forall k :: 0 <= k < 5 ==> MappingRow(shift)[k] == ShiftUnit(CodeA + k, shift)) <==> shift <= 21
  {
    if shift > 21 {
      assert MappingRow(shift)[4] == 69 + shift;
      assert ShiftUnit(CodeA + 4, shift) == 65 + (4 + shift) % 26;
    } else {
      forall k | 0 <= k < 5 ensures MappingRow(shift)[k] == ShiftUnit(CodeA + k, shift) {
        assert (k + shift) % 26 == k + shift;
      }
    }
  }

  /** At shift 22 the row shows '[' under E, where the cipher writes 'A'. */
  lemma MappingRowAtShift22()
    ensures MappingRow(22)[4] == '[' as int
    ensures ProcessText(Str("E"), 22) == Str("A")
  {
    assert ShiftUnit('E' as int, 22) == 'A' as int;
  }

  /** The row as evidently intended: the ciphertext of "ABCDE". */
  function CorrectedMappingRow(shift: int): (r: seq<CodeUnit>)
    requires shift >= 0
    ensures |r| == 5
    ensures forall k :: 0 <= k < 5 ==> IsUpperLetter(r[k]) && r[k] - CodeA == (k + shift) % 26
  {
    ProcessText(Str("ABCDE"), shift)
  }
}
