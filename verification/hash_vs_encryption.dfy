/** `HashVsEncryption`: one input, its truncated SHA-256 digest on the
    "hash" side and, on the "encryption" side, the reversed base 64 of the
    input, which the "reverse with key" button claims to restore. */
module HashVsEncryption {
  import opened JsCore
  import opened Hex
  import opened CryptoFacade
  import opened Base64

  /** How many hex characters of the digest are displayed. */
  const HashDisplayLength := 24

  datatype Panel = Panel(input: JsString, hash: JsString, encrypted: JsString, isDecrypted: bool)

  /** The pseudo-encryption: `btoa(input)` read backwards. It throws exactly
      when `btoa` does; otherwise the result is four characters per started
      group of three code units, with the padding moved to the front, and
      reading it backwards and decoding gives the input back. */
  function PseudoEncrypt(input: JsString): (r: Result<JsString, BtoaError>)
    ensures r.Failure? <==> !IsLatin1(input)
    ensures r.Success? ==> |r.value| == 4 * ((|input| + 2) / 3)
    ensures r.Success? ==> forall i :: 0 <= i < |r.value| ==> (r.value[i] == Pad <==> i < PadCount(|input|))
    ensures r.Success? ==> Decode(Reverse(r.value)) == Some(Latin1Bytes(input))
  {
    match Btoa(input)
    case Failure(e) => Failure(e)
    case Success(b) =>
      assert b == Encode(Latin1Bytes(input));
      ReversedEncoding(Latin1Bytes(input));
      Success(Reverse(b))
  }

  /** Read backwards, an encoding starts with its padding, and reading it
      backwards once more gives back what decodes to the bytes. */
  lemma ReversedEncoding(bytes: Bytes)
    ensures var r := Reverse(Encode(bytes));
            forall i :: 0 <= i < |r| ==> (r[i] == Pad <==> i < PadCount(|bytes|))
    ensures Decode(Reverse(Reverse(Encode(bytes)))) == Some(bytes)
  {
    var e := Encode(bytes);
    PaddingAtEnd(bytes);
    ReverseReverse(e);
    DecodeEncode(bytes);
    assert forall i :: 0 <= i < |e| ==> Reverse(e)[i] == e[|e| - 1 - i];
  }

  /** The digest prefix shown on the hash side. */
  function HashDisplay(crypto: SubtleCrypto, input: JsString): (r: JsString)
    ensures |r| == HashDisplayLength && IsLowerHex(r)
    ensures r <= Sha256(crypto, input)
  {
    var h := Sha256(crypto, input);
    LowerHexPrefix(h, HashDisplayLength);
    Prefix(h, HashDisplayLength)
  }

  /** The effect that runs after each change of `input`, as written: the hash
      is set first; if `btoa` then throws, the rest of the effect is skipped
      and `encrypted` and `isDecrypted` keep their old values. */
  function RefreshAsWritten(crypto: SubtleCrypto, p: Panel): (r: Panel)
    ensures r.input == p.input && r.hash == HashDisplay(crypto, p.input)
    ensures IsLatin1(p.input) ==> !r.isDecrypted && Decode(Reverse(r.encrypted)) == Some(Latin1Bytes(p.input))
    ensures !IsLatin1(p.input) ==> r.encrypted == p.encrypted && r.isDecrypted == p.isDecrypted
  {
    var withHash := p.(hash := HashDisplay(crypto, p.input));
    match PseudoEncrypt(p.input)
    case Failure(_) => withHash
    case Success(enc) => withHash.(encrypted := enc, isDecrypted := false)
  }

  /** The effect as evidently intended: every change of the input hides the
      restored message, and the ciphertext panel is emptied when the input
      cannot be encoded instead of keeping the previous input's ciphertext. */
  function Refresh(crypto: SubtleCrypto, p: Panel): (r: Panel)
    ensures r.input == p.input && r.hash == HashDisplay(crypto, p.input)
    ensures !r.isDecrypted
    ensures Tracks(r)
  {
    var withHash := p.(hash := HashDisplay(crypto, p.input), isDecrypted := false);
    match PseudoEncrypt(p.input)
    case Failure(_) => withHash.(encrypted := [])
    case Success(enc) => withHash.(encrypted := enc)
  }

  /** The ciphertext belongs to the current input: it decodes back to it, or
      it is empty when the input has no base 64 form. */
  predicate Tracks(p: Panel)
  {
    if IsLatin1(p.input) then Decode(Reverse(p.encrypted)) == Some(Latin1Bytes(p.input))
    else p.encrypted == []
  }

  /** The state after mounting: the initial input, then the effect. */
  function Mount(crypto: SubtleCrypto): (r: Panel)
    ensures r.input == Str("MySecret123") && !r.isDecrypted && Tracks(r)
  {
    Refresh(crypto, Panel(Str("MySecret123"), [], [], false))
  }

  /** Typing into the input: the new value, then the effect. */
  function Type(crypto: SubtleCrypto, p: Panel, newInput: JsString): (r: Panel)
    ensures r.input == newInput && !r.isDecrypted && Tracks(r)
    ensures r.hash == HashDisplay(crypto, newInput)
  {
    Refresh(crypto, p.(input := newInput))
  }

  /** "Reverse with key": the button exists only while the message is not
      yet restored; it shows the restored panel. */
  function RevealClick(p: Panel): (r: Panel)
    ensures r.isDecrypted
    ensures r.input == p.input && r.encrypted == p.encrypted && r.hash == p.hash
  {
    if p.isDecrypted then p else p.(isDecrypted := true)
  }

  /** "Reverse with key" as evidently intended: it restores only a message
      the ciphertext holds, so an input without a base 64 form leaves the
      panel closed. */
  function GuardedReveal(p: Panel): (r: Panel)
    ensures r.isDecrypted <==> p.isDecrypted || IsLatin1(p.input)
    ensures r.input == p.input && r.encrypted == p.encrypted && r.hash == p.hash
  {
    if p.isDecrypted || !IsLatin1(p.input) then p else p.(isDecrypted := true)
  }

  /** What the restored panel claims: the input it prints is the message the
      displayed ciphertext decodes to. */
  predicate RestoredIsHonest(p: Panel)
  {
    p.isDecrypted ==> IsLatin1(p.input) && Decode(Reverse(p.encrypted)) == Some(Latin1Bytes(p.input))
  }

  /** What the user can do: type a new value, or press "reverse with key". */
  datatype PanelEvent = Typed(value: JsString) | Reveal

  /** One event of the corrected panel. */
  function Step(crypto: SubtleCrypto, p: Panel, e: PanelEvent): Panel
  {
    match e
    case Typed(v) => Type(crypto, p, v)
    case Reveal => GuardedReveal(p)
  }

  function Run(crypto: SubtleCrypto, p: Panel, events: seq<PanelEvent>): Panel
    decreases |events|
  {
    if events == [] then p else Run(crypto, Step(crypto, p, events[0]), events[1..])
  }

  /** Whatever the user does, the corrected panel keeps the ciphertext tied
      to the input and never shows a restored message the ciphertext does
      not decode to. */
  lemma {:induction false} AlwaysHonest(crypto: SubtleCrypto, p: Panel, events: seq<PanelEvent>)
    requires Tracks(p) && RestoredIsHonest(p)
    ensures Tracks(Run(crypto, p, events)) && RestoredIsHonest(Run(crypto, p, events))
    decreases |events|
  {
    if events != [] {
      AlwaysHonest(crypto, Step(crypto, p, events[0]), events[1..]);
    }
  }

  /** Typing as written: the new value, then the effect as written. */
  function TypeAsWritten(crypto: SubtleCrypto, p: Panel, newInput: JsString): (r: Panel)
    ensures r.input == newInput && r.hash == HashDisplay(crypto, newInput)
    ensures IsLatin1(newInput) ==> !r.isDecrypted && Tracks(r)
    ensures !IsLatin1(newInput) ==> r.encrypted == p.encrypted && r.isDecrypted == p.isDecrypted
  {
    RefreshAsWritten(crypto, p.(input := newInput))
  }

  /** One event of the panel as written. */
  function StepAsWritten(crypto: SubtleCrypto, p: Panel, e: PanelEvent): Panel
  {
    match e
    case Typed(v) => TypeAsWritten(crypto, p, v)
    case Reveal => RevealClick(p)
  }

  function RunAsWritten(crypto: SubtleCrypto, p: Panel, events: seq<PanelEvent>): Panel
    decreases |events|
  {
    if events == [] then p else RunAsWritten(crypto, StepAsWritten(crypto, p, events[0]), events[1..])
  }

  /** What the panel as written does keep: the hash is always that of the
      current input, and a Latin-1 input always has its own ciphertext. Only
      an input without a base 64 form can sit beside an older ciphertext. */
  predicate HashAndLatin1Current(crypto: SubtleCrypto, p: Panel)
  {
    && p.hash == HashDisplay(crypto, p.input)
    && (IsLatin1(p.input) ==> Tracks(p))
  }

  lemma StepAsWrittenKeepsLatin1Current(crypto: SubtleCrypto, p: Panel, e: PanelEvent)
    requires HashAndLatin1Current(crypto, p)
    ensures HashAndLatin1Current(crypto, StepAsWritten(crypto, p, e))
  {
    match e
    case Typed(v) =>
    case Reveal =>
  }

  lemma {:induction false} AsWrittenKeepsLatin1Current(crypto: SubtleCrypto, p: Panel, events: seq<PanelEvent>)
    requires HashAndLatin1Current(crypto, p)
    ensures HashAndLatin1Current(crypto, RunAsWritten(crypto, p, events))
    decreases |events|
  {
    if events != [] {
      StepAsWrittenKeepsLatin1Current(crypto, p, events[0]);
      AsWrittenKeepsLatin1Current(crypto, StepAsWritten(crypto, p, events[0]), events[1..]);
    }
  }

  /** As written, an input with a code unit above 0xFF leaves the previous
      ciphertext on screen and the restored panel open: after "A" was
      restored, typing "€" shows "€" as restored from the ciphertext of "A". */
  lemma StaleAfterWideInput(crypto: SubtleCrypto)
    ensures var before := RevealClick(RefreshAsWritten(crypto, Panel([0x41], [], [], false)));
            var after := RefreshAsWritten(crypto, before.(input := [0x20AC]));
            && after.isDecrypted
            && after.encrypted == before.encrypted
            && Decode(Reverse(after.encrypted)) == Some([0x41])
            && !RestoredIsHonest(after)
  {
    var a: JsString := [0x41];
    var euro: JsString := [0x20AC];
    assert IsLatin1(a);
    assert Latin1Bytes(a) == [0x41];
    var first := RefreshAsWritten(crypto, Panel(a, [], [], false));
    assert Decode(Reverse(first.encrypted)) == Some([0x41]);
    var before := RevealClick(first);
    assert !IsLatin1(euro) by {
      assert euro[0] >= 0x100;
    }
    var after := RefreshAsWritten(crypto, before.(input := euro));
    assert after.encrypted == before.encrypted == first.encrypted;
  }
}
