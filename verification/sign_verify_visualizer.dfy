/** `SignVerifyVisualizer`: Alice generates keys (stage 1) and signs a
    message (stage 2); Bob verifies the message he received, which a
    "tamper" button can alter. */
module SignVerifyVisualizer {
  import opened JsCore
  import opened Hex
  import opened TextEncoding
  import opened CryptoFacade

  datatype Exchange = Exchange(
    keys: Option<KeyPair>,
    message: JsString,
    signature: JsString,
    receivedMessage: JsString,
    verificationResult: Option<bool>,
    stage: int)

  /** How many hex characters of each key are displayed. */
  const KeyDisplayLength := 32

  /** The code unit `tamper` appends: a space. */
  const Space: CodeUnit := 0x20

  function Initial(): (r: Exchange)
    ensures r.keys.None? && r.signature == [] && r.receivedMessage == [] && r.verificationResult.None?
    ensures r.stage == 0
  {
    Exchange(None, Str("Transfer 1.5 BTC to Bob"), [], [], None, 0)
  }

  /** `handleGenKeys`: on success the keys are stored and the stage becomes 1. */
  function HandleGenKeys(s: Exchange, generated: Result<GeneratedKeys, CryptoError>): (r: Exchange)
    ensures generated.Failure? ==> r == s
    ensures generated.Success? ==>
              r == s.(keys := Some(GenerateKeyPair(generated).value), stage := 1)
  {
    match GenerateKeyPair(generated)
    case Failure(_) => s
    case Success(k) => s.(keys := Some(k), stage := 1)
  }

  /** `handleSign` as written: nothing without keys or when signing is
      rejected; otherwise the signature of the current message, which Bob
      receives unchanged, and stage 2. Bob's previous verdict stays on
      screen. */
  function HandleSignAsWritten(crypto: SubtleCrypto, s: Exchange): (r: Exchange)
    ensures s.keys.None? ==> r == s
    ensures s.keys.Some? && SignMessage(crypto, s.message, s.keys.value.privateKey).Failure? ==> r == s
    ensures s.keys.Some? && SignMessage(crypto, s.message, s.keys.value.privateKey).Success? ==>
              && r.signature == SignMessage(crypto, s.message, s.keys.value.privateKey).value
              && |r.signature| == 128
              && r.receivedMessage == s.message && r.message == s.message
              && r.stage == 2 && r.keys == s.keys && r.verificationResult == s.verificationResult
  {
    match s.keys
    case None => s
    case Some(k) =>
      match SignMessage(crypto, s.message, k.privateKey)
      case Failure(_) => s
      case Success(sig) => s.(signature := sig, receivedMessage := s.message, stage := 2)
  }

  /** `handleSign` as intended: as written, except that a new signature also
      clears Bob's verdict, as `tamper` does for a new message. */
  function HandleSign(crypto: SubtleCrypto, s: Exchange): (r: Exchange)
    ensures s.keys.None? ==> r == s
    ensures s.keys.Some? && SignMessage(crypto, s.message, s.keys.value.privateKey).Failure? ==> r == s
    ensures s.keys.Some? && SignMessage(crypto, s.message, s.keys.value.privateKey).Success? ==>
              && r.signature == SignMessage(crypto, s.message, s.keys.value.privateKey).value
              && |r.signature| == 128
              && r.receivedMessage == s.message && r.message == s.message
              && r.stage == 2 && r.keys == s.keys && r.verificationResult.None?
  {
    match s.keys
    case None => s
    case Some(k) =>
      match SignMessage(crypto, s.message, k.privateKey)
      case Failure(_) => s
      case Success(sig) => s.(signature := sig, receivedMessage := s.message, stage := 2, verificationResult := None)
  }

  /** `handleVerify`: nothing without keys or a signature; otherwise the
      verdict on the received message against the signature. */
  function HandleVerify(crypto: SubtleCrypto, s: Exchange): (r: Exchange)
    ensures s.keys.None? || s.signature == [] ==> r == s
    ensures s.keys.Some? && s.signature != [] ==>
              && r == s.(verificationResult := r.verificationResult)
              && r.verificationResult.Some?
              && (r.verificationResult.value <==>
                    crypto.verify(s.keys.value.publicKey, HexToBuffer(s.signature), Utf8Encode(s.receivedMessage)) == Success(true))
  {
    if s.keys.None? || s.signature == [] then s
    else s.(verificationResult := Some(VerifySignature(crypto, s.receivedMessage, s.signature, s.keys.value.publicKey)))
  }

  /** `tamper`: one space more in what Bob received, and no verdict. */
  function Tamper(s: Exchange): (r: Exchange)
    ensures |r.receivedMessage| == |s.receivedMessage| + 1
    ensures r.receivedMessage[..|s.receivedMessage|] == s.receivedMessage
    ensures r.receivedMessage[|s.receivedMessage|] == Space
    ensures r.verificationResult.None?
    ensures r == s.(receivedMessage := r.receivedMessage, verificationResult := None)
  {
    s.(receivedMessage := s.receivedMessage + [Space], verificationResult := None)
  }

  /** Editing Alice's message discards her signature. */
  function EditMessage(s: Exchange, m: JsString): (r: Exchange)
    ensures r.message == m && r.signature == []
    ensures r == s.(message := m, signature := [])
  {
    s.(message := m, signature := [])
  }

  /** "Clear Result". */
  function ClearResult(s: Exchange): (r: Exchange)
    ensures r.verificationResult.None? && r == s.(verificationResult := None)
  {
    s.(verificationResult := None)
  }

  /** `reset`: stage, keys, signature and verdict are cleared; both messages
      stay as they are. */
  function Reset(s: Exchange): (r: Exchange)
    ensures r.stage == 0 && r.keys.None? && r.signature == [] && r.verificationResult.None?
    ensures r.message == s.message && r.receivedMessage == s.receivedMessage
  {
    s.(stage := 0, keys := None, signature := [], verificationResult := None)
  }

  // ---- what is on screen ----

  /** The received message is highlighted as tampered. */
  predicate TamperedHighlight(s: Exchange) { s.receivedMessage != s.message }

  /** The "Sign Message" button is there until a signature is. */
  predicate SignButtonShown(s: Exchange) { s.signature == [] }

  /** The key panels: the first 32 hex characters of each key, once there. */
  function KeyShown(s: Exchange): (r: Option<(JsString, JsString)>)
    ensures r.Some? <==> s.keys.Some?
    ensures r.Some? ==> r.value.0 <= s.keys.value.privateKeyHex && |r.value.0| <= KeyDisplayLength
    ensures r.Some? ==> r.value.1 <= s.keys.value.publicKeyHex && |r.value.1| <= KeyDisplayLength
  {
    match s.keys
    case None => None
    case Some(k) => Some((Prefix(k.privateKeyHex, KeyDisplayLength), Prefix(k.publicKeyHex, KeyDisplayLength)))
  }

  // ---- the exchange, end to end ----

  /** Signed and verified untouched, the message is accepted. */
  lemma SignThenVerifyAccepts(crypto: SubtleCrypto, s: Exchange)
    requires s.keys.Some? && Correct(crypto, s.keys.value)
    requires SignMessage(crypto, s.message, s.keys.value.privateKey).Success?
    ensures HandleVerify(crypto, HandleSign(crypto, s)).verificationResult == Some(true)
    ensures !TamperedHighlight(HandleSign(crypto, s))
  {
    SignThenVerify(crypto, s.keys.value, s.message);
  }

  /** Tampered once after signing, the message is rejected and highlighted. */
  lemma TamperThenVerifyRejects(crypto: SubtleCrypto, s: Exchange)
    requires s.keys.Some? && Binding(crypto, s.keys.value)
    requires SignMessage(crypto, s.message, s.keys.value.privateKey).Success?
    ensures HandleVerify(crypto, Tamper(HandleSign(crypto, s))).verificationResult == Some(false)
    ensures TamperedHighlight(Tamper(HandleSign(crypto, s)))
  {
    var signed := HandleSign(crypto, s);
    var tampered := Tamper(signed);
    AppendAscii(s.message, Space);
    assert tampered.receivedMessage == s.message + [Space];
    assert |Utf8Encode(tampered.receivedMessage)| == |Utf8Encode(s.message)| + 1;
    VerifyRejectsOtherMessage(crypto, s.keys.value, s.message, tampered.receivedMessage);
    assert |tampered.receivedMessage| != |s.message|;
  }

  /** A verdict shown next to a signature is the verdict on what Bob holds
      now: the received message against the current signature and key. */
  predicate VerdictCurrent(crypto: SubtleCrypto, s: Exchange)
  {
    s.verificationResult.Some? && s.signature != [] ==>
      s.keys.Some? && s.verificationResult.value == VerifySignature(crypto, s.receivedMessage, s.signature, s.keys.value.publicKey)
  }

  /** With the handler as written, the verdict can go stale: sign, tamper,
      verify (rejected), edit the message and sign again, and Bob's panel
      still says "Tampered / Fake" beside an untampered message whose
      signature verifies. Of ECDSA only two facts about these very messages
      are needed: the first signature does not verify the message with a
      space appended, and the second verifies the edited message. */
  lemma StaleVerdictAfterResign(crypto: SubtleCrypto, s: Exchange, edited: JsString)
    requires s.keys.Some?
    requires SignMessage(crypto, s.message, s.keys.value.privateKey).Success?
    requires SignMessage(crypto, edited, s.keys.value.privateKey).Success?
    requires crypto.verify(s.keys.value.publicKey,
                           crypto.sign(s.keys.value.privateKey, Utf8Encode(s.message)).value,
                           Utf8Encode(s.message + [Space])) != Success(true)
    requires crypto.verify(s.keys.value.publicKey,
                           crypto.sign(s.keys.value.privateKey, Utf8Encode(edited)).value,
                           Utf8Encode(edited)) == Success(true)
    ensures var after := HandleSignAsWritten(crypto, EditMessage(HandleVerify(crypto, Tamper(HandleSignAsWritten(crypto, s))), edited));
            && after.verificationResult == Some(false)
            && after.signature != []
            && !TamperedHighlight(after)
            && VerifySignature(crypto, after.receivedMessage, after.signature, s.keys.value.publicKey)
            && !VerdictCurrent(crypto, after)
  {
    var signed := HandleSignAsWritten(crypto, s);
    var tampered := Tamper(signed);
    assert tampered.receivedMessage == s.message + [Space];
    var verified := HandleVerify(crypto, tampered);
    assert verified.verificationResult == Some(false);
    var typed := EditMessage(verified, edited);
    assert typed.keys == s.keys;
  }

  /** The intended handler leaves nothing stale on the same clicks: the new
      signature comes with no verdict. */
  lemma ResignClearsVerdict(crypto: SubtleCrypto, s: Exchange, edited: JsString)
    requires s.keys.Some?
    requires SignMessage(crypto, s.message, s.keys.value.privateKey).Success?
    requires SignMessage(crypto, edited, s.keys.value.privateKey).Success?
    ensures HandleSign(crypto, EditMessage(HandleVerify(crypto, Tamper(HandleSign(crypto, s))), edited)).verificationResult.None?
  {
    var typed := EditMessage(HandleVerify(crypto, Tamper(HandleSign(crypto, s))), edited);
    assert typed.keys == s.keys && typed.message == edited;
  }

  /** What holds in every state: nothing but the message before keys exist,
      a stored signature comes with keys and is a whole 128-character hex
      signature, and the verdict is current. */
  predicate Valid(crypto: SubtleCrypto, s: Exchange)
  {
    WellFormed(s) && VerdictCurrent(crypto, s)
  }

  /** The part of `Valid` that the program as written also keeps: nothing
      but the message before keys exist, and a stored signature comes with
      keys and is a whole 128-character hex signature. */
  predicate WellFormed(s: Exchange)
  {
    && 0 <= s.stage <= 2
    && (s.stage == 0 ==> s.keys.None? && s.signature == [])
    && (s.signature != [] ==> s.keys.Some? && |s.signature| == 128 && IsLowerHex(s.signature))
  }

  datatype ExchangeEvent =
    | GenKeys(generated: Result<GeneratedKeys, CryptoError>)
    | Sign | Verify | TamperClick | Typed(m: JsString) | Clear | ResetClick

  /** "Generate Keys" is only on screen at stage 0; every other handler is
      taken as callable at any time. */
  predicate Enabled(s: Exchange, e: ExchangeEvent)
  {
    e.GenKeys? ==> s.stage == 0
  }

  /** One event, with the corrected `HandleSign`. */
  function Step(crypto: SubtleCrypto, s: Exchange, e: ExchangeEvent): Exchange
  {
    match e
    case GenKeys(g) => HandleGenKeys(s, g)
    case Sign => HandleSign(crypto, s)
    case Verify => HandleVerify(crypto, s)
    case TamperClick => Tamper(s)
    case Typed(m) => EditMessage(s, m)
    case Clear => ClearResult(s)
    case ResetClick => Reset(s)
  }

  function Run(crypto: SubtleCrypto, s: Exchange, events: seq<ExchangeEvent>): Exchange
    decreases |events|
  {
    if events == [] || !Enabled(s, events[0]) then s
    else Run(crypto, Step(crypto, s, events[0]), events[1..])
  }

  lemma StepValid(crypto: SubtleCrypto, s: Exchange, e: ExchangeEvent)
    requires Valid(crypto, s) && Enabled(s, e)
    ensures Valid(crypto, Step(crypto, s, e))
  {
    match e
    case GenKeys(g) =>
    case Sign =>
    case Verify =>
    case TamperClick =>
    case Typed(m) =>
    case Clear =>
    case ResetClick =>
  }

  /** With the corrected `HandleSign`, whatever the handlers are called in,
      the state stays valid, the verdict included. */
  lemma {:induction false} RunValid(crypto: SubtleCrypto, s: Exchange, events: seq<ExchangeEvent>)
    requires Valid(crypto, s)
    ensures Valid(crypto, Run(crypto, s, events))
    decreases |events|
  {
    if events != [] && Enabled(s, events[0]) {
      StepValid(crypto, s, events[0]);
      RunValid(crypto, Step(crypto, s, events[0]), events[1..]);
    }
  }

  /** One event, with `handleSign` as written. */
  function StepAsWritten(crypto: SubtleCrypto, s: Exchange, e: ExchangeEvent): Exchange
  {
    match e
    case Sign => HandleSignAsWritten(crypto, s)
    case _ => Step(crypto, s, e)
  }

  function RunAsWritten(crypto: SubtleCrypto, s: Exchange, events: seq<ExchangeEvent>): Exchange
    decreases |events|
  {
    if events == [] || !Enabled(s, events[0]) then s
    else RunAsWritten(crypto, StepAsWritten(crypto, s, events[0]), events[1..])
  }

  lemma StepAsWrittenWellFormed(crypto: SubtleCrypto, s: Exchange, e: ExchangeEvent)
    requires WellFormed(s) && Enabled(s, e)
    ensures WellFormed(StepAsWritten(crypto, s, e))
  {
    match e
    case GenKeys(g) =>
    case Sign =>
    case Verify =>
    case TamperClick =>
    case Typed(m) =>
    case Clear =>
    case ResetClick =>
  }

  /** As written, every reachable state is well formed; the verdict is not
      covered, since `StaleVerdictAfterResign` shows it can go stale. */
  lemma {:induction false} RunAsWrittenWellFormed(crypto: SubtleCrypto, s: Exchange, events: seq<ExchangeEvent>)
    requires WellFormed(s)
    ensures WellFormed(RunAsWritten(crypto, s, events))
    decreases |events|
  {
    if events != [] && Enabled(s, events[0]) {
      StepAsWrittenWellFormed(crypto, s, events[0]);
      RunAsWrittenWellFormed(crypto, StepAsWritten(crypto, s, events[0]), events[1..]);
    }
  }
}
