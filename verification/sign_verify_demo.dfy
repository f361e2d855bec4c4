/** `SignVerifyDemo`: sign a message with a generated key pair, then
    verify a second, editable copy of it against the signature. */
module SignVerifyDemo {
  import opened JsCore
  import opened Hex
  import opened TextEncoding
  import opened CryptoFacade

  datatype Demo = Demo(
    keys: Option<KeyPair>,
    message: JsString,
    signature: Option<JsString>,
    verifyMsg: JsString,
    verificationResult: Option<bool>)

  function Initial(): (r: Demo)
    ensures r.keys.None? && r.signature.None? && r.verificationResult.None?
    ensures r.verifyMsg == r.message
  {
    Demo(None, Str("Pay $500 to Alice"), None, Str("Pay $500 to Alice"), None)
  }

  /** `handleGenerateKeys`: new keys; any signature and verdict are gone. */
  function HandleGenerateKeys(s: Demo, generated: Result<GeneratedKeys, CryptoError>): (r: Demo)
    ensures generated.Failure? ==> r == s
    ensures generated.Success? ==>
              && r.keys == Some(GenerateKeyPair(generated).value)
              && r.signature.None? && r.verificationResult.None?
              && r.message == s.message && r.verifyMsg == s.verifyMsg
  {
    match GenerateKeyPair(generated)
    case Failure(_) => s
    case Success(k) => s.(keys := Some(k), signature := None, verificationResult := None)
  }

  /** `handleSign`: nothing without keys or when signing is rejected;
      otherwise the signature of the message, a verification copy equal to
      it, and no verdict. */
  function HandleSign(crypto: SubtleCrypto, s: Demo): (r: Demo)
    ensures s.keys.None? ==> r == s
    ensures s.keys.Some? && SignMessage(crypto, s.message, s.keys.value.privateKey).Failure? ==> r == s
    ensures s.keys.Some? && SignMessage(crypto, s.message, s.keys.value.privateKey).Success? ==>
              && r.signature == Some(SignMessage(crypto, s.message, s.keys.value.privateKey).value)
              && r.verifyMsg == s.message && r.message == s.message
              && r.verificationResult.None? && r.keys == s.keys
  {
    match s.keys
    case None => s
    case Some(k) =>
      match SignMessage(crypto, s.message, k.privateKey)
      case Failure(_) => s
      case Success(sig) => s.(signature := Some(sig), verifyMsg := s.message, verificationResult := None)
  }

  /** `handleVerify`: nothing without keys or a signature; otherwise the
      verdict on the verification copy. */
  function HandleVerify(crypto: SubtleCrypto, s: Demo): (r: Demo)
    ensures s.keys.None? || s.signature.None? ==> r == s
    ensures s.keys.Some? && s.signature.Some? ==>
              && r == s.(verificationResult := r.verificationResult)
              && r.verificationResult.Some?
              && (r.verificationResult.value <==>
                    crypto.verify(s.keys.value.publicKey, HexToBuffer(s.signature.value), Utf8Encode(s.verifyMsg)) == Success(true))
  {
    if s.keys.None? || s.signature.None? then s
    else s.(verificationResult := Some(VerifySignature(crypto, s.verifyMsg, s.signature.value, s.keys.value.publicKey)))
  }

  /** Editing the message discards both the signature and the verdict. */
  function EditMessage(s: Demo, m: JsString): (r: Demo)
    ensures r.message == m && r.signature.None? && r.verificationResult.None?
    ensures r.keys == s.keys && r.verifyMsg == s.verifyMsg
  {
    s.(message := m, signature := None, verificationResult := None)
  }

  /** Editing the verification copy discards only the verdict. */
  function EditVerifyMsg(s: Demo, m: JsString): (r: Demo)
    ensures r.verifyMsg == m && r.verificationResult.None?
    ensures r.keys == s.keys && r.message == s.message && r.signature == s.signature
  {
    s.(verifyMsg := m, verificationResult := None)
  }

  // ---- what is on screen ----

  predicate TamperedBadge(s: Demo) { s.verifyMsg != s.message }

  function GenerateButtonLabel(s: Demo): (text: JsString)
    ensures text == Str("Regenerate Keys") <==> s.keys.Some?
  {
    if s.keys.Some? then Str("Regenerate Keys") else Str("Generate Key Pair")
  }

  function VerifyButtonLabel(s: Demo): (text: JsString)
    ensures text == Str("Verify Signature") <==> s.verificationResult.None?
  {
    if s.verificationResult.None? then Str("Verify Signature") else Str("Verify Again")
  }

  // ---- end to end ----

  /** The verdict on screen is never stale: whenever one is shown, keys and
      a signature exist and it is exactly what verifying the current copy
      against the current signature gives. */
  predicate VerdictCurrent(crypto: SubtleCrypto, s: Demo)
  {
    s.verificationResult.Some? ==>
      && s.signature.Some? && s.keys.Some?
      && s.verificationResult.value == VerifySignature(crypto, s.verifyMsg, s.signature.value, s.keys.value.publicKey)
  }

  datatype DemoEvent =
    | GenKeys(generated: Result<GeneratedKeys, CryptoError>)
    | Sign | Verify | TypedMessage(m: JsString) | TypedVerifyMsg(v: JsString)

  function Step(crypto: SubtleCrypto, s: Demo, e: DemoEvent): Demo
  {
    match e
    case GenKeys(g) => HandleGenerateKeys(s, g)
    case Sign => HandleSign(crypto, s)
    case Verify => HandleVerify(crypto, s)
    case TypedMessage(m) => EditMessage(s, m)
    case TypedVerifyMsg(v) => EditVerifyMsg(s, v)
  }

  function Run(crypto: SubtleCrypto, s: Demo, events: seq<DemoEvent>): Demo
    decreases |events|
  {
    if events == [] then s else Run(crypto, Step(crypto, s, events[0]), events[1..])
  }

  /** Each handler keeps the verdict current: every one that changes the
      keys, the signature or the copy also clears the verdict. */
  lemma StepKeepsVerdictCurrent(crypto: SubtleCrypto, s: Demo, e: DemoEvent)
    requires VerdictCurrent(crypto, s)
    ensures VerdictCurrent(crypto, Step(crypto, s, e))
  {
    match e
    case GenKeys(g) =>
    case Sign =>
    case Verify =>
    case TypedMessage(m) =>
    case TypedVerifyMsg(v) =>
  }

  /** Every handler keeps the verdict current, in any order. */
  lemma {:induction false} RunKeepsVerdictCurrent(crypto: SubtleCrypto, s: Demo, events: seq<DemoEvent>)
    requires VerdictCurrent(crypto, s)
    ensures VerdictCurrent(crypto, Run(crypto, s, events))
    decreases |events|
  {
    if events != [] {
      StepKeepsVerdictCurrent(crypto, s, events[0]);
      RunKeepsVerdictCurrent(crypto, Step(crypto, s, events[0]), events[1..]);
    }
  }

  /** Signed, then verified as is: VALID, and no TAMPERED badge. */
  lemma SignThenVerifyValid(crypto: SubtleCrypto, s: Demo)
    requires s.keys.Some? && Correct(crypto, s.keys.value)
    requires SignMessage(crypto, s.message, s.keys.value.privateKey).Success?
    ensures HandleVerify(crypto, HandleSign(crypto, s)).verificationResult == Some(true)
    ensures !TamperedBadge(HandleSign(crypto, s))
  {
    SignThenVerify(crypto, s.keys.value, s.message);
  }

  /** Signed, then the copy edited to anything that encodes differently:
      INVALID, and the TAMPERED badge is up. */
  lemma EditedCopyInvalid(crypto: SubtleCrypto, s: Demo, edited: JsString)
    requires s.keys.Some? && Binding(crypto, s.keys.value)
    requires SignMessage(crypto, s.message, s.keys.value.privateKey).Success?
    requires Utf8Encode(edited) != Utf8Encode(s.message)
    ensures HandleVerify(crypto, EditVerifyMsg(HandleSign(crypto, s), edited)).verificationResult == Some(false)
    ensures TamperedBadge(EditVerifyMsg(HandleSign(crypto, s), edited))
  {
    VerifyRejectsOtherMessage(crypto, s.keys.value, s.message, edited);
  }
}
