/** `TransactionFlow`: Alice creates a wallet (step 2), signs a transaction
    (step 3), and Bob verifies the transaction text currently on screen
    against her signature. */
module TransactionFlow {
  import opened JsCore
  import opened Hex
  import opened TextEncoding
  import opened CryptoFacade

  datatype Transaction = Transaction(
    aliceKeys: Option<KeyPair>,
    message: JsString,
    signature: Option<JsString>,
    isSigning: bool,
    verifyResult: Option<bool>,
    step: int)

  function Initial(): (r: Transaction)
    ensures r.aliceKeys.None? && r.signature.None? && r.verifyResult.None? && !r.isSigning
    ensures r.step == 1
  {
    Transaction(None, Str("Pay Bob 50 BTC"), None, false, None, 1)
  }

  /** `handleGenKeys`: a new wallet, no signature, no verdict, step 2. */
  function HandleGenKeys(s: Transaction, generated: Result<GeneratedKeys, CryptoError>): (r: Transaction)
    ensures generated.Failure? ==> r == s
    ensures generated.Success? ==>
              && r.aliceKeys == Some(GenerateKeyPair(generated).value)
              && r.signature.None? && r.verifyResult.None? && r.step == 2
              && r.message == s.message && r.isSigning == s.isSigning
  {
    match GenerateKeyPair(generated)
    case Failure(_) => s
    case Success(k) => s.(aliceKeys := Some(k), signature := None, verifyResult := None, step := 2)
  }

  /** `handleSign`, with its delayed part taken in the same step: nothing
      without keys; otherwise the signature of the message, signing over,
      step 3. When signing is rejected the "Signing..." flag is never
      lowered. */
  function HandleSign(crypto: SubtleCrypto, s: Transaction): (r: Transaction)
    ensures s.aliceKeys.None? ==> r == s
    ensures s.aliceKeys.Some? && SignMessage(crypto, s.message, s.aliceKeys.value.privateKey).Failure? ==>
              r == s.(isSigning := true)
    ensures s.aliceKeys.Some? && SignMessage(crypto, s.message, s.aliceKeys.value.privateKey).Success? ==>
              && r.signature == Some(SignMessage(crypto, s.message, s.aliceKeys.value.privateKey).value)
              && !r.isSigning && r.step == 3
              && r.aliceKeys == s.aliceKeys && r.message == s.message && r.verifyResult == s.verifyResult
  {
    match s.aliceKeys
    case None => s
    case Some(k) =>
      match SignMessage(crypto, s.message, k.privateKey)
      case Failure(_) => s.(isSigning := true)
      case Success(sig) => s.(signature := Some(sig), isSigning := false, step := 3)
  }

  /** `handleVerify`: nothing without keys or a signature; otherwise the
      verdict on the message as it stands now. */
  function HandleVerify(crypto: SubtleCrypto, s: Transaction): (r: Transaction)
    ensures s.aliceKeys.None? || s.signature.None? ==> r == s
    ensures s.aliceKeys.Some? && s.signature.Some? ==>
              && r == s.(verifyResult := r.verifyResult)
              && r.verifyResult.Some?
              && (r.verifyResult.value <==>
                    crypto.verify(s.aliceKeys.value.publicKey, HexToBuffer(s.signature.value), Utf8Encode(s.message)) == Success(true))
  {
    if s.aliceKeys.None? || s.signature.None? then s
    else s.(verifyResult := Some(VerifySignature(crypto, s.message, s.signature.value, s.aliceKeys.value.publicKey)))
  }

  /** Typing into the transaction: only the text changes; the signature and
      any verdict stay. */
  function EditMessage(s: Transaction, m: JsString): (r: Transaction)
    ensures r.message == m && r == s.(message := m)
  {
    s.(message := m)
  }

  // ---- what is on screen ----

  /** The sign button is disabled while signing and once signed. */
  predicate SignDisabled(s: Transaction) { s.isSigning || s.signature.Some? }

  /** The signing panel takes clicks from step 2 on. */
  predicate SigningPanelEnabled(s: Transaction) { s.step >= 2 }

  /** Bob's panel takes clicks once a signature exists. */
  predicate VerificationPanelEnabled(s: Transaction) { s.signature.Some? }

  // ---- the transaction, end to end ----

  /** Signed and verified as typed: valid. */
  lemma SignThenVerifyValid(crypto: SubtleCrypto, s: Transaction)
    requires s.aliceKeys.Some? && Correct(crypto, s.aliceKeys.value)
    requires SignMessage(crypto, s.message, s.aliceKeys.value.privateKey).Success?
    ensures HandleVerify(crypto, HandleSign(crypto, s)).verifyResult == Some(true)
    ensures SignDisabled(HandleSign(crypto, s)) && VerificationPanelEnabled(HandleSign(crypto, s))
  {
    SignThenVerify(crypto, s.aliceKeys.value, s.message);
  }

  /** Signed, then the transaction edited to anything that encodes
      differently: Bob's check fails against the signature already sent. */
  lemma EditAfterSigningInvalid(crypto: SubtleCrypto, s: Transaction, edited: JsString)
    requires s.aliceKeys.Some? && Binding(crypto, s.aliceKeys.value)
    requires SignMessage(crypto, s.message, s.aliceKeys.value.privateKey).Success?
    requires Utf8Encode(edited) != Utf8Encode(s.message)
    ensures HandleVerify(crypto, EditMessage(HandleSign(crypto, s), edited)).verifyResult == Some(false)
  {
    VerifyRejectsOtherMessage(crypto, s.aliceKeys.value, s.message, edited);
  }

  // ---- runs ----

  datatype TransactionEvent =
    | GenKeys(generated: Result<GeneratedKeys, CryptoError>)
    | Sign | Verify | Typed(m: JsString)

  /** The clicks the screen lets through: the wallet button always, signing
      and typing once the signing panel is live and the button is enabled,
      verifying once Bob's panel is live. */
  predicate Enabled(s: Transaction, e: TransactionEvent)
  {
    match e
    case GenKeys(_) => true
    case Sign => SigningPanelEnabled(s) && !SignDisabled(s)
    case Verify => VerificationPanelEnabled(s)
    case Typed(_) => SigningPanelEnabled(s)
  }

  function Step(crypto: SubtleCrypto, s: Transaction, e: TransactionEvent): Transaction
  {
    match e
    case GenKeys(g) => HandleGenKeys(s, g)
    case Sign => HandleSign(crypto, s)
    case Verify => HandleVerify(crypto, s)
    case Typed(m) => EditMessage(s, m)
  }

  function Run(crypto: SubtleCrypto, s: Transaction, events: seq<TransactionEvent>): Transaction
    decreases |events|
  {
    if events == [] || !Enabled(s, events[0]) then s
    else Run(crypto, Step(crypto, s, events[0]), events[1..])
  }

  /** What every reachable state satisfies: the step is 1..3 and is 1 only
      before a wallet exists; a signature comes with a wallet, step 3 and a
      lowered "Signing..." flag, and is 128 hex characters; a verdict only
      with a signature. */
  predicate Valid(s: Transaction)
  {
    && 1 <= s.step <= 3
    && (s.step == 1 ==> s.aliceKeys.None? && s.signature.None?)
    && (s.signature.Some? ==>
          s.aliceKeys.Some? && s.step == 3 && !s.isSigning
          && |s.signature.value| == 128 && IsLowerHex(s.signature.value))
    && (s.verifyResult.Some? ==> s.signature.Some?)
  }

  lemma StepValid(crypto: SubtleCrypto, s: Transaction, e: TransactionEvent)
    requires Valid(s) && Enabled(s, e)
    ensures Valid(Step(crypto, s, e))
  {
    match e
    case GenKeys(g) =>
    case Sign =>
    case Verify =>
    case Typed(m) =>
  }

  lemma {:induction false} RunValid(crypto: SubtleCrypto, s: Transaction, events: seq<TransactionEvent>)
    requires Valid(s)
    ensures Valid(Run(crypto, s, events))
    decreases |events|
  {
    if events != [] && Enabled(s, events[0]) {
      StepValid(crypto, s, events[0]);
      RunValid(crypto, Step(crypto, s, events[0]), events[1..]);
    }
  }

  /** Once signing has been rejected the flag stays up and nothing is ever
      signed again: no handler lowers it, so the sign button stays
      disabled. */
  lemma {:induction false} RejectedSigningSticks(crypto: SubtleCrypto, s: Transaction, events: seq<TransactionEvent>)
    requires s.isSigning
    ensures Run(crypto, s, events).isSigning
    ensures SignDisabled(Run(crypto, s, events))
    decreases |events|
  {
    if events != [] && Enabled(s, events[0]) {
      RejectedSigningSticks(crypto, Step(crypto, s, events[0]), events[1..]);
    }
  }
}
