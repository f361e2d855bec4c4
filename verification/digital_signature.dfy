/** `DigitalSignatureVisualizer`: a walk-through of signing in stages
    (0 idle, 1 hashing, 2 key fetch, 3 signing, 4 complete), with the
    digest, key and signature computed up front when the walk starts. */
module DigitalSignature {
  import opened JsCore
  import opened Hex
  import opened TextEncoding
  import opened CryptoFacade

  /** `simData`: what the walk-through displays. */
  datatype SimData = SimData(hash: JsString, privKey: JsString, signature: JsString)

  datatype SignatureWalk = SignatureWalk(message: JsString, stage: int, simData: SimData)

  const FinalStage := 4

  /** How many characters of the signature the last stage shows. */
  const SignatureDisplayLength := 128

  function Initial(): (r: SignatureWalk)
    ensures r.stage == 0 && r.simData == SimData([], [], [])
  {
    SignatureWalk(Str("Pay Alice $100"), 0, SimData([], [], []))
  }

  /** `startSimulation`: a fresh key pair, the digest of the message and its
      signature, then stage 1. A rejected key generation or signature
      leaves the state as it is. */
  function StartSimulation(crypto: SubtleCrypto, s: SignatureWalk, generated: Result<GeneratedKeys, CryptoError>)
    : (r: SignatureWalk)
    ensures r.message == s.message
    ensures r == s || r.stage == 1
    ensures generated.Failure? ==> r == s
    ensures generated.Success? ==>
              var k := GenerateKeyPair(generated).value;
              (SignMessage(crypto, s.message, k.privateKey).Failure? ==> r == s)
              && (SignMessage(crypto, s.message, k.privateKey).Success? ==>
                    && r.stage == 1
                    && r.simData.hash == Sha256(crypto, s.message)
                    && r.simData.privKey == k.privateKeyHex
                    && r.simData.signature == SignMessage(crypto, s.message, k.privateKey).value)
  {
    match GenerateKeyPair(generated)
    case Failure(_) => s
    case Success(k) =>
      match SignMessage(crypto, s.message, k.privateKey)
      case Failure(_) => s
      case Success(sig) =>
        s.(stage := 1, simData := SimData(Sha256(crypto, s.message), k.privateKeyHex, sig))
  }

  /** `nextStep`: one stage further, stopping at the last. */
  function NextStep(s: SignatureWalk): (r: SignatureWalk)
    ensures s.stage < FinalStage ==> r.stage == s.stage + 1
    ensures s.stage >= FinalStage ==> r.stage == FinalStage
    ensures r.message == s.message && r.simData == s.simData
  {
    s.(stage := Min(FinalStage, s.stage + 1))
  }

  /** `reset`: back to idle; the computed data stays. */
  function Reset(s: SignatureWalk): (r: SignatureWalk)
    ensures r.stage == 0 && r.message == s.message && r.simData == s.simData
  {
    s.(stage := 0)
  }

  /** Typing into the message, which is only enabled while idle: the new
      message, and a reset. */
  function EditMessage(s: SignatureWalk, m: JsString): (r: SignatureWalk)
    requires MessageEditable(s)
    ensures r.message == m && r.stage == 0 && r.simData == s.simData
  {
    Reset(s.(message := m))
  }

  predicate MessageEditable(s: SignatureWalk) { s.stage <= 0 }

  /** The control: Start while idle, Next Step in between, Reset at the end. */
  datatype Control = Start | NextStepButton | ResetButton

  function ControlShown(s: SignatureWalk): (c: Control)
    ensures c == Start <==> s.stage == 0
    ensures c == ResetButton <==> s.stage != 0 && s.stage >= FinalStage
  {
    if s.stage == 0 then Start else if s.stage < FinalStage then NextStepButton else ResetButton
  }

  /** The signature panel: only at the last stage, cut to 128 characters. */
  function SignatureShown(s: SignatureWalk): (r: Option<JsString>)
    ensures r.Some? <==> s.stage == FinalStage
    ensures r.Some? ==> |r.value| <= SignatureDisplayLength && r.value <= s.simData.signature
  {
    if s.stage == FinalStage then Some(Prefix(s.simData.signature, SignatureDisplayLength)) else None
  }

  /** Nothing is cut: a signature is 128 hex characters, so the panel shows
      all of it. */
  lemma SignatureShownWhole(crypto: SubtleCrypto, s: SignatureWalk, generated: Result<GeneratedKeys, CryptoError>)
    requires StartSimulation(crypto, s, generated).stage == 1 && s.stage != 1
    ensures SignatureShown(NextStep(NextStep(NextStep(StartSimulation(crypto, s, generated))))).value
            == StartSimulation(crypto, s, generated).simData.signature
  {
    var r := StartSimulation(crypto, s, generated);
    assert |r.simData.signature| == SignatureDisplayLength;
  }

  /** The stored digest and signature belong to the same message: with a
      correct key pair the signature verifies against that message under
      the generated public key. */
  lemma SimulationConsistent(crypto: SubtleCrypto, s: SignatureWalk, generated: Result<GeneratedKeys, CryptoError>)
    requires generated.Success?
    requires Correct(crypto, GenerateKeyPair(generated).value)
    requires StartSimulation(crypto, s, generated).stage == 1 && s.stage != 1
    ensures var r := StartSimulation(crypto, s, generated);
            && HexToBuffer(r.simData.hash) == crypto.digest(Utf8Encode(s.message))
            && VerifySignature(crypto, s.message, r.simData.signature, GenerateKeyPair(generated).value.publicKey)
  {
    var k := GenerateKeyPair(generated).value;
    SignThenVerify(crypto, k, s.message);
  }

  // ---- runs ----

  datatype WalkEvent = StartClick(generated: Result<GeneratedKeys, CryptoError>) | NextClick | ResetClick | Typed(m: JsString)

  /** The clicks the screen offers: the one control shown, and typing while
      idle. */
  predicate Enabled(s: SignatureWalk, e: WalkEvent)
  {
    match e
    case StartClick(_) => ControlShown(s) == Start
    case NextClick => ControlShown(s) == NextStepButton
    case ResetClick => ControlShown(s) == ResetButton
    case Typed(_) => MessageEditable(s)
  }

  function Step(crypto: SubtleCrypto, s: SignatureWalk, e: WalkEvent): SignatureWalk
    requires Enabled(s, e)
  {
    match e
    case StartClick(g) => StartSimulation(crypto, s, g)
    case NextClick => NextStep(s)
    case ResetClick => Reset(s)
    case Typed(m) => EditMessage(s, m)
  }

  function Run(crypto: SubtleCrypto, s: SignatureWalk, events: seq<WalkEvent>): SignatureWalk
    decreases |events|
  {
    if events == [] || !Enabled(s, events[0]) then s
    else Run(crypto, Step(crypto, s, events[0]), events[1..])
  }

  /** The stage stays in 0..4, and past idle the digest on screen is that of
      the message shown (the message cannot be edited there) and a whole
      signature is stored. */
  predicate Valid(crypto: SubtleCrypto, s: SignatureWalk)
  {
    && 0 <= s.stage <= FinalStage
    && (s.stage > 0 ==> s.simData.hash == Sha256(crypto, s.message) && |s.simData.signature| == SignatureDisplayLength)
  }

  lemma {:induction false} RunValid(crypto: SubtleCrypto, s: SignatureWalk, events: seq<WalkEvent>)
    requires Valid(crypto, s)
    ensures Valid(crypto, Run(crypto, s, events))
    decreases |events|
  {
    if events != [] && Enabled(s, events[0]) {
      RunValid(crypto, Step(crypto, s, events[0]), events[1..]);
    }
  }
}
