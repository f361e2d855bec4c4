/** `EncryptionFlow`: Alice signs and encrypts a document for Bob in six
    steps (0 setup, 1 sign, 2 encrypt, 3 transmit, 4 decrypt, 5 verify),
    once both have generated a key pair. */
module EncryptionFlow {
  import opened JsCore
  import opened CryptoFacade

  datatype Actor = Alice | Bob

  datatype FlowState = FlowState(aliceKeys: Option<KeyPair>, bobKeys: Option<KeyPair>, step: int)

  /** Number of steps; `nextStep` counts modulo this. */
  const StepCount := 6

  const LastStep := 5

  function Initial(): (r: FlowState)
    ensures r.aliceKeys.None? && r.bobKeys.None? && r.step == 0
  {
    FlowState(None, None, 0)
  }

  /** `ready`: both identities exist. */
  predicate Ready(s: FlowState)
  {
    s.aliceKeys.Some? && s.bobKeys.Some?
  }

  /** `handleGenKeys(actor)`: a rejected key generation leaves the state as
      it is; otherwise only that actor's keys are set. */
  function HandleGenKeys(s: FlowState, actor: Actor, generated: Result<GeneratedKeys, CryptoError>): (r: FlowState)
    ensures generated.Failure? ==> r == s
    ensures generated.Success? ==>
              && r.step == s.step
              && (actor == Alice ==> r.aliceKeys == Some(GenerateKeyPair(generated).value) && r.bobKeys == s.bobKeys)
              && (actor == Bob ==> r.bobKeys == Some(GenerateKeyPair(generated).value) && r.aliceKeys == s.aliceKeys)
  {
    match GenerateKeyPair(generated)
    case Failure(_) => s
    case Success(k) =>
      if actor == Alice then s.(aliceKeys := Some(k)) else s.(bobKeys := Some(k))
  }

  /** `nextStep`: the step advances by one, from 5 back round to 0. */
  function NextStep(s: FlowState): (r: FlowState)
    requires 0 <= s.step <= LastStep
    ensures 0 <= r.step <= LastStep
    ensures s.step < LastStep ==> r.step == s.step + 1
    ensures s.step == LastStep ==> r.step == 0
    ensures r.aliceKeys == s.aliceKeys && r.bobKeys == s.bobKeys
  {
    s.(step := (s.step + 1) % StepCount)
  }

  /** `reset`: back to the setup step, keys kept. */
  function Reset(s: FlowState): (r: FlowState)
    ensures r.step == 0 && r.aliceKeys == s.aliceKeys && r.bobKeys == s.bobKeys
  {
    s.(step := 0)
  }

  // ---- what is on screen ----

  /** The control under the diagram. */
  datatype Control = InitializationHint | NextPhase | ResetCycle

  function ControlShown(s: FlowState): (c: Control)
    ensures c == NextPhase <==> Ready(s) && s.step < LastStep
    ensures c == ResetCycle <==> Ready(s) && s.step >= LastStep
    ensures c == InitializationHint <==> !Ready(s)
  {
    if !Ready(s) then InitializationHint
    else if s.step < LastStep then NextPhase
    else ResetCycle
  }

  /** The "Create Identity" button of an actor is there until its keys are. */
  predicate CreateIdentityShown(s: FlowState, actor: Actor)
  {
    if actor == Alice then s.aliceKeys.None? else s.bobKeys.None?
  }

  predicate AliceActive(step: int) { step <= 2 }

  predicate BobActive(step: int) { step == 0 || step >= 3 }

  /** Step label `idx` (0 Sign .. 4 Verify) is highlighted. */
  predicate LabelActive(step: int, idx: int) { step == idx + 1 }

  predicate LockShown(step: int) { 2 <= step <= 4 }

  predicate DocumentShown(step: int) { !(2 <= step <= 4) }

  predicate SealShown(step: int) { step >= 1 }

  predicate SealLabelShown(step: int) { step == 1 }

  predicate OriginVerifiedShown(step: int) { step == 5 }

  /** The two panels: at every step at least one actor is active, and both
      exactly at the setup step. */
  lemma ActorPanels(step: int)
    requires 0 <= step <= LastStep
    ensures AliceActive(step) || BobActive(step)
    ensures AliceActive(step) && BobActive(step) <==> step == 0
  {
  }

  /** The five labels: none is highlighted at setup, and at every later step
      exactly the label of that step is. */
  lemma LabelHighlight(step: int)
    requires 0 <= step <= LastStep
    ensures step == 0 ==> forall idx :: 0 <= idx < 5 ==> !LabelActive(step, idx)
    ensures step > 0 ==> LabelActive(step, step - 1)
    ensures forall i, j :: 0 <= i < 5 && 0 <= j < 5 && LabelActive(step, i) && LabelActive(step, j) ==> i == j
  {
  }

  /** The payload: the sealed document is shown while it is unlocked, the lock
      while it travels encrypted, never both; the seal from step 1 on and the
      "Origin Verified" badge at the last step. */
  lemma PayloadDisplay(step: int)
    requires 0 <= step <= LastStep
    ensures LockShown(step) != DocumentShown(step)
    ensures OriginVerifiedShown(step) ==> SealShown(step) && DocumentShown(step)
    ensures SealLabelShown(step) ==> SealShown(step) && !LockShown(step)
  {
  }

  // ---- runs ----

  /** A click on a control that is on screen, or a finished key generation. */
  datatype FlowEvent = GenKeys(actor: Actor, generated: Result<GeneratedKeys, CryptoError>) | Next | ResetClick

  /** The buttons the user can press: "Create Identity" while it is shown,
      "Next Phase" and "Reset Cycle" while they are the control shown. */
  predicate Enabled(s: FlowState, e: FlowEvent)
  {
    match e
    case GenKeys(actor, _) => CreateIdentityShown(s, actor)
    case Next => ControlShown(s) == NextPhase
    case ResetClick => ControlShown(s) == ResetCycle
  }

  function Step(s: FlowState, e: FlowEvent): FlowState
    requires 0 <= s.step <= LastStep
  {
    match e
    case GenKeys(actor, g) => HandleGenKeys(s, actor, g)
    case Next => NextStep(s)
    case ResetClick => Reset(s)
  }

  /** What every reachable state satisfies: the step is in range, and the
      walk past setup happens only with both identities present. */
  predicate Valid(s: FlowState)
  {
    0 <= s.step <= LastStep && (s.step > 0 ==> Ready(s))
  }

  /** Every enabled click keeps the state valid; "Next Phase" never wraps,
      since at the last step only "Reset Cycle" is offered. */
  lemma StepKeepsValid(s: FlowState, e: FlowEvent)
    requires Valid(s) && Enabled(s, e)
    ensures Valid(Step(s, e))
    ensures e.Next? ==> Step(s, e).step == s.step + 1
    ensures e.ResetClick? ==> s.step == LastStep
  {
  }

  function Run(s: FlowState, events: seq<FlowEvent>): FlowState
    requires Valid(s)
    decreases |events|
  {
    if events == [] then s
    else if !Enabled(s, events[0]) then s
    else
      StepKeepsValid(s, events[0]);
      Run(Step(s, events[0]), events[1..])
  }

  /** Every state reachable from the initial one by clicks on visible controls
      is valid. */
  lemma {:induction false} RunValid(s: FlowState, events: seq<FlowEvent>)
    requires Valid(s)
    ensures Valid(Run(s, events))
    decreases |events|
  {
    if events != [] && Enabled(s, events[0]) {
      StepKeepsValid(s, events[0]);
      RunValid(Step(s, events[0]), events[1..]);
    }
  }
}
