/** The curriculum: the eight topics in their reading order, each naming
    the visualizer its page shows. Explanatory prose is not modelled; a key
    point is represented by its leading label. */
module Topics {
  import opened JsCore

  /** The `visualizerType` union, one constructor per string tag. */
  datatype VisualizerType =
    | NoVisualizer | Intro | HashSimple | HashProps | AvalancheView | HashVsEnc
    | SigConcept | PkConcept | SigVsVer | KeysView | SignatureView | BlockchainView

  /** The string each constructor stands for in the source. */
  function Tag(v: VisualizerType): JsString
  {
    match v
    case NoVisualizer => Str("none")
    case Intro => Str("intro")
    case HashSimple => Str("hash-simple")
    case HashProps => Str("hash-props")
    case AvalancheView => Str("avalanche")
    case HashVsEnc => Str("hash-vs-enc")
    case SigConcept => Str("sig-concept")
    case PkConcept => Str("pk-concept")
    case SigVsVer => Str("sig-vs-ver")
    case KeysView => Str("keys")
    case SignatureView => Str("signature")
    case BlockchainView => Str("blockchain")
  }

  /** Reading a tag back: exactly the twelve strings of the union are
      accepted. */
  function ParseTag(t: JsString): (r: Option<VisualizerType>)
    ensures r.Some? ==> Tag(r.value) == t
  {
    if t == Str("none") then Some(NoVisualizer)
    else if t == Str("intro") then Some(Intro)
    else if t == Str("hash-simple") then Some(HashSimple)
    else if t == Str("hash-props") then Some(HashProps)
    else if t == Str("avalanche") then Some(AvalancheView)
    else if t == Str("hash-vs-enc") then Some(HashVsEnc)
    else if t == Str("sig-concept") then Some(SigConcept)
    else if t == Str("pk-concept") then Some(PkConcept)
    else if t == Str("sig-vs-ver") then Some(SigVsVer)
    else if t == Str("keys") then Some(KeysView)
    else if t == Str("signature") then Some(SignatureView)
    else if t == Str("blockchain") then Some(BlockchainView)
    else None
  }

  /** Every constructor's tag parses back to it, so the tags are pairwise
      distinct and the union has twelve members. */
  lemma ParseTagOfTag(v: VisualizerType)
    ensures ParseTag(Tag(v)) == Some(v)
  {
    // Tags of equal length are told apart at their first differing position.
    match v
    case NoVisualizer =>
    case Intro =>
    case HashSimple =>
    case HashProps =>
    case AvalancheView =>
    case HashVsEnc =>
      assert Tag(HashVsEnc)[5] != Tag(HashSimple)[5];
    case SigConcept =>
      assert Tag(SigConcept)[0] != Tag(HashSimple)[0];
      assert Tag(SigConcept)[0] != Tag(HashVsEnc)[0];
    case PkConcept =>
      assert Tag(PkConcept)[0] != Tag(HashProps)[0];
    case SigVsVer =>
      assert Tag(SigVsVer)[0] != Tag(HashProps)[0];
      assert Tag(SigVsVer)[0] != Tag(PkConcept)[0];
    case KeysView =>
      assert Tag(KeysView)[0] != Tag(NoVisualizer)[0];
    case SignatureView =>
      assert Tag(SignatureView)[0] != Tag(AvalancheView)[0];
    case BlockchainView =>
      assert Tag(BlockchainView)[0] != Tag(HashProps)[0];
      assert Tag(BlockchainView)[0] != Tag(PkConcept)[0];
      assert Tag(BlockchainView)[0] != Tag(SigVsVer)[0];
  }

  /** A `Topic` record, without its icon and prose. */
  datatype Topic = Topic(id: JsString, title: JsString, keyPoints: seq<JsString>, visualizerType: VisualizerType)

  // The eight entries of `TOPICS`.
  const IntroTopic: Topic :=
    Topic(Str("intro"), Str("What is Cryptography"),
          [Str("Confidentiality"), Str("Integrity"), Str("Authentication")], Intro)
  const HashingTopic: Topic :=
    Topic(Str("hashing"), Str("Hash Functions"),
          [Str("Deterministic"), Str("Fixed-Size"), Str("Collision Resistant")], HashSimple)
  const HashPropertiesTopic: Topic :=
    Topic(Str("hash-properties"), Str("Properties of Hash Functions"),
          [Str("Unpredictability"), Str("Sensitivity"), Str("Integrity Check")], AvalancheView)
  const HashingVsEncryptionTopic: Topic :=
    Topic(Str("hashing-vs-encryption"), Str("Hashing vs Encryption"),
          [Str("Usage"), Str("The Key"), Str("Reversibility")], HashVsEnc)
  const PublicKeyTopic: Topic :=
    Topic(Str("public-key"), Str("Public Key Cryptography"),
          [Str("Public Key"), Str("Private Key"), Str("The Magic")], PkConcept)
  const DigitalSignaturesTopic: Topic :=
    Topic(Str("digital-signatures"), Str("Digital Signatures"),
          [Str("Non-Repudiation"), Str("Efficiency"), Str("Tamper-Proof")], SigConcept)
  const SigningVsVerificationTopic: Topic :=
    Topic(Str("signing-vs-verification"), Str("Signing vs Verification"),
          [Str("Signing"), Str("Verification"), Str("Final Check")], SigVsVer)
  const BlockchainTopic: Topic :=
    Topic(Str("blockchain"), Str("Why Blockchains Need Cryptography"),
          [Str("Hashed Linking"), Str("Immutability"), Str("Trustless")], BlockchainView)

  /** `TOPICS`, in order. */
  function AllTopics(): (r: seq<Topic>)
    ensures |r| == 8
  {
    [IntroTopic, HashingTopic, HashPropertiesTopic, HashingVsEncryptionTopic,
     PublicKeyTopic, DigitalSignaturesTopic, SigningVsVerificationTopic, BlockchainTopic]
  }

  /** The topic ids in order. */
  function Ids(): (r: seq<JsString>)
    ensures |r| == |AllTopics()|
    ensures forall i :: 0 <= i < |r| ==> r[i] == AllTopics()[i].id
  {
    [Str("intro"), Str("hashing"), Str("hash-properties"), Str("hashing-vs-encryption"),
     Str("public-key"), Str("digital-signatures"), Str("signing-vs-verification"), Str("blockchain")]
  }

  /** No two topics share an id, so a lookup by id finds at most one. */
  lemma IdsDistinct()
    ensures forall i, j :: 0 <= i < |AllTopics()| && 0 <= j < |AllTopics()| && i != j ==>
              AllTopics()[i].id != AllTopics()[j].id
  {
    var ids := Ids();
    forall i, j | 0 <= i < |ids| && 0 <= j < |ids| && i != j
      ensures ids[i] != ids[j]
    {
      // Lengths tell every pair apart but one, which differs in its first letter.
      assert |ids[i]| != |ids[j]| || ids[i][0] != ids[j][0];
    }
  }

  /** Every topic has exactly three key points and a visualizer other than
      `none`, `keys` and `signature`. */
  lemma TopicsWellFormed()
    ensures forall i :: 0 <= i < |AllTopics()| ==>
              |AllTopics()[i].keyPoints| == 3
              && AllTopics()[i].visualizerType !in {NoVisualizer, KeysView, SignatureView}
  {
  }
}
