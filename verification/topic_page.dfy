/** `TopicPage`: the page behind `/learn/:topicId`. It finds the topic by
    id, redirects when there is none, links to its neighbours, and mounts
    the visualizer its `visualizerType` names. */
module TopicPage {
  import opened JsCore
  import opened Topics

  /** `TOPICS.findIndex(t => t.id === topicId)`: the first position whose id
      equals the route parameter, or -1. A missing parameter matches no
      topic. */
  function FindIndex(topics: seq<Topic>, topicId: Option<JsString>): (r: int)
    ensures -1 <= r < |topics|
    ensures r == -1 <==> forall k :: 0 <= k < |topics| ==> Some(topics[k].id) != topicId
    ensures r >= 0 ==> Some(topics[r].id) == topicId && forall k :: 0 <= k < r ==> Some(topics[k].id) != topicId
  {
    FindFrom(topics, topicId, 0)
  }

  /** The search from position `from` on. */
  function FindFrom(topics: seq<Topic>, topicId: Option<JsString>, from: nat): (r: int)
    requires from <= |topics|
    ensures r == -1 || from <= r < |topics|
    ensures r == -1 <==> forall k :: from <= k < |topics| ==> Some(topics[k].id) != topicId
    ensures r >= 0 ==> Some(topics[r].id) == topicId && forall k :: from <= k < r ==> Some(topics[k].id) != topicId
    decreases |topics| - from
  {
    if from == |topics| then -1
    else if Some(topics[from].id) == topicId then from
    else FindFrom(topics, topicId, from + 1)
  }

  /** `TOPICS[k]`: the topic at `k`, `undefined` outside the array. */
  function At(topics: seq<Topic>, k: int): (r: Option<Topic>)
    ensures r.Some? <==> 0 <= k < |topics|
    ensures r.Some? ==> r.value == topics[k]
  {
    if 0 <= k < |topics| then Some(topics[k]) else None
  }

  /** Where the forward card of the footer leads. */
  datatype Forward = NextTopic(id: JsString) | Playground

  /** What the page renders: a redirect to `/learn`, or the topic with its
      "Module n of m" label, the previous card (if any) and the forward
      card. */
  datatype Page =
    | RedirectToLearn
    | Shown(topic: Topic, index: nat, moduleNumber: int, moduleCount: int, prev: Option<Topic>, forward: Forward)

  function RenderPage(topics: seq<Topic>, topicId: Option<JsString>): (r: Page)
    ensures r.RedirectToLearn? <==> forall k :: 0 <= k < |topics| ==> Some(topics[k].id) != topicId
    ensures r.Shown? ==>
              && r.index < |topics| && r.topic == topics[r.index]
              && Some(r.topic.id) == topicId
              && (forall k :: 0 <= k < r.index ==> Some(topics[k].id) != topicId)
              && 1 <= r.moduleNumber <= r.moduleCount == |topics|
              && (r.prev.Some? <==> r.index > 0)
              && (r.prev.Some? ==> r.prev.value == topics[r.index - 1])
              && (r.forward == Playground <==> r.index == |topics| - 1)
              && (r.forward.NextTopic? ==> r.forward.id == topics[r.index + 1].id)
  {
    var topicIndex := FindIndex(topics, topicId);
    match At(topics, topicIndex)
    case None => RedirectToLearn
    case Some(topic) =>
      var forward := match At(topics, topicIndex + 1)
        case Some(next) => NextTopic(next.id)
        case None => Playground;
      Shown(topic, topicIndex, topicIndex + 1, |topics|, At(topics, topicIndex - 1), forward)
  }

  /** The visualizer components `renderVisualizer` can mount. */
  datatype Component =
    | CaesarCipherDemo | AvalancheDemo | DigitalSignatureVisualizer | PublicKeyDemo
    | SignVerifyVisualizer | HashDemo | BlockchainDemo | HashVsEncryption

  /** `renderVisualizer`: the two hash tags share one component; `none`,
      `keys` and `signature` fall to the default and mount nothing. */
  function RenderVisualizer(v: VisualizerType): (r: Option<Component>)
    ensures r.None? <==> v == NoVisualizer || v == KeysView || v == SignatureView
    ensures r == Some(HashDemo) <==> v == HashSimple || v == HashProps
  {
    match v
    case Intro => Some(CaesarCipherDemo)
    case AvalancheView => Some(AvalancheDemo)
    case SigConcept => Some(DigitalSignatureVisualizer)
    case PkConcept => Some(PublicKeyDemo)
    case SigVsVer => Some(SignVerifyVisualizer)
    case HashSimple => Some(HashDemo)
    case HashProps => Some(HashDemo)
    case BlockchainView => Some(BlockchainDemo)
    case HashVsEnc => Some(HashVsEncryption)
    case _ => None
  }

  /** Apart from the two hash tags, different tags mount different
      components. */
  lemma RenderVisualizerDistinguishes(v: VisualizerType, w: VisualizerType)
    requires RenderVisualizer(v).Some? && RenderVisualizer(v) == RenderVisualizer(w)
    ensures v == w || (v in {HashSimple, HashProps} && w in {HashSimple, HashProps})
  {
  }

  /** Every topic of the curriculum has its own page: opening it by its id
      shows exactly that topic, at its own position, with a visualizer. */
  lemma EveryTopicHasItsPage(k: nat)
    requires k < |AllTopics()|
    ensures RenderPage(AllTopics(), Some(AllTopics()[k].id)).Shown?
    ensures RenderPage(AllTopics(), Some(AllTopics()[k].id)).index == k
    ensures RenderVisualizer(RenderPage(AllTopics(), Some(AllTopics()[k].id)).topic.visualizerType).Some?
  {
    IdsDistinct();
    TopicsWellFormed();
  }

  /** Following the forward cards from the first topic visits the topics in
      order; the last one leads to the playground. */
  lemma ForwardWalksTheCurriculum(k: nat)
    requires k < |AllTopics()|
    ensures var p := RenderPage(AllTopics(), Some(AllTopics()[k].id));
            && (k < |AllTopics()| - 1 ==> p.forward == NextTopic(AllTopics()[k + 1].id))
            && (k == |AllTopics()| - 1 ==> p.forward == Playground)
  {
    EveryTopicHasItsPage(k);
  }
}
