/** `BlockchainDemo`: three blocks, each holding the hash of its
    predecessor; editing one block's data recomputes its hash and relinks
    every block after it. */
module Blockchain {
  import opened JsCore
  import opened Hex
  import opened CryptoFacade

  /** The `BlockData` record. */
  datatype Block = Block(id: nat, data: JsString, prevHash: JsString, hash: JsString, nonce: int)

  /** The `prevHash` the first block carries: sixteen zeros. */
  const GenesisPrevHash: JsString := Str("0000000000000000")

  /** The chain as first rendered, before any hash is computed. */
  function InitialBlocks(): (r: seq<Block>)
    ensures |r| == 3
    ensures forall j :: 0 <= j < 3 ==> r[j].id == j + 1 && r[j].nonce == 0 && r[j].hash == []
    ensures r[0].prevHash == GenesisPrevHash
  {
    [ Block(1, Str("Genesis Block"), GenesisPrevHash, [], 0),
      Block(2, Str("Tx: Alice -> Bob $50"), [], [], 0),
      Block(3, Str("Tx: Bob -> Charlie $20"), [], [], 0) ]
  }

  /** The hash function the demo uses: SHA-256, written in hex. */
  function DemoHash(crypto: SubtleCrypto): (h: JsString -> JsString)
    ensures forall s :: |h(s)| == 64 && IsLowerHex(h(s))
  {
    s => Sha256(crypto, s)
  }

  /** The hash of a block under `h`: the hash of its id in decimal, its data
      and its predecessor's hash, concatenated. */
  function BlockHash(h: JsString -> JsString, b: Block): JsString
  {
    h(NumberToString(b.id) + b.data + b.prevHash)
  }

  /** The loop of `handleDataChange` from position `i` on: each block takes
      its predecessor's (already recomputed) hash as `prevHash`, the first
      block keeps its own, and then its hash is recomputed. The laws below
      hold for any hash function. */
  function Relink(h: JsString -> JsString, blocks: seq<Block>, i: nat): (r: seq<Block>)
    requires i <= |blocks|
    ensures |r| == |blocks|
    ensures forall j :: 0 <= j < |blocks| ==>
              r[j].id == blocks[j].id && r[j].data == blocks[j].data && r[j].nonce == blocks[j].nonce
    ensures forall j :: 0 <= j < i ==> r[j] == blocks[j]
    ensures |blocks| > 0 ==> r[0].prevHash == blocks[0].prevHash
    ensures forall j :: i <= j < |blocks| && j > 0 ==> r[j].prevHash == r[j - 1].hash
    ensures forall j :: i <= j < |blocks| ==> r[j].hash == BlockHash(h, r[j])
    decreases |blocks| - i
  {
    if i == |blocks| then blocks
    else
      var b := blocks[i];
      var linked := if i > 0 then b.(prevHash := blocks[i - 1].hash) else b;
      Relink(h, blocks[i := linked.(hash := BlockHash(h, linked))], i + 1)
  }

  /** What `handleDataChange` can throw: `newBlocks[id - 1]` is `undefined`
      when no block sits at that position. */
  datatype ChainError = TypeError

  /** `handleDataChange(id, newData)`, collapsed into one step. */
  function HandleDataChange(h: JsString -> JsString, blocks: seq<Block>, id: int, newData: JsString)
    : (r: Result<seq<Block>, ChainError>)
    ensures r.Failure? <==> !(1 <= id <= |blocks|)
    ensures r.Success? ==>
              var index := id - 1;
              var nb := r.value;
              && |nb| == |blocks|
              && nb[index].data == newData
              && (forall j :: 0 <= j < |blocks| && j != index ==> nb[j].data == blocks[j].data)
              && (forall j :: 0 <= j < |blocks| ==> nb[j].id == blocks[j].id && nb[j].nonce == blocks[j].nonce)
              && (forall j :: 0 <= j < index ==> nb[j] == blocks[j])
              && nb[0].prevHash == blocks[0].prevHash
              && (forall j :: Max(index, 1) <= j < |blocks| ==> nb[j].prevHash == nb[j - 1].hash)
              && (forall j :: index <= j < |blocks| ==> nb[j].hash == BlockHash(h, nb[j]))
  {
    if !(1 <= id <= |blocks|) then Failure(TypeError)
    else
      var index := id - 1;
      Success(Relink(h, blocks[index := blocks[index].(data := newData)], index))
  }

  /** A chain every link of which holds: the genesis sentinel in front, each
      `prevHash` the hash before it, each hash the hash of its block. */
  predicate Linked(h: JsString -> JsString, blocks: seq<Block>)
  {
    && |blocks| > 0
    && blocks[0].prevHash == GenesisPrevHash
    && (forall j :: 0 < j < |blocks| ==> blocks[j].prevHash == blocks[j - 1].hash)
    && (forall j :: 0 <= j < |blocks| ==> blocks[j].hash == BlockHash(h, blocks[j]))
  }

  /** Each block's id is its position plus one, so every id a block hands
      to `onChange` names a block. */
  predicate Numbered(blocks: seq<Block>)
  {
    forall j :: 0 <= j < |blocks| ==> blocks[j].id == j + 1
  }

  /** The call made on mount, `handleDataChange(1, 'Genesis Block')`, links
      the whole chain. */
  lemma MountLinks(h: JsString -> JsString)
    ensures HandleDataChange(h, InitialBlocks(), 1, Str("Genesis Block")).Success?
    ensures Linked(h, HandleDataChange(h, InitialBlocks(), 1, Str("Genesis Block")).value)
  {
  }

  /** An edit to any block of a linked, numbered chain succeeds and leaves it
      linked and numbered. */
  lemma EditKeepsLinked(h: JsString -> JsString, blocks: seq<Block>, j: nat, newData: JsString)
    requires Linked(h, blocks) && Numbered(blocks) && j < |blocks|
    ensures HandleDataChange(h, blocks, blocks[j].id, newData).Success?
    ensures Linked(h, HandleDataChange(h, blocks, blocks[j].id, newData).value)
    ensures Numbered(HandleDataChange(h, blocks, blocks[j].id, newData).value)
  {
    var nb := HandleDataChange(h, blocks, blocks[j].id, newData).value;
    forall k | 0 < k < |nb| ensures nb[k].prevHash == nb[k - 1].hash {
      if k < j {
        assert nb[k] == blocks[k] && nb[k - 1] == blocks[k - 1];
      }
    }
  }

  /** A user edit: new data typed into the block with the given position. */
  datatype Edit = Edit(position: nat, data: JsString)

  /** The chain after a sequence of edits, each made through its block's
      `onChange`. */
  function ApplyEdits(h: JsString -> JsString, blocks: seq<Block>, edits: seq<Edit>): seq<Block>
    decreases |edits|
  {
    if edits == [] then blocks
    else
      var e := edits[0];
      if e.position < |blocks| then
        match HandleDataChange(h, blocks, blocks[e.position].id, e.data)
        case Success(nb) => ApplyEdits(h, nb, edits[1..])
        case Failure(_) => blocks
      else ApplyEdits(h, blocks, edits[1..])
  }

  /** After mounting, every sequence of edits keeps the chain linked. */
  lemma {:induction false} EditsKeepLinked(h: JsString -> JsString, blocks: seq<Block>, edits: seq<Edit>)
    requires Linked(h, blocks) && Numbered(blocks)
    ensures Linked(h, ApplyEdits(h, blocks, edits))
    decreases |edits|
  {
    if edits != [] {
      var e := edits[0];
      if e.position < |blocks| {
        EditKeepsLinked(h, blocks, e.position, e.data);
        var nb := HandleDataChange(h, blocks, blocks[e.position].id, e.data).value;
        EditsKeepLinked(h, nb, edits[1..]);
      } else {
        EditsKeepLinked(h, blocks, edits[1..]);
      }
    }
  }

  /** The badge each block shows: `isValid` is the constant `true`. */
  function Badge(blocks: seq<Block>, index: nat): (badge: JsString)
  {
    Str("LINKED")
  }

  /** On every chain the demo can reach, the constant badge tells the truth:
      the block is linked to its predecessor. The BROKEN badge is never
      rendered. */
  lemma BadgeMatchesLinkage(h: JsString -> JsString, edits: seq<Edit>, index: nat)
    requires index < 3
    ensures var chain := ApplyEdits(h, HandleDataChange(h, InitialBlocks(), 1, Str("Genesis Block")).value, edits);
            && Badge(chain, index) == Str("LINKED")
            && Badge(chain, index) != Str("BROKEN")
            && (index > 0 && index < |chain| ==> chain[index].prevHash == chain[index - 1].hash)
  {
    MountLinks(h);
    var start := HandleDataChange(h, InitialBlocks(), 1, Str("Genesis Block")).value;
    EditsKeepLinked(h, start, edits);
    assert Str("LINKED")[0] != Str("BROKEN")[0];
  }
}
