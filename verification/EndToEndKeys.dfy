/** Keys on both sides: the published blocks of each party drive its own key chain. */
module EndToEndKeys {
  import opened BitPacking
  import opened Sifting
  import opened KeyPipeline
  import opened SiftLog
  import opened SiftProtocol
  import opened SiftRuns

  function Blocks(published: seq<Publication>): (blocks: seq<JaggedBlock>)
    ensures |blocks| == |published|
  {
    seq(|published|, i requires 0 <= i < |published| => published[i].block)
  }

  /** The keys a party's chain has emitted; every publication goes straight through the chain. */
  function Keys(published: seq<Publication>, keySize: nat): seq<Key>
    requires keySize > 0
  {
    ChainKeys(Blocks(published), keySize).emitted
  }

  lemma {:induction false} PublishedBytes(published: seq<Publication>)
    ensures BlockBytes(Blocks(published)) == Bytes(published)
  {
    if published != [] {
      var last := |published| - 1;
      PublishedBytes(published[..last]);
      assert Blocks(published)[..last] == Blocks(published[..last]);
    }
  }

  lemma KeysAreChunks(published: seq<Publication>, keySize: nat)
    requires keySize > 0
    ensures Keys(published, keySize) == Chunks(Bytes(published), keySize)
  {
    ChainKeysOfBytes(Blocks(published), keySize);
    PublishedBytes(published);
  }

  /**
   * Over a channel without errors, as long as Bob has heard every answer that carries bits, but for the
   * one on its way, his keys are a prefix of Alice's; once he has heard that one too, they are equal.
   */
  lemma KeysAgree(w: World, steps: seq<Step>, keySize: nat)
    requires ValidWorld(w) && Noiseless(w) && keySize > 0
    requires BitsHeard(w, Run(w, steps), true)
    ensures var s := Run(w, steps);
            && Keys(s.bob.published, keySize) <= Keys(s.alice.published, keySize)
            && (BitsHeard(w, s, false) ==> Keys(s.bob.published, keySize) == Keys(s.alice.published, keySize))
  {
    hide Run, BitsHeard, Keys, Chunks;
    var s := Run(w, steps);
    StreamsAgreeIff(w, steps);
    KeysAreChunks(s.alice.published, keySize);
    KeysAreChunks(s.bob.published, keySize);
    ChunksPrefix(Bytes(s.bob.published), Bytes(s.alice.published), keySize);
  }

  /** Every byte of a party's keys is a byte it published, in order, and only the tail is still waiting. */
  lemma KeysConserveBytes(published: seq<Publication>, keySize: nat)
    requires keySize > 0
    ensures Flatten(Keys(published, keySize)) <= Bytes(published)
    ensures |Bytes(published)| - |Flatten(Keys(published, keySize))| < keySize
    ensures forall i :: 0 <= i < |Keys(published, keySize)| ==> |Keys(published, keySize)[i]| == keySize
  {
    KeysAreChunks(published, keySize);
    ChunksKeepBytes(Bytes(published), keySize);
  }

  /** Driving a party's chain with its publications emits exactly these keys to its listener. */
  method DriveChain(chain: ErrorCorrection, published: seq<Publication>)
    requires chain.listener.incommingData == [] && chain.listener.listener.bytesInKey > 0
    requires chain.listener.listener.listener != null
    requires chain.listener.listener.carryOverBytes == [] && chain.listener.listener.Emitted() == []
    modifies chain`ecSeqId, chain.listener`incommingData, chain.listener.listener`carryOverBytes
    modifies chain.listener.listener.listener
    ensures chain.listener == old(chain.listener) && chain.listener.listener == old(chain.listener.listener)
    ensures chain.listener.listener.Emitted() == Keys(published, chain.listener.listener.bytesInKey)
  {
    PushBlocks(chain, Blocks(published));
  }
}
