/** From sifted blocks to fixed-size keys: error correction, privacy amplification and re-chunking. */
module KeyPipeline {
  import opened BitPacking

  type DataBlock = seq<bv8>
  type Key = seq<bv8>

  function Flatten(blocks: seq<DataBlock>): DataBlock {
    if blocks == [] then [] else Flatten(blocks[..|blocks| - 1]) + blocks[|blocks| - 1]
  }

  /** The keys of k bytes that a byte stream holds, in order. */
  function Chunks(bytes: DataBlock, k: nat): (keys: seq<Key>)
    requires k > 0
    ensures forall i :: 0 <= i < |keys| ==> |keys[i]| == k
  {
    if |bytes| < k then [] else [bytes[..k]] + Chunks(bytes[k..], k)
  }

  /** The bytes left over, too few for another key. */
  function Rest(bytes: DataBlock, k: nat): (rest: DataBlock)
    requires k > 0
    ensures |rest| < k
  {
    if |bytes| < k then bytes else Rest(bytes[k..], k)
  }

  lemma {:induction false} FlattenAppend(a: seq<DataBlock>, b: seq<DataBlock>)
    ensures Flatten(a + b) == Flatten(a) + Flatten(b)
  {
    if b == [] {
      assert a + b == a;
    } else {
      var last := |b| - 1;
      FlattenAppend(a, b[..last]);
      assert (a + b)[..|a + b| - 1] == a + b[..last] && (a + b)[|a + b| - 1] == b[last];
      assert Flatten(b) == Flatten(b[..last]) + b[last];
      assert Flatten(a + b) == Flatten(a + b[..last]) + b[last];
      assert (Flatten(a) + Flatten(b[..last])) + b[last] == Flatten(a) + (Flatten(b[..last]) + b[last]);
    }
  }

  lemma FlattenOne(a: DataBlock)
    ensures Flatten([a]) == a
  {
  }

  lemma FlattenNone(blocks: seq<DataBlock>)
    ensures Flatten(blocks[..0]) == []
  {
  }

  lemma FlattenStep(blocks: seq<DataBlock>, i: nat)
    requires i < |blocks|
    ensures Flatten(blocks[..i + 1]) == Flatten(blocks[..i]) + blocks[i]
  {
    assert blocks[..i + 1][..i] == blocks[..i];
  }

  lemma CutOne(bytes: DataBlock, from: nat, k: nat)
    requires k > 0 && from + k <= |bytes|
    ensures Chunks(bytes[from..], k) == [bytes[from..from + k]] + Chunks(bytes[from + k..], k)
    ensures Rest(bytes[from..], k) == Rest(bytes[from + k..], k)
  {
    assert bytes[from..][..k] == bytes[from..from + k] && bytes[from..][k..] == bytes[from + k..];
  }

  lemma CutNone(bytes: DataBlock, k: nat)
    requires k > 0 && |bytes| < k
    ensures Chunks(bytes, k) == [] && Rest(bytes, k) == bytes
  {
  }

  // No byte is lost, repeated or reordered.
  lemma {:induction false} ChunksKeepBytes(bytes: DataBlock, k: nat)
    requires k > 0
    ensures Flatten(Chunks(bytes, k)) + Rest(bytes, k) == bytes
  {
    if |bytes| >= k {
      var first, keys, rest := bytes[..k], Chunks(bytes[k..], k), Rest(bytes[k..], k);
      ChunksKeepBytes(bytes[k..], k);
      FlattenAppend([first], keys);
      FlattenOne(first);
      assert first + (Flatten(keys) + rest) == bytes;
    }
  }

  // Chunking in two goes, carrying the rest over, is chunking in one.
  lemma {:induction false} ChunksAppend(a: DataBlock, b: DataBlock, k: nat)
    requires k > 0
    ensures Chunks(a + b, k) == Chunks(a, k) + Chunks(Rest(a, k) + b, k)
    ensures Rest(a + b, k) == Rest(Rest(a, k) + b, k)
  {
    if |a| >= k {
      ChunksAppend(a[k..], b, k);
      assert (a + b)[..k] == a[..k] && (a + b)[k..] == a[k..] + b;
    }
  }

  lemma ChunksPrefix(a: DataBlock, b: DataBlock, k: nat)
    requires k > 0 && a <= b
    ensures Chunks(a, k) <= Chunks(b, k)
  {
    ChunksAppend(a, b[|a|..], k);
    assert a + b[|a|..] == b;
  }

  // ---------- Any sequence of calls on the converter ----------

  /** One call: the fragments it brings, and whether anyone is listening. */
  datatype ConverterCall = ConverterCall(fragments: seq<DataBlock>, listening: bool)

  datatype ConverterState = ConverterState(carryOver: DataBlock, emitted: seq<Key>)

  function Convert(s: ConverterState, call: ConverterCall, k: nat): ConverterState
    requires k > 0
  {
    var available := s.carryOver + Flatten(call.fragments);
    if call.listening then ConverterState(Rest(available, k), s.emitted + Chunks(available, k))
    else ConverterState(available, s.emitted)
  }

  function ConvertAll(calls: seq<ConverterCall>, k: nat): ConverterState
    requires k > 0
  {
    if calls == [] then ConverterState([], [])
    else Convert(ConvertAll(calls[..|calls| - 1], k), calls[|calls| - 1], k)
  }

  function Received(calls: seq<ConverterCall>): DataBlock {
    if calls == [] then [] else Received(calls[..|calls| - 1]) + Flatten(calls[|calls| - 1].fragments)
  }

  /** The calls up to and including the last one that had a listener. */
  function Attended(calls: seq<ConverterCall>): seq<ConverterCall> {
    if calls == [] || calls[|calls| - 1].listening then calls else Attended(calls[..|calls| - 1])
  }

  /** The bytes received since then. */
  function Waiting(calls: seq<ConverterCall>): DataBlock {
    if calls == [] || calls[|calls| - 1].listening then []
    else Waiting(calls[..|calls| - 1]) + Flatten(calls[|calls| - 1].fragments)
  }

  lemma {:induction false} ReceivedSplit(calls: seq<ConverterCall>)
    ensures Received(calls) == Received(Attended(calls)) + Waiting(calls)
  {
    hide Flatten;
    if calls != [] && !calls[|calls| - 1].listening {
      var before, latest := calls[..|calls| - 1], Flatten(calls[|calls| - 1].fragments);
      ReceivedSplit(before);
      assert Received(Attended(before)) + Waiting(before) + latest == Received(Attended(before)) + (Waiting(before) + latest);
    }
  }

  lemma ChunksAfterWaiting(heard: DataBlock, waiting: DataBlock, latest: DataBlock, k: nat)
    requires k > 0
    ensures Chunks((heard + waiting) + latest, k) == Chunks(heard, k) + Chunks((Rest(heard, k) + waiting) + latest, k)
    ensures Rest((heard + waiting) + latest, k) == Rest((Rest(heard, k) + waiting) + latest, k)
  {
    ChunksAppend(heard, waiting + latest, k);
    assert (heard + waiting) + latest == heard + (waiting + latest);
    assert (Rest(heard, k) + waiting) + latest == Rest(heard, k) + (waiting + latest);
  }

  /**
   * Whatever the fragmentation and whenever listeners come and go, the emitted keys are the full chunks
   * of all bytes received up to the last call with a listener; the rest of those and everything
   * received since is carried over.
   */
  lemma {:induction false} ConvertExact(calls: seq<ConverterCall>, k: nat)
    requires k > 0
    ensures ConvertAll(calls, k).emitted == Chunks(Received(Attended(calls)), k)
    ensures ConvertAll(calls, k).carryOver == Rest(Received(Attended(calls)), k) + Waiting(calls)
  {
    if calls != [] {
      var before, call := calls[..|calls| - 1], calls[|calls| - 1];
      ConvertExact(before, k);
      if call.listening {
        ReceivedSplit(before);
        ChunksAfterWaiting(Received(Attended(before)), Waiting(before), Flatten(call.fragments), k);
      }
    }
  }

  /** Emitted keys followed by the carry-over are all bytes ever received; every key has the same size. */
  lemma ConvertConserves(calls: seq<ConverterCall>, k: nat)
    requires k > 0
    ensures var s := ConvertAll(calls, k);
            && Flatten(s.emitted) + s.carryOver == Received(calls)
            && (forall i :: 0 <= i < |s.emitted| ==> |s.emitted[i]| == k)
            && (calls != [] && calls[|calls| - 1].listening ==> |s.carryOver| < k)
  {
    var heard := Received(Attended(calls));
    ConvertExact(calls, k);
    ReceivedSplit(calls);
    ChunksKeepBytes(heard, k);
    assert Flatten(Chunks(heard, k)) + (Rest(heard, k) + Waiting(calls)) == heard + Waiting(calls);
  }

  /** Two histories that brought the same bytes and end attended have emitted the same keys. */
  lemma FragmentationIrrelevant(a: seq<ConverterCall>, b: seq<ConverterCall>, k: nat)
    requires k > 0 && a != [] && b != [] && a[|a| - 1].listening && b[|b| - 1].listening
    requires Received(a) == Received(b)
    ensures ConvertAll(a, k) == ConvertAll(b, k)
  {
    ConvertExact(a, k);
    ConvertExact(b, k);
  }

  // ---------- The stages ----------

  /** Whatever receives finished keys. */
  class KeyListener {
    var keys: seq<Key>

    constructor ()
      ensures keys == []
    {
      keys := [];
    }

    method OnKeyGeneration(keyData: seq<Key>)
      modifies this
      ensures keys == old(keys) + keyData
    {
      keys := keys + keyData;
    }
  }

  class KeyConverter {
    const bytesInKey: nat
    var carryOverBytes: DataBlock
    var listener: KeyListener?

    constructor (bytesPerKey: nat)
      ensures bytesInKey == bytesPerKey && carryOverBytes == [] && listener == null
    {
      bytesInKey, carryOverBytes, listener := bytesPerKey, [], null;
    }

    function Emitted(): seq<Key>
      reads this, listener
    {
      if listener == null then [] else listener.keys
    }

    /** Cut keys off the carried-over and new bytes while someone is listening; keep the remainder. */
    method OnKeyGeneration(keyData: seq<DataBlock>)
      requires bytesInKey > 0
      modifies this`carryOverBytes, listener
      ensures listener == old(listener)
      ensures ConverterState(carryOverBytes, Emitted())
           == Convert(old(ConverterState(carryOverBytes, Emitted())), ConverterCall(keyData, listener != null), bytesInKey)
    {
      hide Flatten, Chunks, Rest;
      var availableBytes := carryOverBytes;
      FlattenNone(keyData);
      for i := 0 to |keyData|
        invariant carryOverBytes == old(carryOverBytes) && Emitted() == old(Emitted())
        invariant availableBytes == carryOverBytes + Flatten(keyData[..i])
      {
        FlattenStep(keyData, i);
        availableBytes := availableBytes + keyData[i];
      }
      assert keyData[..|keyData|] == keyData;
      if listener != null {
        var keyToEmit: seq<Key> := [];
        var takeFrom := 0;
        assert availableBytes[0..] == availableBytes;
        while |availableBytes| - takeFrom >= bytesInKey
          invariant 0 <= takeFrom <= |availableBytes| && Emitted() == old(Emitted())
          invariant Chunks(availableBytes, bytesInKey) == keyToEmit + Chunks(availableBytes[takeFrom..], bytesInKey)
          invariant Rest(availableBytes, bytesInKey) == Rest(availableBytes[takeFrom..], bytesInKey)
        {
          CutOne(availableBytes, takeFrom, bytesInKey);
          var newKey := availableBytes[takeFrom..takeFrom + bytesInKey];
          keyToEmit := keyToEmit + [newKey];
          takeFrom := takeFrom + bytesInKey;
        }
        CutNone(availableBytes[takeFrom..], bytesInKey);
        carryOverBytes := availableBytes[takeFrom..];
        if keyToEmit != [] {
          listener.OnKeyGeneration(keyToEmit);
        }
      } else {
        carryOverBytes := availableBytes;
      }
    }
  }

  class PrivacyAmplify {
    var incommingData: seq<DataBlock>
    var listener: KeyConverter

    constructor (listener: KeyConverter)
      ensures incommingData == [] && this.listener == listener
    {
      incommingData, this.listener := [], listener;
    }

    /** Collect the block, then hand on everything collected as a single fragment. */
    method OnCorrected(correctedData: DataBlock)
      requires listener.bytesInKey > 0
      modifies this`incommingData, listener`carryOverBytes, listener.listener
      ensures incommingData == [] && listener == old(listener) && listener.listener == old(listener.listener)
      ensures ConverterState(listener.carryOverBytes, listener.Emitted())
           == Convert(old(ConverterState(listener.carryOverBytes, listener.Emitted())),
                      ConverterCall([Flatten(old(incommingData) + [correctedData])], listener.listener != null),
                      listener.bytesInKey)
    {
      incommingData := incommingData + [correctedData];
      PublishPrivacyAmplify();
    }

    method PublishPrivacyAmplify()
      requires listener.bytesInKey > 0
      modifies this`incommingData, listener`carryOverBytes, listener.listener
      ensures incommingData == [] && listener == old(listener) && listener.listener == old(listener.listener)
      ensures ConverterState(listener.carryOverBytes, listener.Emitted())
           == Convert(old(ConverterState(listener.carryOverBytes, listener.Emitted())),
                      ConverterCall([Flatten(old(incommingData))], listener.listener != null), listener.bytesInKey)
    {
      var key: DataBlock := [];
      for i := 0 to |incommingData|
        invariant key == Flatten(incommingData[..i])
        invariant incommingData == old(incommingData)
      {
        key := key + incommingData[i];
        assert incommingData[..i + 1][..i] == incommingData[..i];
      }
      assert incommingData[..|incommingData|] == incommingData;
      incommingData := [];
      listener.OnKeyGeneration([key]);
    }
  }

  class ErrorCorrection {
    var ecSeqId: nat
    var listener: PrivacyAmplify

    constructor (listener: PrivacyAmplify)
      ensures ecSeqId == 0 && this.listener == listener
    {
      ecSeqId, this.listener := 0, listener;
    }

    /** Pass the bytes on as they are, behind whatever the next stage has collected. */
    method OnSifted(siftedData: JaggedBlock)
      requires listener.listener.bytesInKey > 0
      modifies this`ecSeqId, listener`incommingData, listener.listener`carryOverBytes, listener.listener.listener
      ensures ecSeqId == old(ecSeqId) + 1 && listener == old(listener) && listener.listener == old(listener.listener)
      ensures listener.incommingData == [] && listener.listener.listener == old(listener.listener.listener)
      ensures var converter := listener.listener;
              ConverterState(converter.carryOverBytes, converter.Emitted())
              == Convert(old(ConverterState(converter.carryOverBytes, converter.Emitted())),
                         ConverterCall([Flatten(old(listener.incommingData) + [siftedData.bytes])], converter.listener != null),
                         converter.bytesInKey)
    {
      var corrected := siftedData.bytes;
      listener.OnCorrected(corrected);
      ecSeqId := ecSeqId + 1;
    }
  }

  /** The keys and the carry-over after a chain has been given these blocks one after another. */
  function ChainKeys(blocks: seq<JaggedBlock>, k: nat): ConverterState
    requires k > 0
  {
    if blocks == [] then ConverterState([], [])
    else
      var s := ChainKeys(blocks[..|blocks| - 1], k);
      var available := s.carryOver + blocks[|blocks| - 1].bytes;
      ConverterState(Rest(available, k), s.emitted + Chunks(available, k))
  }

  function BlockBytes(blocks: seq<JaggedBlock>): DataBlock {
    if blocks == [] then [] else BlockBytes(blocks[..|blocks| - 1]) + blocks[|blocks| - 1].bytes
  }

  // The keys of a chain depend on the concatenated bytes of its blocks and on nothing else.
  lemma {:induction false} ChainKeysOfBytes(blocks: seq<JaggedBlock>, k: nat)
    requires k > 0
    ensures ChainKeys(blocks, k) == ConverterState(Rest(BlockBytes(blocks), k), Chunks(BlockBytes(blocks), k))
  {
    if blocks != [] {
      var before := blocks[..|blocks| - 1];
      ChainKeysOfBytes(before, k);
      ChunksAppend(BlockBytes(before), blocks[|blocks| - 1].bytes, k);
    }
  }

  /** Push blocks one after another into a chain that starts empty and has a listener throughout. */
  method PushBlocks(chain: ErrorCorrection, blocks: seq<JaggedBlock>)
    requires chain.listener.incommingData == [] && chain.listener.listener.bytesInKey > 0
    requires chain.listener.listener.listener != null
    requires chain.listener.listener.carryOverBytes == [] && chain.listener.listener.Emitted() == []
    modifies chain`ecSeqId, chain.listener`incommingData, chain.listener.listener`carryOverBytes
    modifies chain.listener.listener.listener
    ensures chain.listener == old(chain.listener) && chain.listener.listener == old(chain.listener.listener)
    ensures var converter := chain.listener.listener;
            ConverterState(converter.carryOverBytes, converter.Emitted()) == ChainKeys(blocks, converter.bytesInKey)
  {
    hide Chunks, Rest, Flatten;
    var converter := chain.listener.listener;
    for i := 0 to |blocks|
      invariant chain.listener == old(chain.listener) && chain.listener.listener == converter
      invariant chain.listener.incommingData == [] && converter.listener == old(converter.listener)
      invariant ConverterState(converter.carryOverBytes, converter.Emitted()) == ChainKeys(blocks[..i], converter.bytesInKey)
    {
      assert blocks[..i + 1][..i] == blocks[..i];
      var bytes := blocks[i].bytes;
      assert [] + [bytes] == [bytes];
      FlattenOne(bytes);
      FlattenOne(Flatten([bytes]));
      chain.OnSifted(blocks[i]);
    }
    assert blocks[..|blocks|] == blocks;
  }
}
