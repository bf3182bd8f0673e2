/** Publishing the sifted qubits of asynchronous detections as packed key bits. */
module AlignmentResults {
  import opened AsyncAgreement
  import opened AsyncSift
  import opened BitPacking
  import opened Qubits
  import opened Sifting

  function BitValues(qubits: seq<Qubit>): (bits: seq<bool>)
    ensures |bits| == |qubits|
  {
    seq(|qubits|, i requires 0 <= i < |qubits| => BitValue(qubits[i]))
  }

  // The packed bits are the last binary digits of the qubits, in order.
  lemma PackedDigits(qubits: seq<Qubit>)
    ensures var block := Pack(BitValues(qubits));
            && 0 <= block.NumBits() <= 8 * |block.bytes| && block.NumBits() == |qubits|
            && forall i :: 0 <= i < |qubits| ==> (Unpack(block)[i] <==> qubits[i] % 2 == 1)
  {
    hide Pack;
    PackSize(BitValues(qubits));
    UnpackPack(BitValues(qubits));
    forall i | 0 <= i < |qubits| ensures BitValue(qubits[i]) <==> qubits[i] % 2 == 1 {
      QubitDigits(qubits[i]);
    }
  }

  /** Pack the key bit of every qubit. */
  method PackQubits(emissions: seq<Qubit>) returns (block: JaggedBlock)
    ensures block == Pack(BitValues(emissions))
  {
    hide Pack, FullBytes, Pending, Byte;
    var siftedData := new JaggedDataBlock();
    var value: bv8, offset: nat := 0, 0;
    ghost var bits := BitValues(emissions);
    assert bits[..0] == [];
    for i := 0 to |emissions|
      invariant fresh(siftedData) && siftedData.Holds(bits[..i], offset, value)
    {
      assert bits[..i + 1] == bits[..i] + [BitValue(emissions[i])];
      offset, value := siftedData.AddBit(BitValue(emissions[i]), offset, value, bits[..i]);
    }
    assert bits[..|emissions|] == bits;
    siftedData.Flush(offset, value, bits);
    block := siftedData.Value();
  }

  /** The side that publishes: its listener, its sequence number, and what the listener received. */
  class Alignment {
    var haveListener: bool
    var seqNumber: SequenceNumber
    var published: seq<Publication>

    constructor (haveListener: bool)
      ensures this.haveListener == haveListener && seqNumber == 0 && published == []
    {
      this.haveListener, seqNumber, published := haveListener, 0, [];
    }

    method SendResults(emissions: seq<Qubit>)
      modifies this
      ensures haveListener == old(haveListener)
      ensures seqNumber == old(seqNumber) + if haveListener then 1 else 0
      ensures published == old(published)
                         + if haveListener then [Publication(old(seqNumber), Pack(BitValues(emissions)))] else []
    {
      if haveListener {
        var siftedData := PackQubits(emissions);
        published := published + [Publication(seqNumber, siftedData)];
        seqNumber := seqNumber + 1;
      }
    }
  }

  /** The transmitter: emissions wait by frame until the detector says which slots to keep. */
  class TransmissionHandler {
    var receivedData: map<SequenceNumber, seq<Qubit>>
    const results: Alignment

    constructor (results: Alignment)
      ensures receivedData == map[] && this.results == results
    {
      receivedData := map[];
      this.results := results;
    }

    method OnEmitterReport(frame: SequenceNumber, emissions: seq<Qubit>)
      modifies this
      ensures receivedData == old(receivedData)[frame := emissions]
    {
      receivedData := receivedData[frame := emissions];
    }

    /** The call waits until the frame's emissions are there; then they are used up. */
    method DiscardTransmissions(frame: SequenceNumber, slotIds: seq<nat>)
      requires frame in receivedData && |receivedData[frame]| !in slotIds
      requires CountBelow(slotIds, |receivedData[frame]|) <= |receivedData[frame]|
      modifies this, results
      ensures receivedData == old(receivedData) - {frame}
      ensures results.haveListener == old(results.haveListener)
      ensures results.seqNumber == old(results.seqNumber) + if results.haveListener then 1 else 0
      ensures var emissions := old(receivedData)[frame];
              var kept := Compacted(slotIds, emissions)[..CountBelow(slotIds, |emissions|)];
              results.published == old(results.published)
                + if results.haveListener then [Publication(old(results.seqNumber), Pack(BitValues(kept)))] else []
    {
      var emissions := receivedData[frame];
      receivedData := receivedData - {frame};
      var ok;
      ok, emissions := FilterDetections(slotIds, emissions);
      results.SendResults(emissions);
    }
  }

  /** Every matching slot was measured with the emitted value. */
  ghost predicate NoBitErrors(slots: seq<nat>, emissions: seq<Qubit>, detected: seq<Qubit>)
    requires |detected| <= |emissions|
  {
    forall s: nat :: s < |detected| && MatchingSlot(slots, emissions, detected, s)
             ==> BitValue(emissions[s]) == BitValue(detected[s])
  }

  /** The blocks published for one frame are equal exactly if there are no bit errors at the matching slots. */
  lemma BlocksAgreeIff(slots: seq<nat>, emissions: seq<Qubit>, detected: seq<Qubit>)
    requires |slots| <= |detected| <= |emissions| && AllInside(slots, 0, |detected|)
    ensures var o := Exchange(slots, emissions, detected, 0);
            (Pack(BitValues(o.emitted)) == Pack(BitValues(o.detected)) <==> NoBitErrors(slots, emissions, detected))
  {
    hide Exchange, Pack, MatchingSlot;
    var o := Exchange(slots, emissions, detected, 0);
    ExchangeInStep(slots, emissions, detected, 0);
    PackInjective(BitValues(o.emitted), BitValues(o.detected));
    if BitValues(o.emitted) == BitValues(o.detected) {
      forall s: nat | s < |detected| && MatchingSlot(slots, emissions, detected, s)
        ensures BitValue(emissions[s]) == BitValue(detected[s])
      {
        ExchangeKeepsMatching(slots, emissions, detected, s);
        var i :| 0 <= i < |o.slots| && o.slots[i] == s;
        assert BitValues(o.emitted)[i] == BitValues(o.detected)[i];
      }
    } else {
      var i :| 0 <= i < |o.slots| && BitValue(o.emitted[i]) != BitValue(o.detected[i]);
      assert o.slots[i] in o.slots;
      ExchangeKeepsMatching(slots, emissions, detected, o.slots[i]);
    }
  }
}
