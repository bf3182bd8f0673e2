/** The detecting party: it batches contiguous frames, sends its bases and publishes from the answers. */
module SiftReceiver {
  import opened Qubits
  import opened BitPacking
  import opened Sifting

  datatype ReceiverState = ReceiverState(
    collected: map<SequenceNumber, DetectionReport>,
    firstSeq: SequenceNumber,
    sequence: SequenceNumber,
    published: seq<Publication>)

  type Batch = map<SequenceNumber, DetectionReport>

  function Store(s: ReceiverState, report: DetectionReport): ReceiverState {
    if report.frame in s.collected then s else s.(collected := s.collected[report.frame := report])
  }

  /** Whether enough contiguous frames have arrived to be worth verifying. */
  ghost predicate Ready(keys: set<SequenceNumber>, firstSeq: SequenceNumber, minFrames: nat) {
    && minFrames >= 1
    && (forall k :: firstSeq <= k < firstSeq + minFrames ==> k in keys)
    && (minFrames > 1 ==> forall k :: k in keys ==> firstSeq <= k)
  }

  /** The first frame at or after firstSeq that has not arrived. */
  function RunEnd(keys: set<SequenceNumber>, firstSeq: SequenceNumber): (end: SequenceNumber)
    ensures firstSeq <= end && end !in keys
    ensures forall k :: firstSeq <= k < end ==> k in keys
    decreases |keys|
  {
    if firstSeq in keys then
      var end := RunEnd(keys - {firstSeq}, firstSeq + 1);
      assert end in keys ==> end in keys - {firstSeq};
      assert forall k :: k in keys - {firstSeq} ==> k in keys;
      assert forall k {:trigger k in keys} :: firstSeq + 1 <= k < end ==> k in keys - {firstSeq};
      end
    else firstSeq
  }

  // The run is long enough, and for a minimum above one nothing is stored from before it.
  lemma ReadyIff(keys: set<SequenceNumber>, firstSeq: SequenceNumber, minFrames: nat)
    ensures Ready(keys, firstSeq, minFrames)
       <==> (minFrames >= 1 && RunEnd(keys, firstSeq) - firstSeq >= minFrames
             && (minFrames == 1 || forall k :: k in keys ==> firstSeq <= k))
  {
    hide RunEnd;
    var end := RunEnd(keys, firstSeq);
  }

  /** The frames of the run that starts at firstSeq. */
  ghost function Run(collected: Batch, firstSeq: SequenceNumber): Batch {
    map f | f in collected && firstSeq <= f < RunEnd(collected.Keys, firstSeq) :: collected[f]
  }

  ghost function Take(s: ReceiverState): (ReceiverState, Batch) {
    var batch := Run(s.collected, s.firstSeq);
    (s.(collected := s.collected - batch.Keys, firstSeq := RunEnd(s.collected.Keys, s.firstSeq)), batch)
  }

  function Values(detections: seq<Detection>): (values: seq<Qubit>)
    ensures |values| == |detections|
  {
    seq(|detections|, i requires 0 <= i < |detections| => detections[i].value)
  }

  function BatchValues(batch: Batch): map<SequenceNumber, seq<Qubit>> {
    map f | f in batch :: Values(batch[f].detections)
  }

  function Bases(detections: seq<Detection>): (bases: seq<IndexedBasis>)
    ensures |bases| == |detections|
  {
    seq(|detections|, i requires 0 <= i < |detections| => IndexedBasis(detections[i].time, Base(detections[i].value)))
  }

  function RequestFor(batch: Batch): BasisByFrame {
    map f | f in batch :: Bases(batch[f].detections)
  }

  // The index sent with a basis is the time of the detection.
  lemma RequestExact(batch: Batch, f: SequenceNumber, i: nat)
    requires f in batch && i < |batch[f].detections|
    ensures RequestFor(batch).Keys == batch.Keys && |RequestFor(batch)[f]| == |batch[f].detections|
    ensures var d := batch[f].detections[i];
            RequestFor(batch)[f][i].index == d.time && RequestFor(batch)[f][i].basis == d.value / 2 % 4 * 2
  {
    QubitDigits(batch[f].detections[i].value);
  }

  ghost function Publish(s: ReceiverState, batch: Batch, answers: AnswersByFrame, discarded: set<Intensity>): ReceiverState
    requires AllReadable(BatchValues(batch), answers)
  {
    var block := Pack(SiftedBits(batch.Keys, BatchValues(batch), answers, discarded));
    s.(sequence := s.sequence + 1, published := s.published + [Publication(s.sequence, block)])
  }

  class Receiver {
    var collectedStates: Batch
    var siftedSequence: SequenceNumber
    var published: seq<Publication>
    const discardedIntensities: set<Intensity>
    const minFramesBeforeVerify: nat

    constructor (framesBeforeVerify: nat, discarded: set<Intensity>)
      ensures State(0) == ReceiverState(map[], 0, 0, [])
      ensures minFramesBeforeVerify == framesBeforeVerify && discardedIntensities == discarded
    {
      collectedStates, siftedSequence, published := map[], 0, [];
      minFramesBeforeVerify, discardedIntensities := framesBeforeVerify, discarded;
    }

    /** The state of the connection; the next frame wanted is a local of the worker loop. */
    function State(firstSeq: SequenceNumber): ReceiverState
      reads this
    {
      ReceiverState(collectedStates, firstSeq, siftedSequence, published)
    }

    /** Connecting forgets everything stored and starts a worker that wants frame 0. */
    method Connect() returns (firstSeq: SequenceNumber)
      modifies this
      ensures State(firstSeq) == ReceiverState(map[], 0, 0, old(published))
    {
      collectedStates, siftedSequence, firstSeq := map[], 0, 0;
    }

    method OnPhotonReport(report: DetectionReport, ghost firstSeq: SequenceNumber)
      modifies this
      ensures State(firstSeq) == Store(old(State(firstSeq)), report)
      ensures report.frame in old(collectedStates) ==> collectedStates == old(collectedStates)
      ensures report.frame !in old(collectedStates) ==> collectedStates == old(collectedStates)[report.frame := report]
    {
      if report.frame !in collectedStates {
        collectedStates := collectedStates[report.frame := report];
      }
    }

    /** Walk the stored frames in order and count how many are contiguous from firstSeq. */
    method ValidateIncomming(firstSeq: SequenceNumber) returns (result: bool)
      ensures result <==> Ready(collectedStates.Keys, firstSeq, minFramesBeforeVerify)
      ensures result <==> (minFramesBeforeVerify >= 1
                           && RunEnd(collectedStates.Keys, firstSeq) - firstSeq >= minFramesBeforeVerify
                           && (minFramesBeforeVerify == 1 || forall k :: k in collectedStates ==> firstSeq <= k))
    {
      ReadyIff(collectedStates.Keys, firstSeq, minFramesBeforeVerify);
      result := false;
      if minFramesBeforeVerify > 1 && |collectedStates| > 1 {
        var it := Least(collectedStates.Keys);
        assert firstSeq in collectedStates.Keys ==> it <= firstSeq;
        if it == firstSeq {
          result := CountContiguous(firstSeq);
        }
      } else if minFramesBeforeVerify == 1 && collectedStates != map[] {
        var remaining := collectedStates.Keys;
        while !result && remaining != {}
          invariant remaining <= collectedStates.Keys
          invariant result ==> firstSeq in collectedStates
          invariant !result ==> firstSeq !in collectedStates.Keys - remaining
          decreases |remaining|
        {
          var it := Least(remaining);
          result := it == firstSeq;
          remaining := remaining - {it};
        }
        assert firstSeq in collectedStates ==> forall k :: firstSeq <= k < firstSeq + 1 ==> k in collectedStates;
      } else if firstSeq in collectedStates && firstSeq + 1 in collectedStates {
        TwoKeys(collectedStates.Keys, firstSeq, firstSeq + 1);
      }
    }

    method CountContiguous(firstSeq: SequenceNumber) returns (result: bool)
      requires minFramesBeforeVerify > 1 && collectedStates != map[]
      requires Least(collectedStates.Keys) == firstSeq
      ensures result <==> Ready(collectedStates.Keys, firstSeq, minFramesBeforeVerify)
    {
      result := false;
      var prevSeq, numCollected := firstSeq, 1;
      var remaining := collectedStates.Keys - {firstSeq};
      while remaining != {}
        invariant remaining == set k | k in collectedStates.Keys && k > prevSeq
        invariant prevSeq == firstSeq + numCollected - 1
        invariant 1 <= numCollected < minFramesBeforeVerify
        invariant forall k :: firstSeq <= k <= prevSeq ==> k in collectedStates
        invariant !result
        decreases |remaining|
      {
        var it := Least(remaining);
        ghost var next: nat := prevSeq + 1;
        assert next in collectedStates ==> next in remaining;
        if it == prevSeq + 1 {
          prevSeq := it;
          numCollected := numCollected + 1;
          remaining := remaining - {it};
          if numCollected >= minFramesBeforeVerify {
            return true;
          }
        } else {
          return false;
        }
      }
      ghost var next: nat := prevSeq + 1;
      assert next !in remaining;
    }

    /** Move the contiguous run at firstSeq out of the store, once enough of it has arrived. */
    method TakeBatch(firstSeq: SequenceNumber) returns (result: bool, work: Batch, nextSeq: SequenceNumber)
      modifies this`collectedStates
      ensures result <==> Ready(old(collectedStates).Keys, firstSeq, minFramesBeforeVerify)
      ensures result ==> (State(nextSeq), work) == Take(old(State(firstSeq)))
      ensures !result ==> State(nextSeq) == old(State(firstSeq)) && work == map[]
      ensures nextSeq == if result then RunEnd(old(collectedStates).Keys, firstSeq) else firstSeq
      ensures forall f :: f in work <==> firstSeq <= f < nextSeq
      ensures work + collectedStates == old(collectedStates) && work.Keys !! collectedStates.Keys
    {
      work, nextSeq := map[], firstSeq;
      result := ValidateIncomming(firstSeq);
      if result {
        assert firstSeq in collectedStates;
        ghost var before, end := collectedStates, RunEnd(collectedStates.Keys, firstSeq);
        while nextSeq in collectedStates
          invariant firstSeq <= nextSeq <= end
          invariant RunEnd(collectedStates.Keys, nextSeq) == end
          invariant work == map f | f in before && firstSeq <= f < nextSeq :: before[f]
          invariant collectedStates == before - work.Keys
          decreases end - nextSeq
        {
          work := work[nextSeq := collectedStates[nextSeq]];
          collectedStates := collectedStates - {nextSeq};
          nextSeq := nextSeq + 1;
        }
      }
    }

    /** The bases of every detection of the batch, in detection order. */
    method BuildRequest(work: Batch) returns (basis: BasisByFrame)
      ensures basis == RequestFor(work)
    {
      basis := map[];
      var remaining := work.Keys;
      while remaining != {}
        invariant remaining <= work.Keys
        invariant basis.Keys == work.Keys - remaining
        invariant forall f :: f in basis ==> basis[f] == Bases(work[f].detections)
        decreases |remaining|
      {
        var frame := Least(remaining);
        var list := work[frame].detections;
        var currentList: seq<IndexedBasis> := [];
        for i := 0 to |list|
          invariant currentList == Bases(list)[..i]
        {
          currentList := currentList + [IndexedBasis(list[i].time, Base(list[i].value))];
        }
        basis := basis[frame := currentList];
        remaining := remaining - {frame};
      }
    }

    method PublishStates(work: Batch, answers: AnswersByFrame, ghost firstSeq: SequenceNumber)
      requires AllReadable(BatchValues(work), answers)
      modifies this`siftedSequence, this`published
      ensures State(firstSeq) == Publish(old(State(firstSeq)), work, answers, discardedIntensities)
      ensures siftedSequence == old(siftedSequence) + 1
      ensures |published| == |old(published)| + 1 && published[..|old(published)|] == old(published)
      ensures published[|old(published)|].id == old(siftedSequence)
    {
      var block := PackFrames(BatchValues(work), answers, discardedIntensities);
      assert BatchValues(work).Keys == work.Keys;
      published := published + [Publication(siftedSequence, block)];
      siftedSequence := siftedSequence + 1;
    }
  }

  lemma TwoKeys(keys: set<nat>, a: nat, b: nat)
    requires a in keys && b in keys && a != b
    ensures |keys| > 1
  {
    assert b in keys - {a};
    assert |keys - {a}| == |keys| - 1;
  }
}
