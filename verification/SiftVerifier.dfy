/** The emitting party: it compares the bases it is sent with what it emitted, answers and publishes. */
module SiftVerifier {
  import opened Qubits
  import opened BitPacking
  import opened Sifting

  datatype CallResult = Aborted | Answered(answers: AnswersByFrame)

  datatype VerifierState = VerifierState(
    collected: map<SequenceNumber, EmitterReport>,
    sequence: SequenceNumber,
    published: seq<Publication>)

  /** The intensity list is absent or has one entry for every emission. */
  predicate WellFormed(report: EmitterReport) {
    report.intensities == [] || |report.intensities| == |report.emissions|
  }

  ghost predicate AllWellFormed(collected: map<SequenceNumber, EmitterReport>) {
    forall f :: f in collected ==> WellFormed(collected[f])
  }

  /** For each measured basis that names an emission, whether it is the basis emitted. */
  function CompareBases(emissions: seq<Qubit>, bases: seq<IndexedBasis>): (answers: seq<bool>)
    ensures |answers| <= |bases|
  {
    if bases == [] then []
    else
      var last := bases[|bases| - 1];
      CompareBases(emissions, bases[..|bases| - 1])
      + if last.index < |emissions| then [Base(emissions[last.index]) == last.basis] else []
  }

  function AnswerFrame(report: EmitterReport, bases: seq<IndexedBasis>, discarded: set<Intensity>): (a: BasisAnswers)
    ensures WellFormed(report) ==> Readable(a, |report.emissions|)
  {
    BasisAnswers(CompareBases(report.emissions, bases), if discarded != {} then report.intensities else [])
  }

  function Emissions(reports: map<SequenceNumber, EmitterReport>): map<SequenceNumber, seq<Qubit>> {
    map f | f in reports :: reports[f].emissions
  }

  /** The stored frames a request names: all of them, or none if any is missing. */
  function Requested(collected: map<SequenceNumber, EmitterReport>, request: BasisByFrame)
    : (work: map<SequenceNumber, EmitterReport>)
    ensures work != map[] <==> request != map[] && request.Keys <= collected.Keys
    ensures work != map[] ==> work.Keys == request.Keys
    ensures forall f :: f in work ==> f in collected && work[f] == collected[f]
  {
    if request.Keys <= collected.Keys then
      var work := map f | f in request :: collected[f];
      assert request != map[] ==> exists f :: f in request;
      assert forall f :: f in request ==> f in work;
      work
    else map[]
  }

  function Answers(work: map<SequenceNumber, EmitterReport>, request: BasisByFrame, discarded: set<Intensity>): AnswersByFrame
    requires work.Keys <= request.Keys
  {
    map f | f in work :: AnswerFrame(work[f], request[f], discarded)
  }

  function Store(s: VerifierState, report: EmitterReport): VerifierState {
    if report.frame in s.collected then s else s.(collected := s.collected[report.frame := report])
  }

  lemma AnswersReadable(work: map<SequenceNumber, EmitterReport>, request: BasisByFrame, discarded: set<Intensity>)
    requires work.Keys <= request.Keys && AllWellFormed(work)
    ensures AllReadable(Emissions(work), Answers(work, request, discarded))
  {
    forall f | f in work ensures Readable(Answers(work, request, discarded)[f], |work[f].emissions|) {
      assert WellFormed(work[f]);
    }
  }

  /** The published bits of an answered call. */
  ghost function VerifiedBits(work: map<SequenceNumber, EmitterReport>, request: BasisByFrame,
                              discarded: set<Intensity>): seq<bool>
    requires work.Keys <= request.Keys && AllWellFormed(work)
  {
    AnswersReadable(work, request, discarded);
    SiftedBits(work.Keys, Emissions(work), Answers(work, request, discarded), discarded)
  }

  ghost function Verify(s: VerifierState, request: BasisByFrame, discarded: set<Intensity>): (VerifierState, CallResult)
    requires AllWellFormed(s.collected)
  {
    var work := Requested(s.collected, request);
    var block := Pack(VerifiedBits(work, request, discarded));
    (VerifierState(s.collected - work.Keys, s.sequence + 1, s.published + [Publication(s.sequence, block)]),
     if work == map[] then Aborted else Answered(Answers(work, request, discarded)))
  }

  function IndexesOf(bases: seq<IndexedBasis>): (indexes: seq<nat>)
    ensures |indexes| == |bases|
  {
    seq(|bases|, i requires 0 <= i < |bases| => bases[i].index)
  }

  // Whatever the indexes, the answer to a basis comes after those to the usable ones before it.
  lemma {:induction false} CompareBasesExact(emissions: seq<Qubit>, bases: seq<IndexedBasis>, i: nat)
    requires i < |bases|
    ensures var answers, n := CompareBases(emissions, bases), CountBelow(IndexesOf(bases[..i]), |emissions|);
            && |answers| == CountBelow(IndexesOf(bases), |emissions|)
            && (bases[i].index < |emissions| ==>
                  n < |answers| && answers[n] == (Base(emissions[bases[i].index]) == bases[i].basis))
    decreases |bases|
  {
    var last := |bases| - 1;
    assert IndexesOf(bases)[..last] == IndexesOf(bases[..last]);
    if last > 0 {
      CompareBasesExact(emissions, bases[..last], if i < last then i else last - 1);
      assert bases[..last][..i] == bases[..i];
    } else {
      assert IndexesOf(bases[..0]) == [];
    }
  }

  /**
   * A call is answered exactly if it asks for frames and all of them are stored; then they are used up, each
   * is answered, and intensities are sent only if some are discarded. Either way one block is published,
   * an empty one if the call is aborted, and the number advances.
   */
  lemma VerifyExact(s: VerifierState, request: BasisByFrame, discarded: set<Intensity>)
    requires AllWellFormed(s.collected)
    ensures var (s', result) := Verify(s, request, discarded);
            && (result.Answered? <==> request != map[] && request.Keys <= s.collected.Keys)
            && s'.collected == (if result.Answered? then s.collected - request.Keys else s.collected)
            && s'.sequence == s.sequence + 1
            && |s'.published| == |s.published| + 1 && s'.published[..|s.published|] == s.published
            && s'.published[|s.published|].id == s.sequence
            && (result.Aborted? ==> s'.published[|s.published|].block == JaggedBlock([], 0))
            && (result.Answered? ==>
                  result.answers.Keys == request.Keys
                  && forall f :: f in request ==>
                       result.answers[f].answers == CompareBases(s.collected[f].emissions, request[f])
                       && result.answers[f].intensity == if discarded == {} then [] else s.collected[f].intensities)
  {
    hide CompareBases, SiftedBits;
    var work := Requested(s.collected, request);
    if work == map[] {
      AnswersReadable(work, request, discarded);
      NoFramesNoBits(Emissions(work), Answers(work, request, discarded), discarded);
      assert work.Keys == {};
    }
  }

  class Verifier {
    var collectedStates: map<SequenceNumber, EmitterReport>
    var siftedSequence: SequenceNumber
    var published: seq<Publication>
    const discardedIntensities: set<Intensity>

    constructor (discarded: set<Intensity>)
      ensures State() == VerifierState(map[], 0, []) && discardedIntensities == discarded
    {
      collectedStates, siftedSequence, published := map[], 0, [];
      discardedIntensities := discarded;
    }

    function State(): VerifierState
      reads this
    {
      VerifierState(collectedStates, siftedSequence, published)
    }

    ghost predicate Valid()
      reads this
    {
      AllWellFormed(collectedStates)
    }

    /** Connecting and disconnecting both forget the stored frames and restart the numbering. */
    method Connect()
      modifies this
      ensures State() == VerifierState(map[], 0, old(published))
    {
      collectedStates, siftedSequence := map[], 0;
    }

    method OnEmitterReport(report: EmitterReport)
      modifies this
      ensures State() == Store(old(State()), report)
      ensures report.frame in old(collectedStates) ==> State() == old(State())
      ensures report.frame !in old(collectedStates) ==> collectedStates == old(collectedStates)[report.frame := report]
      ensures old(Valid()) && WellFormed(report) ==> Valid()
    {
      if report.frame !in collectedStates {
        collectedStates := collectedStates[report.frame := report];
        assert forall f :: f in collectedStates ==> f == report.frame || f in old(collectedStates);
      }
    }

    /** Answer every requested frame, or abort if one is missing; publish either way. */
    method VerifyBases(request: BasisByFrame) returns (result: CallResult)
      requires Valid()
      modifies this
      ensures Valid()
      ensures (State(), result) == Verify(old(State()), request, discardedIntensities)
    {
      hide Requested, Answers, Pack, SiftedBits, AllWellFormed, AllReadable;
      var work := TakeRequested(request);
      var response;
      result, response := AnswerAll(work, request);
      AnswersReadable(work, request, discardedIntensities);
      PublishStates(work, response);
    }

    /** Move the requested frames out of the store if all of them have arrived. */
    method TakeRequested(request: BasisByFrame) returns (work: map<SequenceNumber, EmitterReport>)
      requires Valid()
      modifies this`collectedStates
      ensures Valid() && AllWellFormed(work)
      ensures work == Requested(old(collectedStates), request)
      ensures collectedStates == old(collectedStates) - work.Keys
    {
      work := map[];
      if request != map[] {
        var dataReady := request.Keys <= collectedStates.Keys;
        if dataReady {
          work := map f | f in request :: collectedStates[f];
          collectedStates := collectedStates - request.Keys;
          assert forall f :: f in collectedStates ==> collectedStates[f] == old(collectedStates)[f];
        }
      }
    }

    method AnswerAll(work: map<SequenceNumber, EmitterReport>, request: BasisByFrame)
      returns (result: CallResult, response: AnswersByFrame)
      requires work.Keys <= request.Keys
      ensures response == Answers(work, request, discardedIntensities)
      ensures result == if work == map[] then Aborted else Answered(response)
    {
      result, response := Aborted, map[];
      var remaining := work.Keys;
      while remaining != {}
        invariant remaining <= work.Keys
        invariant response.Keys == work.Keys - remaining
        invariant forall f :: f in response ==> response[f] == AnswerFrame(work[f], request[f], discardedIntensities)
        invariant result == if remaining == work.Keys then Aborted else Answered(response)
        decreases |remaining|
      {
        var frame := Least(remaining);
        var answers := CompareFrame(work[frame].emissions, request[frame]);
        var intensity := [];
        if discardedIntensities != {} && work[frame].intensities != [] {
          intensity := work[frame].intensities;
        }
        response := response[frame := BasisAnswers(answers, intensity)];
        result := Answered(response);
        remaining := remaining - {frame};
      }
    }

    method CompareFrame(emissions: seq<Qubit>, bases: seq<IndexedBasis>) returns (answers: seq<bool>)
      ensures answers == CompareBases(emissions, bases)
    {
      answers := [];
      var i := 0;
      while i < |bases|
        invariant 0 <= i <= |bases|
        invariant answers == CompareBases(emissions, bases[..i])
      {
        assert bases[..i + 1][..i] == bases[..i];
        var detected := bases[i];
        if detected.index < |emissions| {
          answers := answers + [Base(emissions[detected.index]) == detected.basis];
        }
        i := i + 1;
      }
      assert bases[..i] == bases;
    }

    method PublishStates(work: map<SequenceNumber, EmitterReport>, answers: AnswersByFrame)
      requires AllReadable(Emissions(work), answers)
      modifies this`siftedSequence, this`published
      ensures siftedSequence == old(siftedSequence) + 1
      ensures published == old(published) + [Publication(old(siftedSequence),
                Pack(SiftedBits(work.Keys, Emissions(work), answers, discardedIntensities)))]
    {
      var block := PackFrames(Emissions(work), answers, discardedIntensities);
      assert Emissions(work).Keys == work.Keys;
      published := published + [Publication(siftedSequence, block)];
      siftedSequence := siftedSequence + 1;
    }
  }
}
