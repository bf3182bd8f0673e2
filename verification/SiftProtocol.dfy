/** Both parties and the call between them as a transition system, and what every run of it keeps. */
module SiftProtocol {
  import opened Qubits
  import opened BitPacking
  import opened Sifting
  import A = SiftVerifier
  import B = SiftReceiver
  import opened SiftAgreement
  import opened SiftLog

  type Emitted = SequenceNumber -> EmitterReport
  type Detected = SequenceNumber -> DetectionReport

  /** What was physically sent and seen in each frame, and how the two parties are configured. */
  datatype World = World(emitted: Emitted, detected: Detected, discarded: set<Intensity>, minFrames: nat)

  /** Frame ids name the same transmission on both sides, and detection i carries index i. */
  ghost predicate ValidWorld(w: World) {
    forall f: SequenceNumber :: ValidFrame(w, f)
  }

  ghost predicate ValidFrame(w: World, f: SequenceNumber) {
    && w.emitted(f).frame == f && A.WellFormed(w.emitted(f))
    && w.detected(f).frame == f && Aligned(w.detected(f).detections)
  }

  /** Equal bases imply equal bits: the assumption of a channel without errors. */
  ghost predicate Noiseless(w: World) {
    forall f: SequenceNumber, i: nat ::
      i < |w.emitted(f).emissions| && i < |w.detected(f).detections|
      && Base(w.emitted(f).emissions[i]) == Base(w.detected(f).detections[i].value)
      ==> BitValue(w.emitted(f).emissions[i]) == BitValue(w.detected(f).detections[i].value)
  }

  /** A call of Bob's, by the frames [start, end) it asks about. */
  datatype Call = Call(start: SequenceNumber, end: SequenceNumber)

  /** A request Bob has given up on but Alice is still holding. */
  datatype Request = Request(call: Call, basis: BasisByFrame)

  /** A request Alice has handled, and what became of her answer. */
  datatype Handled = Handled(call: Call, fate: Fate)

  /** The receiver's worker waits inside one call at a time; `entry` is where Alice handled it. */
  datatype Link =
    | Idle
    | Calling(start: SequenceNumber, batch: B.Batch)
    | Replied(start: SequenceNumber, batch: B.Batch, result: A.CallResult, entry: nat)

  /** The whole system, with the calls Bob has finished and the requests Alice has handled, in order. */
  datatype System = System(alice: A.VerifierState, bob: B.ReceiverState, link: Link, abandoned: seq<Request>,
                           calls: seq<Call>, handled: seq<Handled>)

  datatype Step =
    | Emit(frame: SequenceNumber)     // the emitter reports a frame to Alice, any number of times
    | Detect(frame: SequenceNumber)   // the detector reports a frame to Bob, any number of times
    | TakeBatch                       // Bob's worker finds a batch ready
    | Verify                          // Alice answers the call, or aborts it for missing frames
    | Deliver                         // Bob's worker receives the reply
    | Lose                            // the call or its reply is lost in transport
    | Abandon                         // Bob gives up on a call that Alice has received but not handled
    | VerifyLate(request: nat)        // Alice handles a call that Bob has given up on

  // ---------- One frame range ----------

  function Frames(start: SequenceNumber, end: SequenceNumber): (frames: set<SequenceNumber>)
    ensures forall f :: f in frames <==> start <= f < end
    decreases end
  {
    if start < end then Frames(start, end - 1) + {end - 1} else {}
  }

  ghost function AliceQubits(w: World, frames: set<SequenceNumber>): map<SequenceNumber, seq<Qubit>> {
    map f | f in frames :: w.emitted(f).emissions
  }

  ghost function BobQubits(w: World, frames: set<SequenceNumber>): map<SequenceNumber, seq<Qubit>> {
    map f | f in frames :: B.Values(w.detected(f).detections)
  }

  ghost function WorldAnswers(w: World, frames: set<SequenceNumber>): AnswersByFrame {
    map f | f in frames :: AnswersTo(w.emitted(f), w.detected(f).detections, w.discarded)
  }

  lemma WorldReadable(w: World, frames: set<SequenceNumber>)
    requires ValidWorld(w)
    ensures AllReadable(AliceQubits(w, frames), WorldAnswers(w, frames))
    ensures AllReadable(BobQubits(w, frames), WorldAnswers(w, frames))
  {
    forall f | f in frames
      ensures Readable(WorldAnswers(w, frames)[f], |w.detected(f).detections|)
      ensures Readable(WorldAnswers(w, frames)[f], |w.emitted(f).emissions|)
    {
      assert ValidFrame(w, f);
      AlignedReadable(w.emitted(f), w.detected(f).detections, w.discarded);
    }
  }

  ghost function AliceBits(w: World, frames: set<SequenceNumber>): seq<bool>
    requires ValidWorld(w)
  {
    WorldReadable(w, frames);
    SiftedBits(frames, AliceQubits(w, frames), WorldAnswers(w, frames), w.discarded)
  }

  ghost function BobBits(w: World, frames: set<SequenceNumber>): seq<bool>
    requires ValidWorld(w)
  {
    WorldReadable(w, frames);
    SiftedBits(frames, BobQubits(w, frames), WorldAnswers(w, frames), w.discarded)
  }

  ghost function KeptInFrame(w: World, f: SequenceNumber): seq<nat>
    requires ValidWorld(w)
  {
    assert ValidFrame(w, f);
    KeptPositions(w.emitted(f), w.detected(f).detections, w.discarded)
  }

  /** Every kept position of these frames, lowest frame first. */
  ghost function KeptSlots(w: World, frames: set<SequenceNumber>): seq<Position>
    requires ValidWorld(w)
    decreases |frames|
  {
    if frames == {} then []
    else
      var f := Least(frames);
      AtFrame(f, KeptInFrame(w, f)) + KeptSlots(w, frames - {f})
  }

  ghost predicate Present(w: World, p: Position) {
    p.index < |w.emitted(p.frame).emissions| && p.index < |w.detected(p.frame).detections|
  }

  ghost function AliceQubit(w: World, p: Position): Qubit
    requires Present(w, p)
  {
    w.emitted(p.frame).emissions[p.index]
  }

  ghost function BobQubit(w: World, p: Position): Qubit
    requires Present(w, p)
  {
    w.detected(p.frame).detections[p.index].value
  }

  // The kept positions are exactly the slots seen by both parties in the same, not discarded, basis.
  lemma {:induction false} KeptExact(w: World, frames: set<SequenceNumber>, p: Position)
    requires ValidWorld(w)
    ensures ValidFrame(w, p.frame)
    ensures p in KeptSlots(w, frames) <==>
              && p.frame in frames && Present(w, p) && Base(AliceQubit(w, p)) == Base(BobQubit(w, p))
              && (w.discarded == {} || w.emitted(p.frame).intensities == []
                  || w.emitted(p.frame).intensities[p.index] !in w.discarded)
    decreases |frames|
  {
    if frames != {} {
      var f := Least(frames);
      KeptExact(w, frames - {f}, p);
      assert ValidFrame(w, f);
      FrameAgreement(w.emitted(f), w.detected(f).detections, w.discarded);
      assert p in AtFrame(f, KeptInFrame(w, f)) <==> p.frame == f && p.index in KeptInFrame(w, f) by {
        if p.frame == f && p.index in KeptInFrame(w, f) {
          var j :| 0 <= j < |KeptInFrame(w, f)| && KeptInFrame(w, f)[j] == p.index;
          assert AtFrame(f, KeptInFrame(w, f))[j] == p;
        }
      }
    }
  }

  // The kept positions are those whose bits Alice packs, so they come in order.
  lemma {:induction false} KeptAreSifted(w: World, frames: set<SequenceNumber>, all: set<SequenceNumber>)
    requires ValidWorld(w) && frames <= all && AllReadable(AliceQubits(w, all), WorldAnswers(w, all))
    ensures KeptSlots(w, frames) == SiftedPositions(frames, AliceQubits(w, all), WorldAnswers(w, all), w.discarded)
    decreases |frames|
  {
    if frames != {} {
      var f := Least(frames);
      KeptAreSifted(w, frames - {f}, all);
      assert ValidFrame(w, f);
    }
  }

  lemma KeptInOrder(w: World, frames: set<SequenceNumber>)
    requires ValidWorld(w)
    ensures InOrder(KeptSlots(w, frames))
  {
    WorldReadable(w, frames);
    KeptAreSifted(w, frames, frames);
    SiftedBitsExact(frames, AliceQubits(w, frames), WorldAnswers(w, frames), w.discarded);
  }

  /** The bits each party sifts from some of the frames, read off the kept positions. */
  ghost predicate BitsAtKept(w: World, kept: seq<Position>, alice: seq<bool>, bob: seq<bool>) {
    && |alice| == |kept| == |bob|
    && forall j :: 0 <= j < |kept| ==>
         Present(w, kept[j]) && alice[j] == BitValue(AliceQubit(w, kept[j])) && bob[j] == BitValue(BobQubit(w, kept[j]))
  }

  lemma FrameBitsAtKept(w: World, f: SequenceNumber)
    requires ValidWorld(w)
    ensures var ans := AnswersTo(w.emitted(f), w.detected(f).detections, w.discarded);
            && Readable(ans, |w.detected(f).detections|)
            && BitsAtKept(w, AtFrame(f, KeptInFrame(w, f)),
                          FrameBits(w.emitted(f).emissions, ans, w.discarded),
                          FrameBits(B.Values(w.detected(f).detections), ans, w.discarded))
  {
    assert ValidFrame(w, f);
    FrameAgreement(w.emitted(f), w.detected(f).detections, w.discarded);
  }

  lemma NothingAtKept(w: World)
    ensures BitsAtKept(w, [], [], [])
  {
  }

  lemma AtKeptConcat(w: World, k: seq<Position>, a: seq<bool>, b: seq<bool>,
                     k': seq<Position>, a': seq<bool>, b': seq<bool>)
    requires BitsAtKept(w, k, a, b) && BitsAtKept(w, k', a', b')
    ensures BitsAtKept(w, k + k', a + a', b + b')
  {
  }

  lemma {:induction false} SiftedBitsAtKept(w: World, frames: set<SequenceNumber>, all: set<SequenceNumber>)
    requires ValidWorld(w) && frames <= all
    requires AllReadable(AliceQubits(w, all), WorldAnswers(w, all)) && AllReadable(BobQubits(w, all), WorldAnswers(w, all))
    ensures BitsAtKept(w, KeptSlots(w, frames),
                       SiftedBits(frames, AliceQubits(w, all), WorldAnswers(w, all), w.discarded),
                       SiftedBits(frames, BobQubits(w, all), WorldAnswers(w, all), w.discarded))
    decreases |frames|
  {
    hide KeptInFrame, FrameBits, BitsAtKept;
    if frames == {} {
      NothingAtKept(w);
    } else {
      var f := Least(frames);
      var alice, bob := AliceQubits(w, all), BobQubits(w, all);
      var answers := WorldAnswers(w, all);
      SiftedBitsAtKept(w, frames - {f}, all);
      FrameBitsAtKept(w, f);
      AtKeptConcat(w, AtFrame(f, KeptInFrame(w, f)), Contribution(f, alice, answers, w.discarded),
                   Contribution(f, bob, answers, w.discarded), KeptSlots(w, frames - {f}),
                   SiftedBits(frames - {f}, alice, answers, w.discarded),
                   SiftedBits(frames - {f}, bob, answers, w.discarded));
    }
  }

  /**
   * Both parties sift equally many bits from a batch, one per kept position; they differ exactly at
   * the kept positions where the two values differ.
   */
  lemma BatchBits(w: World, frames: set<SequenceNumber>)
    requires ValidWorld(w)
    ensures BitsAtKept(w, KeptSlots(w, frames), AliceBits(w, frames), BobBits(w, frames))
    ensures AliceBits(w, frames) == BobBits(w, frames)
       <==> forall p :: p in KeptSlots(w, frames) ==> Present(w, p) && BitValue(AliceQubit(w, p)) == BitValue(BobQubit(w, p))
  {
    WorldReadable(w, frames);
    SiftedBitsAtKept(w, frames, frames);
    var kept := KeptSlots(w, frames);
    if AliceBits(w, frames) == BobBits(w, frames) {
      forall p | p in kept ensures Present(w, p) && BitValue(AliceQubit(w, p)) == BitValue(BobQubit(w, p)) {
        var j :| 0 <= j < |kept| && kept[j] == p;
      }
    }
  }

  lemma NoiselessBatch(w: World, frames: set<SequenceNumber>)
    requires ValidWorld(w) && Noiseless(w)
    ensures AliceBits(w, frames) == BobBits(w, frames)
  {
    BatchBits(w, frames);
    forall p | p in KeptSlots(w, frames) ensures Present(w, p) && BitValue(AliceQubit(w, p)) == BitValue(BobQubit(w, p)) {
      KeptExact(w, frames, p);
    }
  }

  // ---------- The transition system ----------

  const INITIAL: System := System(A.VerifierState(map[], 0, []), B.ReceiverState(map[], 0, 0, []), Idle, [], [], [])

  ghost function BatchOf(w: World, frames: set<SequenceNumber>): B.Batch {
    map f | f in frames :: w.detected(f)
  }

  ghost function CallFrames(c: Call): set<SequenceNumber> {
    Frames(c.start, c.end)
  }

  ghost predicate GoodRequest(w: World, r: Request) {
    r.call.start < r.call.end && r.basis == B.RequestFor(BatchOf(w, CallFrames(r.call)))
  }

  /** The call Bob is waiting in. */
  ghost function Current(s: System): Call
    requires !s.link.Idle?
  {
    Call(s.link.start, s.bob.firstSeq)
  }

  /** The answer on its way, if any, is the only one, and nothing handled after it has reached Bob. */
  ghost predicate Tracked(s: System) {
    && (s.link.Replied? ==> s.link.entry < |s.handled|)
    && (s.link.Replied? ==> s.handled[s.link.entry].call == Current(s))
    && (s.link.Replied? ==> s.handled[s.link.entry].fate == if s.link.result.Aborted? then Aborted else Outstanding)
    && (forall i :: 0 <= i < |s.handled| && s.handled[i].fate.Outstanding? ==> s.link.Replied? && i == s.link.entry)
    && (s.link.Replied? ==> forall i :: s.link.entry < i < |s.handled| ==> !s.handled[i].fate.Delivered?)
  }

  /** Everything Alice has stored is what was emitted. */
  ghost predicate StoresEmitted(w: World, collected: map<SequenceNumber, EmitterReport>) {
    forall f :: f in collected ==> collected[f] == w.emitted(f)
  }

  ghost predicate Inv(w: World, s: System) {
    && ValidWorld(w)
    && StoresEmitted(w, s.alice.collected)
    && (forall f :: f in s.bob.collected ==> s.bob.collected[f] == w.detected(f))
    && (!s.link.Idle? ==> s.link.start < s.bob.firstSeq
                          && s.link.batch == BatchOf(w, Frames(s.link.start, s.bob.firstSeq)))
    && (s.link.Replied? && s.link.result.Answered? ==>
          s.link.result.answers == WorldAnswers(w, Frames(s.link.start, s.bob.firstSeq)))
    && (forall i :: 0 <= i < |s.abandoned| ==> GoodRequest(w, s.abandoned[i]))
    && Tracked(s)
  }

  /** Bob's worker leaves the call. */
  ghost function Finished(s: System): System
    requires !s.link.Idle?
  {
    s.(link := Idle, calls := s.calls + [Current(s)])
  }

  /** Bob's worker leaves an answered call, and the fate of the answer is settled. */
  ghost function Settle(s: System, fate: Fate): System
    requires s.link.Replied? && s.link.entry < |s.handled|
  {
    Finished(s).(handled := s.handled[s.link.entry := Handled(Current(s), fate)])
  }

  lemma InvReadable(w: World, s: System)
    requires Inv(w, s)
    ensures A.AllWellFormed(s.alice.collected)
    ensures s.link.Replied? && s.link.result.Answered?
            ==> AllReadable(B.BatchValues(s.link.batch), s.link.result.answers)
  {
    forall f | f in s.alice.collected ensures A.WellFormed(s.alice.collected[f]) {
      assert ValidFrame(w, f);
    }
    if s.link.Replied? {
      WorldReadable(w, Frames(s.link.start, s.bob.firstSeq));
      assert B.BatchValues(s.link.batch) == BobQubits(w, Frames(s.link.start, s.bob.firstSeq));
    }
  }

  /** One atomic step; a step that is not possible changes nothing. */
  ghost function Next(w: World, s: System, step: Step): System
    requires Inv(w, s)
  {
    InvReadable(w, s);
    match step
    case Emit(f) => s.(alice := A.Store(s.alice, w.emitted(f)))
    case Detect(f) => s.(bob := B.Store(s.bob, w.detected(f)))
    case TakeBatch =>
      if s.link.Idle? && B.Ready(s.bob.collected.Keys, s.bob.firstSeq, w.minFrames) then
        var (bob, batch) := B.Take(s.bob);
        s.(bob := bob, link := Calling(s.bob.firstSeq, batch))
      else s
    case Verify =>
      if s.link.Calling? then
        var (alice, result) := A.Verify(s.alice, B.RequestFor(s.link.batch), w.discarded);
        s.(alice := alice, link := Replied(s.link.start, s.link.batch, result, |s.handled|),
           handled := s.handled + [Handled(Current(s), if result.Aborted? then Aborted else Outstanding)])
      else s
    case Deliver =>
      if s.link.Replied? then
        match s.link.result
        case Aborted => Finished(s)
        case Answered(answers) =>
          Settle(s, Delivered).(bob := B.Publish(s.bob, s.link.batch, answers, w.discarded))
      else s
    case Lose =>
      if s.link.Idle? then s
      else if s.link.Replied? && s.link.result.Answered? then Settle(s, Unheard)
      else Finished(s)
    case Abandon =>
      if s.link.Calling? then
        Finished(s).(abandoned := s.abandoned + [Request(Current(s), B.RequestFor(s.link.batch))])
      else s
    case VerifyLate(k) =>
      if k < |s.abandoned| then
        var r := s.abandoned[k];
        var (alice, result) := A.Verify(s.alice, r.basis, w.discarded);
        s.(alice := alice, abandoned := s.abandoned[..k] + s.abandoned[k + 1..],
           handled := s.handled + [Handled(r.call, if result.Aborted? then Aborted else Unheard)])
      else s
  }

  // What a batch and a call for it contain.
  lemma TakeGivesRun(w: World, s: System)
    requires Inv(w, s) && B.Ready(s.bob.collected.Keys, s.bob.firstSeq, w.minFrames)
    ensures var (bob, batch) := B.Take(s.bob);
            && bob.firstSeq >= s.bob.firstSeq + w.minFrames > s.bob.firstSeq
            && batch == BatchOf(w, Frames(s.bob.firstSeq, bob.firstSeq))
            && bob.firstSeq !in s.bob.collected
            && bob.collected == s.bob.collected - Frames(s.bob.firstSeq, bob.firstSeq)
  {
    hide A.Verify, B.Publish;
    var end := B.RunEnd(s.bob.collected.Keys, s.bob.firstSeq);
    assert B.Run(s.bob.collected, s.bob.firstSeq).Keys == Frames(s.bob.firstSeq, end);
    assert Frames(s.bob.firstSeq, end) <= s.bob.collected.Keys;
  }

  ghost predicate AliceHas(s: System, frames: set<SequenceNumber>) {
    frames <= s.alice.collected.Keys
  }

  ghost function ReportsOf(w: World, frames: set<SequenceNumber>): map<SequenceNumber, EmitterReport> {
    map f | f in frames :: w.emitted(f)
  }

  lemma RequestedReports(w: World, collected: map<SequenceNumber, EmitterReport>, r: Request)
    requires StoresEmitted(w, collected) && GoodRequest(w, r)
    ensures A.Requested(collected, r.basis)
         == if CallFrames(r.call) <= collected.Keys then ReportsOf(w, CallFrames(r.call)) else map[]
    ensures ReportsOf(w, CallFrames(r.call)) != map[]
  {
    assert r.basis.Keys == CallFrames(r.call);
    assert r.call.start in r.basis;
    assert r.call.start in ReportsOf(w, CallFrames(r.call));
  }

  lemma ReportsVerified(w: World, r: Request)
    requires ValidWorld(w) && GoodRequest(w, r)
    ensures var frames := CallFrames(r.call);
            && A.AllWellFormed(ReportsOf(w, frames)) && r.basis.Keys == frames
            && A.VerifiedBits(ReportsOf(w, frames), r.basis, w.discarded) == AliceBits(w, frames)
            && A.Answers(ReportsOf(w, frames), r.basis, w.discarded) == WorldAnswers(w, frames)
  {
    hide SiftedBits;
    var frames := CallFrames(r.call);
    forall f | f in frames ensures A.WellFormed(w.emitted(f)) {
      assert ValidFrame(w, f);
    }
    assert A.Emissions(ReportsOf(w, frames)) == AliceQubits(w, frames);
    assert A.Answers(ReportsOf(w, frames), r.basis, w.discarded) == WorldAnswers(w, frames);
    assert ReportsOf(w, frames).Keys == frames;
  }

  // What Alice makes of a request, handled in time or late.
  lemma VerifyAnswers(w: World, s: System, r: Request)
    requires Inv(w, s) && A.AllWellFormed(s.alice.collected) && GoodRequest(w, r)
    ensures var frames := CallFrames(r.call);
            var (alice, result) := A.Verify(s.alice, r.basis, w.discarded);
            && alice.collected == s.alice.collected - (if AliceHas(s, frames) then frames else {})
            && alice.sequence == s.alice.sequence + 1
            && alice.published == s.alice.published +
                 [Publication(s.alice.sequence, Pack(if AliceHas(s, frames) then AliceBits(w, frames) else []))]
            && result == if AliceHas(s, frames) then A.Answered(WorldAnswers(w, frames)) else A.Aborted
  {
    hide Pack, Inv, GoodRequest, ValidWorld, AliceBits, WorldAnswers, A.VerifiedBits, A.Answers, A.Requested, A.AllWellFormed;
    InvCollected(w, s);
    RequestedReports(w, s.alice.collected, r);
    ReportsVerified(w, r);
    NothingVerified(r.basis, w.discarded);
    assert ReportsOf(w, CallFrames(r.call)).Keys == CallFrames(r.call);
  }

  lemma InvCollected(w: World, s: System)
    requires Inv(w, s)
    ensures ValidWorld(w) && StoresEmitted(w, s.alice.collected)
  {
  }

  lemma NothingVerified(request: BasisByFrame, discarded: set<Intensity>)
    ensures A.AllWellFormed(map[]) && A.VerifiedBits(map[], request, discarded) == []
  {
  }

  lemma DeliverPublishes(w: World, bob: B.ReceiverState, frames: set<SequenceNumber>)
    requires ValidWorld(w)
    ensures AllReadable(B.BatchValues(BatchOf(w, frames)), WorldAnswers(w, frames))
    ensures B.Publish(bob, BatchOf(w, frames), WorldAnswers(w, frames), w.discarded)
         == bob.(sequence := bob.sequence + 1,
                 published := bob.published + [Publication(bob.sequence, Pack(BobBits(w, frames)))])
  {
    hide Pack;
    WorldReadable(w, frames);
    assert B.BatchValues(BatchOf(w, frames)) == BobQubits(w, frames);
    assert BatchOf(w, frames).Keys == frames;
  }

  lemma InvInitial(w: World)
    requires ValidWorld(w)
    ensures Inv(w, INITIAL)
  {
  }

  lemma InvVerify(w: World, s: System)
    requires Inv(w, s) && s.link.Calling?
    ensures Inv(w, Next(w, s, Verify))
  {
    hide A.Verify, B.Ready, GoodRequest, Pack, AliceBits, BobBits;
    InvReadable(w, s);
    CurrentIsGood(w, s);
    VerifyAnswers(w, s, Request(Current(s), B.RequestFor(s.link.batch)));
  }

  lemma InvVerifyLate(w: World, s: System, k: nat)
    requires Inv(w, s) && k < |s.abandoned|
    ensures Inv(w, Next(w, s, VerifyLate(k)))
  {
    hide A.Verify, B.Ready, GoodRequest, Pack, AliceBits, BobBits;
    InvReadable(w, s);
    VerifyAnswers(w, s, s.abandoned[k]);
  }

  /** Bob publishes a block of the kept bits of his call. */
  ghost function Published(w: World, s: System): B.ReceiverState
    requires ValidWorld(w) && !s.link.Idle?
  {
    s.bob.(sequence := s.bob.sequence + 1,
           published := s.bob.published + [Publication(s.bob.sequence, Pack(BobBits(w, CallFrames(Current(s)))))])
  }

  // What delivering an answer comes to.
  lemma DeliverStep(w: World, s: System)
    requires Inv(w, s) && s.link.Replied? && s.link.result.Answered?
    ensures Next(w, s, Deliver) == Settle(s, Delivered).(bob := Published(w, s))
  {
    hide B.Publish, Pack, Tracked, GoodRequest, BatchOf, WorldAnswers;
    InvReadable(w, s);
    DeliverPublishes(w, s.bob, CallFrames(Current(s)));
  }

  lemma InvDeliver(w: World, s: System)
    requires Inv(w, s) && s.link.Replied? && s.link.result.Answered?
    ensures Inv(w, Settle(s, Delivered).(bob := Published(w, s)))
  {
    hide Pack, GoodRequest, BatchOf, AliceBits, BobBits, WorldAnswers, StoresEmitted, ValidWorld;
  }

  lemma InvReport(w: World, s: System, step: Step)
    requires Inv(w, s) && (step.Emit? || step.Detect?)
    ensures Inv(w, Next(w, s, step))
  {
    hide GoodRequest;
    assert ValidFrame(w, step.frame);
  }

  lemma InvTake(w: World, s: System)
    requires Inv(w, s)
    ensures Inv(w, Next(w, s, TakeBatch))
  {
    hide GoodRequest, B.Take, B.Ready;
    if s.link.Idle? && B.Ready(s.bob.collected.Keys, s.bob.firstSeq, w.minFrames) {
      TakeGivesRun(w, s);
      TakeKeepsReports(s.bob);
    }
  }

  lemma TakeKeepsReports(bob: B.ReceiverState)
    ensures var taken := B.Take(bob).0;
            && taken.published == bob.published && taken.sequence == bob.sequence
            && forall f :: f in taken.collected ==> f in bob.collected && taken.collected[f] == bob.collected[f]
  {
  }

  lemma InvLeave(w: World, s: System, step: Step)
    requires Inv(w, s) && (step.Lose? || step.Abandon?)
    ensures Inv(w, Next(w, s, step))
  {
    hide GoodRequest, BatchOf;
    if step.Abandon? && s.link.Calling? {
      CurrentIsGood(w, s);
    }
  }

  lemma InvNext(w: World, s: System, step: Step)
    requires Inv(w, s)
    ensures Inv(w, Next(w, s, step))
  {
    hide Inv, A.Verify, B.Take, B.Publish, B.Ready;
    match step
    case Emit(_) => InvReport(w, s, step);
    case Detect(_) => InvReport(w, s, step);
    case TakeBatch => InvTake(w, s);
    case Verify => if s.link.Calling? { InvVerify(w, s); }
    case Deliver =>
      if s.link.Replied? {
        if s.link.result.Answered? {
          DeliverStep(w, s);
          InvDeliver(w, s);
        } else {
          InvLeave(w, s, Lose);
        }
      }
    case Lose => InvLeave(w, s, step);
    case Abandon => InvLeave(w, s, step);
    case VerifyLate(k) => if k < |s.abandoned| { InvVerifyLate(w, s, k); }
  }

  lemma CurrentIsGood(w: World, s: System)
    requires Inv(w, s) && s.link.Calling?
    ensures GoodRequest(w, Request(Current(s), B.RequestFor(s.link.batch)))
  {
  }

  /** The state after any list of steps. */
  ghost function RunFrom(w: World, s: System, steps: seq<Step>): (r: System)
    requires Inv(w, s)
    ensures Inv(w, r)
  {
    if steps == [] then s
    else
      var last := |steps| - 1;
      InvNext(w, RunFrom(w, s, steps[..last]), steps[last]);
      Next(w, RunFrom(w, s, steps[..last]), steps[last])
  }

  ghost function Run(w: World, steps: seq<Step>): (r: System)
    requires ValidWorld(w)
    ensures Inv(w, r)
  {
    InvInitial(w);
    RunFrom(w, INITIAL, steps)
  }
}
