/** Theorems about every run of the two-party sifting protocol. */
module SiftRuns {
  import opened Qubits
  import opened BitPacking
  import opened Sifting
  import A = SiftVerifier
  import B = SiftReceiver
  import opened SiftLog
  import opened SiftProtocol

  // ---------- What has been published, as bits ----------

  /** The requests Alice has handled, with the bits each party sifts from them. */
  ghost function Records(w: World, handled: seq<Handled>): (records: seq<Record>)
    requires ValidWorld(w)
    ensures |records| == |handled|
  {
    seq(|handled|, i requires 0 <= i < |handled| => RecordOf(w, handled[i]))
  }

  ghost function RecordOf(w: World, h: Handled): Record
    requires ValidWorld(w)
  {
    Record(AliceBits(w, CallFrames(h.call)), BobBits(w, CallFrames(h.call)), h.fate)
  }

  lemma RecordsAppend(w: World, handled: seq<Handled>, h: Handled)
    requires ValidWorld(w)
    ensures Records(w, handled + [h]) == Records(w, handled) + [RecordOf(w, h)]
  {
  }

  lemma RecordsUpdate(w: World, handled: seq<Handled>, k: nat, h: Handled)
    requires ValidWorld(w) && k < |handled|
    ensures Records(w, handled[k := h]) == Records(w, handled)[k := RecordOf(w, h)]
  {
  }

  /** The calls ask about consecutive, large enough frame ranges; they end at `end`. */
  ghost predicate Chained(calls: seq<Call>, end: SequenceNumber, minFrames: nat)
    decreases |calls|
  {
    if calls == [] then end == 0
    else
      var c := calls[|calls| - 1];
      c.end == end && c.start + minFrames <= c.end && c.start < c.end
      && Chained(calls[..|calls| - 1], c.start, minFrames)
  }

  /** The first frame whose call has not finished. */
  ghost function Settled(s: System): SequenceNumber {
    if s.link.Idle? then s.bob.firstSeq else s.link.start
  }

  ghost predicate PublishedBy(published: seq<Publication>, sequence: SequenceNumber, log: seq<seq<bool>>) {
    published == Numbered(log) && sequence == |log|
  }

  ghost predicate Chain(w: World, s: System) {
    && Chained(s.calls, Settled(s), w.minFrames)
    && (!s.link.Idle? ==> Settled(s) + w.minFrames <= s.bob.firstSeq && Settled(s) < s.bob.firstSeq)
  }

  ghost predicate History(w: World, s: System)
    requires ValidWorld(w)
  {
    && PublishedBy(s.alice.published, s.alice.sequence, AliceLog(Records(w, s.handled)))
    && PublishedBy(s.bob.published, s.bob.sequence, BobLog(Records(w, s.handled)))
    && Chain(w, s)
  }

  // A request just handled adds one block to Alice's log and none to Bob's.
  lemma LogsHandled(w: World, handled: seq<Handled>, h: Handled)
    requires ValidWorld(w) && !h.fate.Delivered?
    ensures var before, after := Records(w, handled), Records(w, handled + [h]);
            && BobLog(after) == BobLog(before)
            && Numbered(AliceLog(after)) == Numbered(AliceLog(before)) + [Publication(|handled|, Pack(AliceBlock(RecordOf(w, h))))]
  {
    hide AliceLog, BobLog, Numbered, Records, AliceBlock;
    RecordsAppend(w, handled, h);
    var before, r := Records(w, handled), RecordOf(w, h);
    AliceLogAppend(before, r);
    BobLogAppend(before, r);
    NumberedAppend(AliceLog(before), AliceBlock(r));
    assert BobLog(before) + [] == BobLog(before);
  }

  ghost predicate SameParts(s: System, s': System) {
    s'.bob == s.bob && Settled(s') == Settled(s) && s'.calls == s.calls && (s'.link.Idle? <==> s.link.Idle?)
  }

  lemma HistoryHandled(w: World, s: System, s': System, r: Request)
    requires Inv(w, s) && History(w, s) && GoodRequest(w, r) && A.AllWellFormed(s.alice.collected)
    requires SameParts(s, s')
    requires var (alice, result) := A.Verify(s.alice, r.basis, w.discarded);
             s'.alice == alice && |s'.handled| == |s.handled| + 1
             && s'.handled[..|s.handled|] == s.handled && s'.handled[|s.handled|].call == r.call
             && !s'.handled[|s.handled|].fate.Delivered?
             && (s'.handled[|s.handled|].fate.Aborted? <==> result.Aborted?)
    ensures History(w, s')
  {
    hide A.Verify, AliceLog, BobLog, Numbered, Records, Chained, Inv, GoodRequest;
    VerifyAnswers(w, s, r);
    var h := s'.handled[|s.handled|];
    assert s'.handled == s.handled + [h];
    assert ValidWorld(w) by { InvCollected(w, s); }
    LogsHandled(w, s.handled, h);
  }

  // Leaving a call lengthens the chain by that call.
  lemma ChainFinished(w: World, s: System)
    requires Chain(w, s) && !s.link.Idle?
    ensures Chain(w, Finished(s))
  {
    var calls := Finished(s).calls;
    assert calls[..|calls| - 1] == s.calls;
  }

  lemma HistoryFinished(w: World, s: System, s': System)
    requires ValidWorld(w) && History(w, s) && !s.link.Idle?
    requires s' == Finished(s).(abandoned := s'.abandoned)
    ensures History(w, s')
  {
    hide AliceLog, BobLog, Numbered, Records, Chained;
    ChainFinished(w, s);
  }

  // Settling the answer on its way adds Bob's block if it is delivered, and nothing otherwise.
  lemma LogsOfSettled(w: World, s: System, fate: Fate)
    requires Inv(w, s) && s.link.Replied? && s.link.result.Answered? && !fate.Aborted?
    ensures var before, after := Records(w, s.handled), Records(w, Settle(s, fate).handled);
            && AliceLog(after) == AliceLog(before)
            && BobLog(after) == BobLog(before)
                 + if fate.Delivered? then [BobBits(w, CallFrames(Current(s)))] else []
  {
    hide AliceLog, BobLog, AliceBits, BobBits, GoodRequest;
    var k, h := s.link.entry, Handled(Current(s), fate);
    var before := Records(w, s.handled);
    RecordsUpdate(w, s.handled, k, h);
    assert before[k] == RecordOf(w, s.handled[k]);
    assert RecordOf(w, h) == before[k].(fate := fate);
    assert NoneDeliveredFrom(before, k);
    LogsSettled(before, k, fate);
  }

  lemma HistorySettled(w: World, s: System, fate: Fate)
    requires Inv(w, s) && History(w, s) && s.link.Replied? && s.link.result.Answered? && fate.Unheard?
    ensures History(w, Settle(s, fate))
  {
    hide AliceLog, BobLog, Numbered, Records, Chained, Inv;
    assert ValidWorld(w) by { InvCollected(w, s); }
    LogsOfSettled(w, s, fate);
    ChainFinished(w, s);
    var log := BobLog(Records(w, s.handled));
    assert log + [] == log;
  }

  lemma HistoryDelivered(w: World, s: System)
    requires Inv(w, s) && History(w, s) && s.link.Replied? && s.link.result.Answered?
    ensures History(w, Settle(s, Delivered).(bob := Published(w, s)))
  {
    hide AliceLog, BobLog, Numbered, Records, Chained, Pack, Inv;
    assert ValidWorld(w) by { InvCollected(w, s); }
    LogsOfSettled(w, s, Delivered);
    ChainFinished(w, s);
    NumberedAppend(BobLog(Records(w, s.handled)), BobBits(w, CallFrames(Current(s))));
  }

  lemma HistoryVerify(w: World, s: System)
    requires Inv(w, s) && History(w, s) && s.link.Calling?
    ensures History(w, Next(w, s, Verify))
  {
    hide A.Verify, History, GoodRequest;
    InvReadable(w, s);
    CurrentIsGood(w, s);
    HistoryHandled(w, s, Next(w, s, Verify), Request(Current(s), B.RequestFor(s.link.batch)));
  }

  lemma HistoryVerifyLate(w: World, s: System, k: nat)
    requires Inv(w, s) && History(w, s) && k < |s.abandoned|
    ensures History(w, Next(w, s, VerifyLate(k)))
  {
    hide A.Verify, History, GoodRequest;
    InvReadable(w, s);
    HistoryHandled(w, s, Next(w, s, VerifyLate(k)), s.abandoned[k]);
  }

  lemma HistoryTake(w: World, s: System)
    requires Inv(w, s) && History(w, s)
    ensures History(w, Next(w, s, TakeBatch))
  {
    hide AliceLog, BobLog, Numbered, Records, Chained, B.Take, B.Ready;
    if s.link.Idle? && B.Ready(s.bob.collected.Keys, s.bob.firstSeq, w.minFrames) {
      TakeGivesRun(w, s);
      TakeKeepsReports(s.bob);
    }
  }

  lemma HistoryNext(w: World, s: System, step: Step)
    requires Inv(w, s) && History(w, s)
    ensures History(w, Next(w, s, step))
  {
    hide A.Verify, B.Take, B.Publish, B.Ready, AliceLog, BobLog, Numbered, Records, Chained, GoodRequest;
    match step
    case Emit(f) =>
    case Detect(f) =>
    case TakeBatch => HistoryTake(w, s);
    case Verify => if s.link.Calling? { HistoryVerify(w, s); }
    case Deliver =>
      if s.link.Replied? {
        if s.link.result.Answered? {
          DeliverStep(w, s);
          HistoryDelivered(w, s);
        } else {
          HistoryFinished(w, s, Finished(s));
        }
      }
    case Lose =>
      if s.link.Replied? && s.link.result.Answered? { HistorySettled(w, s, Unheard); }
      else if !s.link.Idle? { HistoryFinished(w, s, Finished(s)); }
    case Abandon => if s.link.Calling? { HistoryFinished(w, s, Next(w, s, Abandon)); }
    case VerifyLate(k) => if k < |s.abandoned| { HistoryVerifyLate(w, s, k); }
  }

  lemma {:induction false} RunHistory(w: World, steps: seq<Step>)
    requires ValidWorld(w)
    ensures History(w, Run(w, steps))
  {
    InvInitial(w);
    if steps == [] {
      assert Records(w, []) == [];
    } else {
      hide History, Inv;
      var last := |steps| - 1;
      RunHistory(w, steps[..last]);
      HistoryNext(w, Run(w, steps[..last]), steps[last]);
    }
  }

  // ---------- The byte streams ----------

  // The two streams of any reachable state.
  lemma RunStreams(w: World, steps: seq<Step>)
    requires ValidWorld(w)
    ensures var s := Run(w, steps);
            && Bytes(s.alice.published) == LogBytes(AliceLog(Records(w, s.handled)))
            && Bytes(s.bob.published) == LogBytes(BobLog(Records(w, s.handled)))
  {
    hide Run, AliceLog, BobLog, Numbered, Records, Bytes, LogBytes, Chain;
    RunHistory(w, steps);
    var records := Records(w, Run(w, steps).handled);
    BytesOfNumbered(AliceLog(records));
    BytesOfNumbered(BobLog(records));
  }

  /** Every answer with bits has reached Bob; `settled` leaves out an answer that is still on its way. */
  ghost predicate BitsHeard(w: World, s: System, settled: bool)
    requires ValidWorld(w)
  {
    forall i :: 0 <= i < |s.handled| && (s.handled[i].fate.Unheard? || (!settled && s.handled[i].fate.Outstanding?))
      ==> AliceBits(w, CallFrames(s.handled[i].call)) == []
  }

  lemma BitsHeardInRecords(w: World, s: System)
    requires ValidWorld(w)
    ensures BitsHeard(w, s, false) <==> AllBitsHeard(Records(w, s.handled))
  {
    hide AliceBits, BobBits;
    var records := Records(w, s.handled);
    assert forall i :: 0 <= i < |records| ==> records[i] == RecordOf(w, s.handled[i]);
  }

  lemma NoiselessRecords(w: World, handled: seq<Handled>)
    requires ValidWorld(w) && Noiseless(w)
    ensures SameBits(Records(w, handled))
  {
    var records := Records(w, handled);
    forall i | 0 <= i < |records| ensures records[i].alice == records[i].bob {
      NoiselessBatch(w, CallFrames(handled[i].call));
    }
  }

  // Before the answer on its way arrives, Bob's stream is a prefix of Alice's.
  lemma HeardIsPrefix(w: World, s: System)
    requires Inv(w, s) && Noiseless(w) && BitsHeard(w, s, true)
    ensures LogBytes(BobLog(Records(w, s.handled))) <= LogBytes(AliceLog(Records(w, s.handled)))
  {
    hide AliceLog, BobLog, LogBytes, AliceBits, BobBits, GoodRequest;
    var records := Records(w, s.handled);
    NoiselessRecords(w, s.handled);
    if s.link.Replied? {
      assert forall i :: 0 <= i < |records| ==> records[i] == RecordOf(w, s.handled[i]);
      assert NoneDeliveredFrom(records, s.link.entry + 1);
      if s.link.result.Answered? {
        PrefixStreams(records, s.link.entry);
      } else {
        BitsHeardInRecords(w, s);
        SameBitsStreams(records);
      }
    } else {
      BitsHeardInRecords(w, s);
      SameBitsStreams(records);
    }
  }

  /**
   * Over a channel without errors, in every reachable state, Alice and Bob have published the same bytes
   * exactly when every answer of hers that carried bits has reached him; aborted requests do no harm.
   * As long as the only such answer he may lack is still on its way, what Bob has published is a prefix
   * of what Alice has.
   */
  lemma StreamsAgreeIff(w: World, steps: seq<Step>)
    requires ValidWorld(w) && Noiseless(w)
    ensures var s := Run(w, steps);
            && (Bytes(s.alice.published) == Bytes(s.bob.published) <==> BitsHeard(w, s, false))
            && (BitsHeard(w, s, true) ==> Bytes(s.bob.published) <= Bytes(s.alice.published))
  {
    hide AliceLog, BobLog, LogBytes, Bytes, Records, BitsHeard, AllBitsHeard, Inv, Noiseless;
    var s := Run(w, steps);
    RunStreams(w, steps);
    BitsHeardInRecords(w, s);
    NoiselessRecords(w, s.handled);
    SameBitsStreams(Records(w, s.handled));
    if BitsHeard(w, s, true) {
      HeardIsPrefix(w, s);
    }
  }

  /** Every kept position of these frames was measured with the value that was sent. */
  ghost predicate NoKeptErrors(w: World, frames: set<SequenceNumber>)
    requires ValidWorld(w)
  {
    forall p :: p in KeptSlots(w, frames) ==> Present(w, p) && BitValue(AliceQubit(w, p)) == BitValue(BobQubit(w, p))
  }

  ghost predicate NoDeliveredErrors(w: World, handled: seq<Handled>)
    requires ValidWorld(w)
  {
    forall i :: 0 <= i < |handled| && handled[i].fate.Delivered? ==> NoKeptErrors(w, CallFrames(handled[i].call))
  }

  lemma RecordBits(w: World, h: Handled)
    requires ValidWorld(w)
    ensures |RecordOf(w, h).alice| == |RecordOf(w, h).bob|
    ensures RecordOf(w, h).alice == RecordOf(w, h).bob <==> NoKeptErrors(w, CallFrames(h.call))
  {
    hide AliceBits, BobBits, KeptSlots;
    BatchBits(w, CallFrames(h.call));
  }

  lemma DeliveredSameIff(w: World, handled: seq<Handled>)
    requires ValidWorld(w)
    ensures DeliveredSame(Records(w, handled)) <==> NoDeliveredErrors(w, handled)
  {
    hide AliceBits, BobBits, NoKeptErrors, RecordOf;
    var records := Records(w, handled);
    forall i | 0 <= i < |handled|
      ensures records[i].fate == handled[i].fate
      ensures records[i].alice == records[i].bob <==> NoKeptErrors(w, CallFrames(handled[i].call))
    {
      RecordBits(w, handled[i]);
      RecordFate(w, handled[i]);
    }
  }

  lemma RecordFate(w: World, h: Handled)
    requires ValidWorld(w)
    ensures RecordOf(w, h).fate == h.fate
  {
  }

  /**
   * On any channel, when every request Alice handled was aborted or answered with the answer delivered,
   * the streams are equally long, and equal exactly when no kept position of a delivered answer holds
   * different values.
   */
  lemma NoisyStreamsAgreeIff(w: World, steps: seq<Step>)
    requires ValidWorld(w)
    requires forall i :: 0 <= i < |Run(w, steps).handled| ==> Run(w, steps).handled[i].fate in {Delivered, Aborted}
    ensures var s := Run(w, steps);
            && |Bytes(s.alice.published)| == |Bytes(s.bob.published)|
            && (Bytes(s.alice.published) == Bytes(s.bob.published) <==> NoDeliveredErrors(w, s.handled))
  {
    hide Run, AliceLog, BobLog, LogBytes, Bytes, RecordOf, NoDeliveredErrors, DeliveredSame;
    var s := Run(w, steps);
    RunStreams(w, steps);
    var records := Records(w, s.handled);
    forall i | 0 <= i < |records|
      ensures |records[i].alice| == |records[i].bob| && records[i].fate in {Delivered, Aborted}
    {
      RecordBits(w, s.handled[i]);
      RecordFate(w, s.handled[i]);
    }
    SameLengthStreams(records);
    DeliveredSameIff(w, s.handled);
  }

  /**
   * The block numbers the two parties use next agree exactly when every request Alice ever handled was
   * answered and the answer delivered: an aborted call costs her a number, for an empty block.
   */
  lemma SequenceNumbersAgreeIff(w: World, steps: seq<Step>)
    requires ValidWorld(w)
    ensures var s := Run(w, steps);
            && s.bob.sequence <= s.alice.sequence
            && (s.alice.sequence == s.bob.sequence <==> forall i :: 0 <= i < |s.handled| ==> s.handled[i].fate.Delivered?)
  {
    hide Run, AliceLog, BobLog, Numbered, RecordOf, Chain;
    var s := Run(w, steps);
    RunHistory(w, steps);
    var records := Records(w, s.handled);
    LogLengths(records);
    forall i | 0 <= i < |s.handled| ensures records[i].fate == s.handled[i].fate {
      RecordFate(w, s.handled[i]);
    }
  }

  // ---------- What each block holds ----------

  /** The block holds one bit per position: the last binary digit of the qubit there. */
  ghost predicate HoldsDigits(block: JaggedBlock, qubits: seq<Qubit>) {
    && 0 <= block.NumBits() <= 8 * |block.bytes| && block.NumBits() == |qubits|
    && forall j :: 0 <= j < |qubits| ==> (Unpack(block)[j] <==> qubits[j] % 2 == 1)
  }

  /** What Alice sent, or Bob saw, at these positions. */
  ghost function SentAt(w: World, ps: seq<Position>): (qubits: seq<Qubit>)
    requires forall j :: 0 <= j < |ps| ==> Present(w, ps[j])
  {
    seq(|ps|, j requires 0 <= j < |ps| => AliceQubit(w, ps[j]))
  }

  ghost function SeenAt(w: World, ps: seq<Position>): (qubits: seq<Qubit>)
    requires forall j :: 0 <= j < |ps| ==> Present(w, ps[j])
  {
    seq(|ps|, j requires 0 <= j < |ps| => BobQubit(w, ps[j]))
  }

  lemma PackHoldsDigits(bits: seq<bool>, qubits: seq<Qubit>)
    requires |bits| == |qubits| && forall j :: 0 <= j < |bits| ==> bits[j] == BitValue(qubits[j])
    ensures HoldsDigits(Pack(bits), qubits)
  {
    hide Pack;
    PackSize(bits);
    UnpackPack(bits);
    forall j | 0 <= j < |qubits| ensures BitValue(qubits[j]) <==> qubits[j] % 2 == 1 {
      QubitDigits(qubits[j]);
    }
  }

  lemma FramesHoldDigits(w: World, frames: set<SequenceNumber>)
    requires ValidWorld(w)
    ensures var kept := KeptSlots(w, frames);
            && InOrder(kept) && (forall j :: 0 <= j < |kept| ==> Present(w, kept[j]))
            && HoldsDigits(Pack(AliceBits(w, frames)), SentAt(w, kept))
            && HoldsDigits(Pack(BobBits(w, frames)), SeenAt(w, kept))
  {
    hide KeptSlots, Pack, AliceBits, BobBits, HoldsDigits;
    var kept := KeptSlots(w, frames);
    KeptInOrder(w, frames);
    BatchBits(w, frames);
    PackHoldsDigits(AliceBits(w, frames), SentAt(w, kept));
    PackHoldsDigits(BobBits(w, frames), SeenAt(w, kept));
  }

  /**
   * In every reachable state Alice's block i belongs to the request she handled as number i and carries that
   * number: it holds the last binary digits of what she sent at the kept positions of its frames, in order,
   * or nothing if the request was aborted.
   */
  lemma AliceBlockExact(w: World, steps: seq<Step>, i: nat)
    requires ValidWorld(w) && i < |Run(w, steps).handled|
    ensures var s := Run(w, steps);
            var kept := if s.handled[i].fate.Aborted? then [] else KeptSlots(w, CallFrames(s.handled[i].call));
            && |s.alice.published| == |s.handled| && s.alice.published[i].id == i
            && InOrder(kept) && (forall j :: 0 <= j < |kept| ==> Present(w, kept[j]))
            && HoldsDigits(s.alice.published[i].block, SentAt(w, kept))
  {
    hide Run, KeptSlots, Pack, BobLog, AliceBits, BobBits, HoldsDigits, Chain;
    var s := Run(w, steps);
    RunHistory(w, steps);
    assert s.alice.published[i].block == Pack(AliceBlock(RecordOf(w, s.handled[i])));
    FramesHoldDigits(w, CallFrames(s.handled[i].call));
    PackHoldsDigits([], SentAt(w, []));
  }

  /** How many of the first k answers have reached Bob. */
  ghost function DeliveredBefore(handled: seq<Handled>, k: nat): (count: nat)
    requires k <= |handled|
  {
    if k == 0 then 0 else DeliveredBefore(handled, k - 1) + if handled[k - 1].fate.Delivered? then 1 else 0
  }

  lemma {:induction false} BobLogAt(w: World, handled: seq<Handled>, k: nat, n: nat)
    requires ValidWorld(w) && k < n <= |handled|
    ensures var log := BobLog(Records(w, handled)[..n]);
            && |log| == DeliveredBefore(handled, n)
            && DeliveredBefore(handled, k + 1) <= |log|
            && (handled[k].fate.Delivered? ==> log[DeliveredBefore(handled, k)] == BobBits(w, CallFrames(handled[k].call)))
  {
    hide BobBits, AliceBits;
    var records := Records(w, handled);
    assert records[..n][..n - 1] == records[..n - 1] && records[..n][n - 1] == RecordOf(w, handled[n - 1]);
    if n == 1 {
      assert records[..0] == [];
    } else {
      BobLogAt(w, handled, if k < n - 1 then k else k - 1, n - 1);
    }
  }

  /**
   * Bob's blocks belong to the answers that have reached him, in Alice's order, and are numbered from zero: each
   * holds the last binary digits of what he saw at the kept positions of its frames.
   */
  lemma BobBlockExact(w: World, steps: seq<Step>, k: nat)
    requires ValidWorld(w) && k < |Run(w, steps).handled| && Run(w, steps).handled[k].fate.Delivered?
    ensures var s := Run(w, steps);
            var kept, i := KeptSlots(w, CallFrames(s.handled[k].call)), DeliveredBefore(s.handled, k);
            && i < |s.bob.published| == DeliveredBefore(s.handled, |s.handled|) && s.bob.published[i].id == i
            && (forall j :: 0 <= j < |kept| ==> Present(w, kept[j]))
            && HoldsDigits(s.bob.published[i].block, SeenAt(w, kept))
  {
    hide Run, KeptSlots, Pack, AliceLog, BobLog, Records, AliceBits, BobBits, HoldsDigits, Chain;
    var s := Run(w, steps);
    RunHistory(w, steps);
    BobLogAt(w, s.handled, k, |s.handled|);
    assert Records(w, s.handled)[..|s.handled|] == Records(w, s.handled);
    FramesHoldDigits(w, CallFrames(s.handled[k].call));
  }

  // ---------- Consumption of frames ----------

  // Every frame before the end is in a call, and no other.
  lemma {:induction false} ChainedCovers(calls: seq<Call>, end: SequenceNumber, minFrames: nat, f: SequenceNumber)
    requires Chained(calls, end, minFrames)
    ensures f < end <==> exists i :: 0 <= i < |calls| && f in CallFrames(calls[i])
    decreases |calls|
  {
    if calls != [] {
      var last := |calls| - 1;
      var before := calls[..last];
      ChainedCovers(before, calls[last].start, minFrames, f);
      if f < calls[last].start {
        var i :| 0 <= i < |before| && f in CallFrames(before[i]);
        assert calls[i] == before[i];
      } else if f < end {
        assert f in CallFrames(calls[last]);
      } else {
        forall i | 0 <= i < |calls| ensures f !in CallFrames(calls[i]) {
          if i < last { assert calls[i] == before[i]; }
        }
      }
    }
  }

  // The calls follow each other.
  lemma {:induction false} ChainedFollow(calls: seq<Call>, end: SequenceNumber, minFrames: nat)
    requires Chained(calls, end, minFrames)
    ensures forall i :: 0 <= i < |calls| ==> calls[i].end <= end && calls[i].end - calls[i].start >= minFrames
    ensures forall i, j :: 0 <= i < j < |calls| ==> calls[i].end <= calls[j].start
    ensures forall i :: 0 < i < |calls| ==> calls[i - 1].end == calls[i].start
    ensures calls != [] ==> calls[0].start == 0 && calls[|calls| - 1].end == end
    decreases |calls|
  {
    if calls != [] {
      var last := |calls| - 1;
      var before := calls[..last];
      ChainedFollow(before, calls[last].start, minFrames);
      assert forall i :: 0 <= i < last ==> calls[i] == before[i];
      forall i | 0 < i < |calls| ensures calls[i - 1].end == calls[i].start {
        assert calls[i - 1] == before[i - 1];
      }
      forall i, j | 0 <= i < j < |calls| ensures calls[i].end <= calls[j].start {
        assert calls[i] == before[i];
        assert j < last ==> calls[j] == before[j];
      }
    }
  }

  /**
   * Whatever order frames arrive in, with gaps and repeats, Bob's calls ask about frames 0, 1, 2, ...:
   * each call starts where the one before ended, so every settled frame is in exactly one call,
   * and no call has fewer frames than the configured minimum.
   */
  lemma FramesConsumedInOrder(w: World, steps: seq<Step>, f: SequenceNumber)
    requires ValidWorld(w)
    ensures var s := Run(w, steps);
            && (f < Settled(s) <==> exists i :: 0 <= i < |s.calls| && f in CallFrames(s.calls[i]))
            && (forall i, j :: 0 <= i < j < |s.calls| ==> CallFrames(s.calls[i]) !! CallFrames(s.calls[j]))
            && (forall i :: 0 < i < |s.calls| ==> s.calls[i - 1].end == s.calls[i].start)
            && (s.calls != [] ==> s.calls[0].start == 0 && s.calls[|s.calls| - 1].end == Settled(s))
            && (forall i :: 0 <= i < |s.calls| ==> s.calls[i].end - s.calls[i].start >= w.minFrames)
  {
    hide Run, AliceLog, BobLog, Numbered, Records, Chained;
    RunHistory(w, steps);
    ChainedCovers(Run(w, steps).calls, Settled(Run(w, steps)), w.minFrames, f);
    ChainedFollow(Run(w, steps).calls, Settled(Run(w, steps)), w.minFrames);
  }

  // From the wanted frame on, Bob's store is what has been detected so far; before it, everything has been.
  lemma {:induction false} DetectedStored(w: World, steps: seq<Step>, f: SequenceNumber)
    requires ValidWorld(w)
    ensures var s := Run(w, steps);
            if f < s.bob.firstSeq then Detect(f) in steps else f in s.bob.collected <==> Detect(f) in steps
  {
    if steps != [] {
      var last := |steps| - 1;
      var s := Run(w, steps[..last]);
      DetectedStored(w, steps[..last], f);
      assert steps == steps[..last] + [steps[last]];
      StoreStep(w, s, steps[last], f);
    }
  }

  // What one step does to the place of one frame in Bob's store.
  lemma StoreStep(w: World, s: System, step: Step, f: SequenceNumber)
    requires Inv(w, s)
    ensures var s' := Next(w, s, step);
            && s.bob.firstSeq <= s'.bob.firstSeq
            && (s.bob.firstSeq <= f < s'.bob.firstSeq ==> f in s.bob.collected)
            && (s'.bob.firstSeq <= f ==> (f in s'.bob.collected <==> f in s.bob.collected || step == Detect(f)))
            && (s'.bob.firstSeq != s.bob.firstSeq ==> step.TakeBatch?)
  {
    hide A.Verify, B.Take, B.Ready, B.Publish, GoodRequest, AliceBits, BobBits;
    match step
    case Detect(g) => assert ValidFrame(w, g);
    case TakeBatch =>
      if s.link.Idle? && B.Ready(s.bob.collected.Keys, s.bob.firstSeq, w.minFrames) {
        TakeGivesRun(w, s);
        TakesStored(s.bob, f);
      }
    case Deliver =>
      if s.link.Replied? && s.link.result.Answered? { DeliverStep(w, s); }
    case _ =>
  }

  lemma TakesStored(bob: B.ReceiverState, f: SequenceNumber)
    ensures bob.firstSeq <= f < B.Take(bob).0.firstSeq ==> f in bob.collected
  {
  }

  /**
   * Whenever Bob's worker takes a batch, in any run, it is the longest contiguous run, from the wanted
   * frame on, of all frames detected so far.
   */
  lemma BatchIsMaximalRun(w: World, steps: seq<Step>, f: SequenceNumber)
    requires ValidWorld(w) && Next(w, Run(w, steps), TakeBatch) != Run(w, steps)
    ensures var s, s' := Run(w, steps), Next(w, Run(w, steps), TakeBatch);
            && s'.link.Calling? && s'.link.start == s.bob.firstSeq
            && s'.link.batch == BatchOf(w, Frames(s.bob.firstSeq, s'.bob.firstSeq))
            && s'.bob.firstSeq - s.bob.firstSeq >= w.minFrames
            && (f < s'.bob.firstSeq ==> Detect(f) in steps) && Detect(s'.bob.firstSeq) !in steps
            && (f in s'.bob.collected && f >= s.bob.firstSeq ==> f > s'.bob.firstSeq)
  {
    hide Run, B.Take;
    var s := Run(w, steps);
    TakeGivesRun(w, s);
    var s' := Next(w, s, TakeBatch);
    DetectedStored(w, steps, f);
    DetectedStored(w, steps, s'.bob.firstSeq);
    TakesStored(s.bob, f);
  }

  /**
   * In any run, Bob's worker takes a batch exactly if he is idle, the configured minimum is not zero, that many
   * frames from the wanted one on have been detected, and, for a minimum above one, no stale frame is stored.
   */
  lemma BatchTakenIff(w: World, steps: seq<Step>)
    requires ValidWorld(w)
    ensures var s := Run(w, steps);
            Next(w, s, TakeBatch) != s <==>
              && s.link.Idle? && w.minFrames >= 1
              && (forall f :: s.bob.firstSeq <= f < s.bob.firstSeq + w.minFrames ==> Detect(f) in steps)
              && (w.minFrames > 1 ==> !HasStaleFrame(s))
  {
    hide Run, B.Take;
    var s := Run(w, steps);
    forall f: nat | f >= s.bob.firstSeq ensures f in s.bob.collected <==> Detect(f) in steps {
      DetectedStored(w, steps, f);
    }
  }

  // ---------- Alice's part ----------

  /** In this step Alice handles a request. */
  ghost predicate Handling(s: System, step: Step) {
    (step.Verify? && s.link.Calling?) || (step.VerifyLate? && step.request < |s.abandoned|)
  }

  ghost function RequestAt(s: System, step: Step): Request
    requires Handling(s, step)
  {
    if step.Verify? then Request(Current(s), B.RequestFor(s.link.batch)) else s.abandoned[step.request]
  }

  /**
   * Whether in time or late: if Alice has all frames of a request she publishes their kept bits and forgets the
   * frames, otherwise she publishes an empty block, keeps her frames and the call is aborted.
   */
  lemma AliceHandles(w: World, s: System, step: Step)
    requires Inv(w, s) && Handling(s, step)
    ensures var s', r := Next(w, s, step), RequestAt(s, step);
            var has := CallFrames(r.call) <= s.alice.collected.Keys;
            && s'.alice.collected == s.alice.collected - (if has then CallFrames(r.call) else {})
            && s'.alice.sequence == s.alice.sequence + 1
            && s'.alice.published == s.alice.published
                 + [Publication(s.alice.sequence, Pack(if has then AliceBits(w, CallFrames(r.call)) else []))]
            && |s'.handled| == |s.handled| + 1 && s'.handled[|s.handled|].call == r.call
            && (s'.handled[|s.handled|].fate.Aborted? <==> !has)
  {
    hide A.Verify, Pack, AliceBits, GoodRequest;
    InvReadable(w, s);
    if step.Verify? { CurrentIsGood(w, s); }
    VerifyAnswers(w, s, RequestAt(s, step));
  }

  /**
   * Bob leaves a call when an abort reaches him, when call or reply is lost, or when he gives up; he publishes
   * nothing then, waits for the frame after the call, and a call he gives up on is still held by Alice.
   */
  lemma CallIsLeft(w: World, s: System, step: Step)
    requires Inv(w, s) && !s.link.Idle?
    requires step.Lose? || (step.Abandon? && s.link.Calling?)
             || (step.Deliver? && s.link.Replied? && s.link.result.Aborted?)
    ensures var s' := Next(w, s, step);
            && s'.link.Idle? && s'.bob == s.bob && s'.alice == s.alice && s'.calls == s.calls + [Current(s)]
            && s'.abandoned == s.abandoned
                 + if step.Abandon? then [Request(Current(s), B.RequestFor(s.link.batch))] else []
  {
    hide A.Verify, B.Take, B.Ready, B.Publish, GoodRequest;
    assert s.abandoned + [] == s.abandoned;
  }

  /** Some answered request has used up this frame. */
  ghost predicate UsedUp(s: System, f: SequenceNumber) {
    exists i :: 0 <= i < |s.handled| && !s.handled[i].fate.Aborted? && f in CallFrames(s.handled[i].call)
  }

  // Alice stores what is emitted until she has answered for it.
  lemma {:induction false} EmittedStored(w: World, steps: seq<Step>, f: SequenceNumber)
    requires ValidWorld(w)
    ensures var s := Run(w, steps);
            && (f in s.alice.collected ==> Emit(f) in steps)
            && (Emit(f) in steps ==> f in s.alice.collected || UsedUp(s, f))
  {
    if steps != [] {
      hide Next, UsedUp;
      var last := |steps| - 1;
      var s := Run(w, steps[..last]);
      EmittedStored(w, steps[..last], f);
      assert steps == steps[..last] + [steps[last]];
      EmitStep(w, s, steps[last], f);
    }
  }

  // What one step does to the place of one frame in Alice's store.
  lemma EmitStep(w: World, s: System, step: Step, f: SequenceNumber)
    requires Inv(w, s)
    ensures var s' := Next(w, s, step);
            && (f in s'.alice.collected ==> f in s.alice.collected || step == Emit(f))
            && (f in s.alice.collected || step == Emit(f) ==> f in s'.alice.collected || UsedUp(s', f))
            && (UsedUp(s, f) ==> UsedUp(s', f))
  {
    hide A.Verify, B.Take, B.Ready, B.Publish, GoodRequest, AliceBits, BobBits, Pack;
    UsedUpStays(w, s, step, f);
    if Handling(s, step) {
      AliceHandles(w, s, step);
    } else if step.Emit? {
      assert ValidFrame(w, step.frame);
    }
  }

  lemma UsedUpStays(w: World, s: System, step: Step, f: SequenceNumber)
    requires Inv(w, s)
    ensures UsedUp(s, f) ==> UsedUp(Next(w, s, step), f)
  {
    hide A.Verify, B.Take, B.Ready, B.Publish, GoodRequest, AliceBits, BobBits, Pack, CallFrames;
    if UsedUp(s, f) {
      var i :| 0 <= i < |s.handled| && !s.handled[i].fate.Aborted? && f in CallFrames(s.handled[i].call);
      var s' := Next(w, s, step);
      assert i < |s'.handled| && s'.handled[i].call == s.handled[i].call && !s'.handled[i].fate.Aborted?;
    }
  }

  /**
   * A call that goes through: if a batch can be taken and Alice has its frames, then after the call both parties
   * have published one more block, with the bits each sifts from exactly these frames.
   */
  lemma CallGoesThrough(w: World, s: System)
    requires Inv(w, s) && Next(w, s, TakeBatch) != s
    requires Frames(s.bob.firstSeq, Next(w, s, TakeBatch).bob.firstSeq) <= s.alice.collected.Keys
    ensures var frames := Frames(s.bob.firstSeq, Next(w, s, TakeBatch).bob.firstSeq);
            var r := RunFrom(w, s, [TakeBatch, Verify, Deliver]);
            && r.link.Idle? && frames != {}
            && r.alice.published == s.alice.published + [Publication(s.alice.sequence, Pack(AliceBits(w, frames)))]
            && r.bob.published == s.bob.published + [Publication(s.bob.sequence, Pack(BobBits(w, frames)))]
            && r.alice.collected == s.alice.collected - frames && r.bob.collected == s.bob.collected - frames
  {
    hide Next, Inv, Pack, AliceBits, BobBits, RunFrom, B.Take, B.Ready, GoodRequest, WorldAnswers, Tracked;
    RunNoSteps(w, s);
    RunOneMore(w, s, [], TakeBatch);
    RunOneMore(w, s, [TakeBatch], Verify);
    RunOneMore(w, s, [TakeBatch, Verify], Deliver);
    assert [] + [TakeBatch] == [TakeBatch] && [TakeBatch] + [Verify] == [TakeBatch, Verify];
    assert [TakeBatch, Verify] + [Deliver] == [TakeBatch, Verify, Deliver];
    InvNext(w, s, TakeBatch);
    var t := Next(w, s, TakeBatch);
    TakeStep(w, s);
    InvNext(w, t, Verify);
    AliceHandles(w, t, Verify);
    var v := Next(w, t, Verify);
    AnsweredStep(w, t);
    DeliverStep(w, v);
  }

  lemma TakeStep(w: World, s: System)
    requires Inv(w, s) && Next(w, s, TakeBatch) != s
    ensures var t := Next(w, s, TakeBatch);
            && t.link.Calling? && t.link.start == s.bob.firstSeq && t.alice == s.alice && t.handled == s.handled
            && s.bob.firstSeq < t.bob.firstSeq
            && t.bob.collected == s.bob.collected - Frames(s.bob.firstSeq, t.bob.firstSeq)
            && t.bob.published == s.bob.published && t.bob.sequence == s.bob.sequence
  {
    hide B.Take, B.Ready, GoodRequest;
    TakeGivesRun(w, s);
    TakeKeepsReports(s.bob);
  }

  lemma AnsweredStep(w: World, s: System)
    requires Inv(w, s) && s.link.Calling?
    ensures var v := Next(w, s, Verify);
            && v.link.Replied? && v.link.start == s.link.start && v.bob == s.bob && v.link.entry == |s.handled|
            && (v.link.result.Aborted? <==> v.handled[|s.handled|].fate.Aborted?)
  {
    hide A.Verify, GoodRequest, Tracked;
    InvReadable(w, s);
  }

  // ---------- A late duplicate ----------

  /** A frame Bob has already consumed is in his store again. */
  ghost predicate HasStaleFrame(s: System) {
    exists k :: k in s.bob.collected && k < s.bob.firstSeq
  }

  /** Since s, Bob has had a stale frame, has waited for the same frame and has made no new call. */
  ghost predicate StalledSince(s: System, r: System) {
    HasStaleFrame(r) && r.bob.firstSeq == s.bob.firstSeq && (s.link.Idle? ==> r.link.Idle?)
  }

  lemma StaleStep(w: World, s: System, r: System, step: Step)
    requires Inv(w, r) && w.minFrames > 1 && StalledSince(s, r)
    ensures StalledSince(s, Next(w, r, step))
  {
    var k :| k in r.bob.collected && k < r.bob.firstSeq;
    assert k in Next(w, r, step).bob.collected;
  }

  /**
   * With a minimum above one, a stale frame stops Bob for good: whatever happens next, the frame he
   * waits for never changes, and once he is idle he never calls again.
   */
  lemma {:induction false} StaleFrameStalls(w: World, s: System, steps: seq<Step>)
    requires Inv(w, s) && w.minFrames > 1 && HasStaleFrame(s)
    ensures StalledSince(s, RunFrom(w, s, steps))
  {
    if steps != [] {
      var last := |steps| - 1;
      StaleFrameStalls(w, s, steps[..last]);
      StaleStep(w, s, RunFrom(w, s, steps[..last]), steps[last]);
    }
  }

  // Repeating any consumed frame is how that happens.
  lemma RepeatedFrameIsStale(w: World, s: System, f: SequenceNumber)
    requires Inv(w, s) && f < s.bob.firstSeq
    ensures HasStaleFrame(Next(w, s, Detect(f)))
  {
    assert ValidFrame(w, f);
    assert f in Next(w, s, Detect(f)).bob.collected;
  }

  // With a minimum of zero no batch is ever taken.
  lemma {:induction false} ZeroMinimumStalls(w: World, s: System, steps: seq<Step>)
    requires Inv(w, s) && w.minFrames == 0
    ensures RunFrom(w, s, steps).bob.firstSeq == s.bob.firstSeq
  {
    if steps != [] {
      var last := |steps| - 1;
      ZeroMinimumStalls(w, s, steps[..last]);
      StoreStep(w, RunFrom(w, s, steps[..last]), steps[last], 0);
    }
  }

  /** Bob gives up on whatever call he is in, and then n frames from the wanted one on are detected. */
  function Arrivals(firstSeq: SequenceNumber, n: nat): (steps: seq<Step>)
    ensures |steps| == n + 1
  {
    if n == 0 then [Lose] else Arrivals(firstSeq, n - 1) + [Detect(firstSeq + n - 1)]
  }

  lemma LoseOne(w: World, s: System)
    requires Inv(w, s)
    ensures Next(w, s, Lose).link.Idle? && Next(w, s, Lose).bob == s.bob
  {
  }

  lemma DetectOne(w: World, s: System, f: SequenceNumber)
    requires Inv(w, s)
    ensures var r := Next(w, s, Detect(f));
            r.link == s.link && r.bob.firstSeq == s.bob.firstSeq && r.bob.collected.Keys == s.bob.collected.Keys + {f}
  {
    assert ValidFrame(w, f);
  }

  lemma {:induction false} ArrivalsArrive(w: World, s: System, n: nat)
    requires Inv(w, s)
    ensures var r := RunFrom(w, s, Arrivals(s.bob.firstSeq, n));
            && r.link.Idle? && r.bob.firstSeq == s.bob.firstSeq
            && r.bob.collected.Keys == s.bob.collected.Keys + Frames(s.bob.firstSeq, s.bob.firstSeq + n)
  {
    hide Inv, Next, RunFrom;
    var firstSeq := s.bob.firstSeq;
    if n == 0 {
      RunNoSteps(w, s);
      RunOneMore(w, s, [], Lose);
      assert [] + [Lose] == [Lose];
      LoseOne(w, s);
      assert Frames(firstSeq, firstSeq) == {};
    } else {
      var before, f := Arrivals(firstSeq, n - 1), firstSeq + n - 1;
      ArrivalsArrive(w, s, n - 1);
      RunOneMore(w, s, before, Detect(f));
      DetectOne(w, RunFrom(w, s, before), f);
      assert Frames(firstSeq, f + 1) == Frames(firstSeq, f) + {f};
    }
  }

  lemma RunNoSteps(w: World, s: System)
    requires Inv(w, s)
    ensures RunFrom(w, s, []) == s
  {
  }

  lemma RunOneMore(w: World, s: System, steps: seq<Step>, step: Step)
    requires Inv(w, s)
    ensures RunFrom(w, s, steps + [step]) == Next(w, RunFrom(w, s, steps), step)
  {
    hide Inv, Next;
    assert (steps + [step])[..|steps|] == steps;
  }

  /** Bob can get on: the frames he wants arrive and his worker takes them. */
  lemma BobGetsOn(w: World, s: System) returns (steps: seq<Step>)
    requires Inv(w, s) && (w.minFrames == 1 || (w.minFrames > 1 && !HasStaleFrame(s)))
    ensures RunFrom(w, s, steps).bob.firstSeq > s.bob.firstSeq
  {
    hide Inv, RunFrom;
    var arrivals := Arrivals(s.bob.firstSeq, w.minFrames);
    ArrivalsArrive(w, s, w.minFrames);
    var r := RunFrom(w, s, arrivals);
    steps := arrivals + [TakeBatch];
    RunOneMore(w, s, arrivals, TakeBatch);
    assert forall k :: s.bob.firstSeq <= k < s.bob.firstSeq + w.minFrames ==> k in r.bob.collected.Keys;
    assert w.minFrames > 1 ==> forall k :: k in r.bob.collected.Keys ==> s.bob.firstSeq <= k;
    TakeGivesRun(w, r);
  }

  /**
   * In any state Bob is stuck, whatever happens next, exactly if the configured minimum is zero, or it is
   * above one and a frame he has already consumed is in his store again. With a minimum of one he never is.
   */
  lemma StuckIff(w: World, s: System)
    requires Inv(w, s)
    ensures (forall steps: seq<Step> :: RunFrom(w, s, steps).bob.firstSeq == s.bob.firstSeq)
       <==> w.minFrames == 0 || (w.minFrames > 1 && HasStaleFrame(s))
  {
    hide Inv, RunFrom, HasStaleFrame;
    if w.minFrames == 0 {
      forall steps: seq<Step> ensures RunFrom(w, s, steps).bob.firstSeq == s.bob.firstSeq {
        ZeroMinimumStalls(w, s, steps);
      }
    } else if w.minFrames > 1 && HasStaleFrame(s) {
      forall steps: seq<Step> ensures RunFrom(w, s, steps).bob.firstSeq == s.bob.firstSeq {
        StaleFrameStalls(w, s, steps);
      }
    } else {
      var steps := BobGetsOn(w, s);
      assert RunFrom(w, s, steps).bob.firstSeq != s.bob.firstSeq;
      assert !(forall steps: seq<Step> :: RunFrom(w, s, steps).bob.firstSeq == s.bob.firstSeq);
    }
  }
}
