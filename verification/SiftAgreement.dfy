/** When the two parties keep the same bits of one frame. */
module SiftAgreement {
  import opened Qubits
  import opened Sifting
  import opened SiftVerifier
  import opened SiftReceiver

  /** Detection i was made in emission slot i, which is what the detector is expected to report. */
  ghost predicate Aligned(detections: seq<Detection>) {
    forall i :: 0 <= i < |detections| ==> detections[i].time == i
  }

  function AnswersTo(report: EmitterReport, detections: seq<Detection>, discarded: set<Intensity>): BasisAnswers {
    AnswerFrame(report, Bases(detections), discarded)
  }

  function Min(a: nat, b: nat): nat {
    if a <= b then a else b
  }

  lemma {:induction false} AlignedAnswers(emissions: seq<Qubit>, detections: seq<Detection>)
    requires Aligned(detections)
    ensures var answers := CompareBases(emissions, Bases(detections));
            && |answers| == Min(|emissions|, |detections|)
            && forall i :: 0 <= i < |answers| ==> answers[i] == (Base(emissions[i]) == Base(detections[i].value))
  {
    if detections != [] {
      var n := |detections| - 1;
      AlignedAnswers(emissions, detections[..n]);
      assert Bases(detections)[..n] == Bases(detections[..n]);
    }
  }

  /** The positions of one frame that survive sifting. */
  function KeptPositions(report: EmitterReport, detections: seq<Detection>, discarded: set<Intensity>): seq<nat>
    requires WellFormed(report)
  {
    KeptIndexes(|report.emissions|, AnswersTo(report, detections, discarded), discarded)
  }

  lemma {:induction false} AlignedReadable(report: EmitterReport, detections: seq<Detection>, discarded: set<Intensity>)
    requires WellFormed(report) && Aligned(detections)
    ensures Readable(AnswersTo(report, detections, discarded), |detections|)
  {
    AlignedAnswers(report.emissions, detections);
  }

  /**
   * On aligned detections both parties keep the same positions of a frame. Those are the positions present
   * on both sides where the bases match and the intensity is not discarded, so the two bit lists differ
   * exactly where the values at a kept position differ.
   */
  lemma {:induction false} FrameAgreement(report: EmitterReport, detections: seq<Detection>, discarded: set<Intensity>)
    requires WellFormed(report) && Aligned(detections)
    ensures Readable(AnswersTo(report, detections, discarded), |detections|)
    ensures forall i: nat :: i in KeptPositions(report, detections, discarded) <==>
              && i < |report.emissions| && i < |detections|
              && Base(report.emissions[i]) == Base(detections[i].value)
              && (discarded == {} || report.intensities == [] || report.intensities[i] !in discarded)
    ensures KeptIndexes(|detections|, AnswersTo(report, detections, discarded), discarded)
         == KeptPositions(report, detections, discarded)
  {
    var ans := AnswersTo(report, detections, discarded);
    AlignedAnswers(report.emissions, detections);
    KeptIndexesExact(|report.emissions|, ans, discarded);
    KeptBeyondAnswers(|report.emissions|, |ans.answers|, ans, discarded);
    KeptBeyondAnswers(|detections|, |ans.answers|, ans, discarded);
  }

  // ---------- Detections that are not aligned ----------

  /** What a perfect detector reports: the emitted qubit at each index, and noise for an index never emitted. */
  function PerfectDetections(emissions: seq<Qubit>, indexes: seq<nat>, noise: seq<Qubit>): (ds: seq<Detection>)
    requires |noise| == |indexes|
    ensures |ds| == |indexes|
  {
    seq(|indexes|, i requires 0 <= i < |indexes| =>
      Detection(indexes[i], if indexes[i] < |emissions| then emissions[indexes[i]] else noise[i]))
  }

  /** The indexes that name an emission come first and are 0, 1, 2, ... */
  ghost predicate InOrderPrefix(indexes: seq<nat>, n: nat) {
    forall i :: 0 <= i < |indexes| ==> if i < CountBelow(indexes, n) then indexes[i] == i else indexes[i] >= n
  }

  ghost predicate PerfectChannelAgrees(emissions: seq<Qubit>, indexes: seq<nat>, noise: seq<Qubit>)
    requires |noise| == |indexes|
  {
    var ds := PerfectDetections(emissions, indexes, noise);
    var ans := AnswersTo(EmitterReport(0, emissions, []), ds, {});
    FrameBits(emissions, ans, {}) == FrameBits(Values(ds), ans, {})
  }

  lemma {:induction false} PerfectAnswers(emissions: seq<Qubit>, indexes: seq<nat>, noise: seq<Qubit>)
    requires |noise| == |indexes|
    ensures var answers := CompareBases(emissions, Bases(PerfectDetections(emissions, indexes, noise)));
            && |answers| == CountBelow(indexes, |emissions|)
            && forall i :: 0 <= i < |answers| ==> answers[i]
  {
    if indexes != [] {
      var n := |indexes| - 1;
      PerfectAnswers(emissions, indexes[..n], noise[..n]);
      assert Bases(PerfectDetections(emissions, indexes, noise))[..n]
          == Bases(PerfectDetections(emissions, indexes[..n], noise[..n]));
    }
  }

  lemma {:induction false} KeepAll(n: nat, ans: BasisAnswers)
    requires ans.intensity == [] && forall i :: 0 <= i < |ans.answers| ==> ans.answers[i]
    ensures var ks := KeptIndexes(n, ans, {});
            |ks| == Min(n, |ans.answers|) && forall i :: 0 <= i < |ks| ==> ks[i] == i
  {
    if n > 0 {
      KeepAll(n - 1, ans);
    }
  }

  // The two bit lists on a perfect channel, position by position.
  lemma PerfectBits(emissions: seq<Qubit>, indexes: seq<nat>, noise: seq<Qubit>)
    requires |noise| == |indexes|
    ensures var m := CountBelow(indexes, |emissions|);
            var ds := PerfectDetections(emissions, indexes, noise);
            PerfectChannelAgrees(emissions, indexes, noise)
            <==> m <= |emissions|
                 && forall i :: 0 <= i < m ==> BitValue(emissions[i]) == BitValue(ds[i].value)
  {
    var m := CountBelow(indexes, |emissions|);
    var ds := PerfectDetections(emissions, indexes, noise);
    var ans := AnswersTo(EmitterReport(0, emissions, []), ds, {});
    PerfectAnswers(emissions, indexes, noise);
    KeepAll(|emissions|, ans);
    KeepAll(|ds|, ans);
    var a, b := FrameBits(emissions, ans, {}), FrameBits(Values(ds), ans, {});
    assert |a| == Min(|emissions|, m) && |b| == m;
    if a == b {
      forall i | 0 <= i < m ensures BitValue(emissions[i]) == BitValue(ds[i].value) {
        assert a[i] == b[i];
      }
    }
  }

  lemma {:induction false} CountPrefix(indexes: seq<nat>, n: nat, k: nat)
    requires k <= |indexes|
    ensures CountBelow(indexes[..k], n) <= CountBelow(indexes, n)
    ensures CountBelow(indexes[..k], n) == CountBelow(indexes, n) <==> forall i :: k <= i < |indexes| ==> indexes[i] >= n
    ensures (forall i :: 0 <= i < k ==> indexes[i] < n) ==> CountBelow(indexes[..k], n) == k
    decreases |indexes|
  {
    if k == |indexes| {
      assert indexes[..k] == indexes;
      if k > 0 {
        CountPrefix(indexes[..k - 1], n, k - 1);
        assert indexes[..k - 1][..k - 1] == indexes[..k - 1];
      }
    } else {
      var last := |indexes| - 1;
      CountPrefix(indexes[..last], n, k);
      assert indexes[..last][..k] == indexes[..k];
      assert forall i :: k <= i < last ==> indexes[..last][i] == indexes[i];
    }
  }

  // In-order indexes always agree.
  lemma InOrderAgrees(emissions: seq<Qubit>, indexes: seq<nat>, noise: seq<Qubit>)
    requires |noise| == |indexes| && InOrderPrefix(indexes, |emissions|)
    ensures PerfectChannelAgrees(emissions, indexes, noise)
  {
    PerfectBits(emissions, indexes, noise);
    var m := CountBelow(indexes, |emissions|);
    if m > 0 {
      assert indexes[m - 1] == m - 1;
      CountPrefix(indexes, |emissions|, m);
      if indexes[m - 1] >= |emissions| {
        CountPrefix(indexes, |emissions|, m - 1);
        forall i | m - 1 <= i < |indexes| ensures indexes[i] >= |emissions| { }
      }
    }
  }

  // Any other indexes disagree for some emissions.
  lemma OutOfOrderDisagrees(n: nat, indexes: seq<nat>, noise: seq<Qubit>) returns (emissions: seq<Qubit>)
    requires |noise| == |indexes| && !InOrderPrefix(indexes, n)
    ensures |emissions| == n && !PerfectChannelAgrees(emissions, indexes, noise)
  {
    var m := CountBelow(indexes, n);
    emissions := seq(n, _ => 0);
    if m <= n {
      if forall i :: 0 <= i < m ==> indexes[i] == i {
        CountPrefix(indexes, n, m);
        assert false;
      }
      var i :| 0 <= i < m && indexes[i] != i;
      var j := indexes[i];
      if j < n {
        emissions := emissions[j := 1];
      } else if !BitValue(noise[i]) {
        emissions := emissions[i := 1];
      }
      assert BitValue(emissions[i]) != BitValue(PerfectDetections(emissions, indexes, noise)[i].value);
    }
    PerfectBits(emissions, indexes, noise);
  }

  /**
   * The receiver is documented to take sparse detections, but positions and not indexes decide what it
   * keeps. For a given list of indexes the parties agree on every emission list of length n, over a
   * perfect channel, exactly when the usable indexes are 0, 1, 2, ... and all come first.
   */
  lemma SparseDetectionsAgreeIff(n: nat, indexes: seq<nat>, noise: seq<Qubit>)
    requires |noise| == |indexes|
    ensures (forall emissions: seq<Qubit> :: |emissions| == n ==> PerfectChannelAgrees(emissions, indexes, noise))
            <==> InOrderPrefix(indexes, n)
  {
    if InOrderPrefix(indexes, n) {
      forall emissions: seq<Qubit> | |emissions| == n ensures PerfectChannelAgrees(emissions, indexes, noise) {
        InOrderAgrees(emissions, indexes, noise);
      }
    } else {
      var emissions := OutOfOrderDisagrees(n, indexes, noise);
    }
  }

  // One missed photon is enough: the emitter publishes the bit of slot 0 and the receiver that of slot 1.
  lemma MissedPhotonDisagrees()
    ensures !PerfectChannelAgrees([0, 1], [1], [0])
  {
    var ds := PerfectDetections([0, 1], [1], [0]);
    assert CountBelow([1], 2) == 1 by {
      assert [1][..0] == [];
    }
    PerfectBits([0, 1], [1], [0]);
    assert BitValue([0 as bv8, 1][0]) != BitValue(ds[0].value);
  }
}
