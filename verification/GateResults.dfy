/** Choosing one qubit for every slot with a detection inside the accepted bins. */
module GateResults {
  import opened Drift
  import opened GatingWindow
  import opened Gating
  import opened Qubits
  import opened Sifting
  import opened Words

  /** Bins of a wrapped window that lie left of the upper end belong to the next slot. */
  function SlotOffset(bin: nat, lower: nat, upper: nat): nat {
    if upper < lower && bin < upper then 1 else 0
  }

  // Exactly the bins a walk reaches after passing the last one are moved on to the next slot.
  lemma MovedOnIff(lower: nat, upper: nat, n: nat, i: nat)
    requires lower < n && upper < n && i < |Walk(lower, upper, n)|
    ensures SlotOffset(Walk(lower, upper, n)[i], lower, upper) == if lower + i >= n then 1 else 0
  {
    WalkAt(lower, upper, n, i);
  }

  function ValuesAt(m: ValuesBySlot, s: int): seq<Qubit> {
    if s in m then m[s] else []
  }

  /** The values that the given bins hold for slot s, bin after bin. */
  ghost function Accepted(results: seq<ValuesBySlot>, bins: seq<nat>, lower: nat, upper: nat, s: SlotID): seq<Qubit>
    requires Within(bins, |results|)
  {
    if bins == [] then []
    else
      var b := bins[|bins| - 1];
      Accepted(results, bins[..|bins| - 1], lower, upper, s) + ValuesAt(results[b], s - SlotOffset(b, lower, upper))
  }

  /** The lists gathered so far hold what the given bins contribute. */
  ghost predicate Gathers(m: ValuesBySlot, results: seq<ValuesBySlot>, bins: seq<nat>, lower: nat, upper: nat)
    requires Within(bins, |results|)
  {
    forall s: SlotID :: ValuesAt(m, s) == Accepted(results, bins, lower, upper, s)
  }

  /** m' is m with the values of each slot, moved on by the offset, appended. */
  ghost predicate Added(m: ValuesBySlot, slots: ValuesBySlot, slotOffset: nat, m': ValuesBySlot) {
    forall s: SlotID :: ValuesAt(m', s) == ValuesAt(m, s) + ValuesAt(slots, s - slotOffset)
  }

  lemma GatherNothing(results: seq<ValuesBySlot>, lower: nat, upper: nat)
    ensures Gathers(map[], results, [], lower, upper)
  {
  }

  lemma GatherStep(m: ValuesBySlot, m': ValuesBySlot, results: seq<ValuesBySlot>, bins: seq<nat>, b: nat,
                   lower: nat, upper: nat)
    requires Within(bins, |results|) && b < |results| && Gathers(m, results, bins, lower, upper)
    requires Added(m, results[b], SlotOffset(b, lower, upper), m')
    ensures Gathers(m', results, bins + [b], lower, upper)
  {
    hide ValuesAt, SlotOffset;
    assert (bins + [b])[..|bins|] == bins;
    forall s: SlotID ensures ValuesAt(m', s) == Accepted(results, bins + [b], lower, upper, s) {
      assert ValuesAt(m, s) == Accepted(results, bins, lower, upper, s);
    }
  }

  /** The detection counts towards slot s through one of the accepted bins. */
  predicate Contributes(p: Placed, bins: seq<nat>, lower: nat, upper: nat, s: SlotID) {
    p.bin in bins && p.slot + SlotOffset(p.bin, lower, upper) == s
  }

  lemma {:induction false} AtIsPlaced(placed: seq<Placed>, bin: nat, s: SlotID, q: Qubit)
    ensures q in At(placed, bin, s) <==> Placed(bin, s, q) in placed
  {
    if placed != [] {
      var last := |placed| - 1;
      AtIsPlaced(placed[..last], bin, s, q);
      assert placed == placed[..last] + [placed[last]];
    }
  }

  lemma ValuesArePlaced(placed: seq<Placed>, bin: nat, slots: ValuesBySlot, s: int, q: Qubit)
    requires HoldsBin(placed, bin, slots)
    ensures q in ValuesAt(slots, s) <==> s >= 0 && Placed(bin, s, q) in placed
  {
    if s >= 0 {
      AtIsPlaced(placed, bin, s, q);
    }
  }

  ghost predicate Contributed(placed: seq<Placed>, bins: seq<nat>, lower: nat, upper: nat, s: SlotID, q: Qubit) {
    exists p :: p in placed && p.value == q && Contributes(p, bins, lower, upper, s)
  }

  lemma NoBinsNoValues(placed: seq<Placed>, lower: nat, upper: nat, s: SlotID, q: Qubit)
    ensures !Contributed(placed, [], lower, upper, s, q)
  {
  }

  lemma ContributedStep(placed: seq<Placed>, bins: seq<nat>, b: nat, lower: nat, upper: nat, s: SlotID, q: Qubit)
    ensures var slot := s - SlotOffset(b, lower, upper);
            (Contributed(placed, bins + [b], lower, upper, s, q)
             <==> Contributed(placed, bins, lower, upper, s, q) || (slot >= 0 && Placed(b, slot, q) in placed))
  {
  }

  // A slot's accepted values are exactly those of the detections that contribute to it.
  lemma {:induction false} AcceptedAreDetected(placed: seq<Placed>, counts: seq<nat>, results: seq<ValuesBySlot>,
                                               bins: seq<nat>, lower: nat, upper: nat, s: SlotID, q: Qubit)
    requires Binned(placed, counts, results) && Within(bins, |results|)
    ensures q in Accepted(results, bins, lower, upper, s) <==> Contributed(placed, bins, lower, upper, s, q)
  {
    hide SlotOffset, Contributed, HoldsBin, ValuesAt;
    if bins == [] {
      NoBinsNoValues(placed, lower, upper, s, q);
    } else {
      var last := |bins| - 1;
      var b := bins[last];
      AcceptedAreDetected(placed, counts, results, bins[..last], lower, upper, s, q);
      ContributedStep(placed, bins[..last], b, lower, upper, s, q);
      assert bins == bins[..last] + [b];
      ValuesArePlaced(placed, b, results[b], s - SlotOffset(b, lower, upper), q);
    }
  }

  /** Add one bin's values to the lists of their slots, in ascending slot order. */
  method MergeBin(qubitsBySlot: ValuesBySlot, slots: ValuesBySlot, slotOffset: nat) returns (merged: ValuesBySlot)
    ensures Added(qubitsBySlot, slots, slotOffset, merged)
  {
    merged := qubitsBySlot;
    var remaining := slots.Keys;
    while remaining != {}
      invariant remaining <= slots.Keys
      invariant forall s: SlotID :: (ValuesAt(merged, s) ==
        ValuesAt(qubitsBySlot, s) + if s - slotOffset in remaining then [] else ValuesAt(slots, s - slotOffset))
      decreases |remaining|
    {
      var slot := Least(remaining);
      var mySlot := slot + slotOffset;
      merged := merged[mySlot := ValuesAt(merged, mySlot) + slots[slot]];
      remaining := remaining - {slot};
    }
  }

  /** Walk through the accepted bins and gather their values by slot. */
  method MergeBins(results: seq<ValuesBySlot>, lower: nat, upper: nat)
    returns (qubitsBySlot: ValuesBySlot, binCount: nat)
    requires lower < |results| && upper < |results|
    ensures binCount == |Walk(lower, upper, |results|)|
    ensures Gathers(qubitsBySlot, results, Walk(lower, upper, |results|), lower, upper)
  {
    hide Gathers, Added, Walk;
    var numBins := |results|;
    ghost var bins := Walk(lower, upper, numBins);
    qubitsBySlot, binCount := map[], 0;
    GatherNothing(results, lower, upper);
    assert bins[..0] == [];
    var binId := lower;
    while binId != upper
      invariant binCount <= |bins| && binId == Away(lower, binCount, numBins)
      invariant Gathers(qubitsBySlot, results, bins[..binCount], lower, upper)
      decreases |bins| - binCount
    {
      var slotOffset := if upper < lower && binId < upper then 1 else 0;
      WalkAt(lower, upper, numBins, binCount);
      assert bins[..binCount + 1] == bins[..binCount] + [binId];
      var merged := MergeBin(qubitsBySlot, results[binId], slotOffset);
      GatherStep(qubitsBySlot, merged, results, bins[..binCount], binId, lower, upper);
      qubitsBySlot := merged;
      binCount := binCount + 1;
      ModWithinTwoTurns(binId + 1, numBins);
      binId := (binId + 1) % numBins;
    }
    assert bins[..binCount] == bins;
  }

  /** The slots are ascending and exactly the wanted ones, and each qubit comes from its slot's values. */
  ghost predicate OnePerSlot(validSlots: seq<SlotID>, qubits: seq<Qubit>, values: SlotID -> seq<Qubit>) {
    && |qubits| == |validSlots|
    && (forall i, j :: 0 <= i < j < |validSlots| ==> validSlots[i] < validSlots[j])
    && (forall i :: 0 <= i < |validSlots| ==> qubits[i] in values(validSlots[i]))
    && forall s :: values(s) != [] ==> s in validSlots
  }

  /** Pick one value of every slot, at random where there are several. */
  method PickQubits(qubitsBySlot: ValuesBySlot) returns (validSlots: seq<SlotID>, qubits: seq<Qubit>)
    ensures OnePerSlot(validSlots, qubits, (s: SlotID) => ValuesAt(qubitsBySlot, s))
  {
    validSlots, qubits := [], [];
    var remaining := qubitsBySlot.Keys;
    while remaining != {}
      invariant remaining <= qubitsBySlot.Keys
      invariant |qubits| == |validSlots|
      invariant forall i, j :: 0 <= i < j < |validSlots| ==> validSlots[i] < validSlots[j]
      invariant forall i, s :: 0 <= i < |validSlots| && s in remaining ==> validSlots[i] < s
      invariant forall i :: 0 <= i < |validSlots| ==> qubits[i] in ValuesAt(qubitsBySlot, validSlots[i])
      invariant forall s :: s in qubitsBySlot && s !in remaining && qubitsBySlot[s] != [] ==> s in validSlots
      decreases |remaining|
    {
      var slot := Least(remaining);
      var list := qubitsBySlot[slot];
      if list != [] {
        validSlots := validSlots + [slot];
        if |list| == 1 {
          qubits := qubits + [list[0]];
        } else {
          var random: nat := *;
          qubits := qubits + [list[random % |list|]];
        }
      }
      remaining := remaining - {slot};
    }
  }

  method Gate(counts: seq<nat>, slotResults: seq<ValuesBySlot>, acceptanceRatio: real)
    returns (validSlots: seq<SlotID>, results: seq<Qubit>, peakWidth: real, lower: nat, upper: nat)
    requires 0 < |counts| == |slotResults| < TWO_TO_THE_64 && acceptanceRatio >= 0.0
    ensures lower < |counts| && upper < |counts|
    ensures OnePerSlot(validSlots, results,
                       (s: SlotID) => Accepted(slotResults, Walk(lower, upper, |slotResults|), lower, upper, s))
    ensures peakWidth == Distance(lower, upper, |counts|) as real / |counts| as real
    ensures var peak, cutoff := FirstMaximum(counts), Cutoff(counts, acceptanceRatio);
            (forall b :: 0 <= b < |counts| ==> (b in Walk(lower, upper, |counts|) <==> InRun(counts, cutoff, peak, b)))
            <==> !StopsEarly(counts, cutoff, peak)
  {
    var numBins := |counts|;
    var peakIndex := MaxOf(counts);
    var minValue := MinElement(counts);
    var cutoff := Between(minValue, counts[peakIndex], acceptanceRatio);
    ghost var down, up;
    lower, down := FindLower(counts, cutoff, peakIndex);
    upper, up := FindUpper(counts, cutoff, peakIndex);
    ghost var low :| 0 <= low < numBins && counts[low] == minValue;
    WindowIsRun(counts, cutoff, peakIndex, up, down, low);
    var qubitsBySlot, binCount := MergeBins(slotResults, lower, upper);
    peakWidth := binCount as real / numBins as real;
    validSlots, results := PickQubits(qubitsBySlot);
  }

  method MaxOf(h: seq<nat>) returns (peak: nat)
    requires h != []
    ensures peak == FirstMaximum(h)
  {
    var a := new nat[|h|](i requires 0 <= i < |h| => h[i]);
    assert a[..] == h;
    peak := MaxElement(a);
  }

  // With three bins the search from a peak in bin 0 stops at once, and the peak itself is rejected.
  lemma ThreeBinsLoseThePeak()
    ensures var h := [5, 0, 0];
            && FirstMaximum(h) == 0 && Cutoff(h, 0.2) == 1 && StopsEarly(h, 1, 0)
            && EndsUp(h, 1, 0, 0) && EndsDown(h, 1, 0, 0) && Walk(0, 0, 3) == [] && InRun(h, 1, 0, 0)
  {
  }

  /** The counts of all bins. */
  ghost function BinCounts(placed: seq<Placed>, numBins: nat): (counts: seq<nat>)
    ensures |counts| == numBins
  {
    seq(numBins, b requires 0 <= b < numBins => CountIn(placed, b))
  }

  /** What the extracted qubits are, in terms of the detections and the accepted bins. */
  ghost predicate Extracted(placed: seq<Placed>, bins: seq<nat>, lower: nat, upper: nat,
                            validSlots: seq<SlotID>, qubits: seq<Qubit>) {
    && |qubits| == |validSlots|
    && (forall i, j :: 0 <= i < j < |validSlots| ==> validSlots[i] < validSlots[j])
    && (forall i :: 0 <= i < |validSlots| ==> Contributed(placed, bins, lower, upper, validSlots[i], qubits[i]))
    && forall p, s :: p in placed && Contributes(p, bins, lower, upper, s) ==> s in validSlots
  }

  lemma OnePerSlotIsExtracted(placed: seq<Placed>, counts: seq<nat>, results: seq<ValuesBySlot>, bins: seq<nat>,
                              lower: nat, upper: nat, validSlots: seq<SlotID>, qubits: seq<Qubit>)
    requires Binned(placed, counts, results) && Within(bins, |results|)
    requires OnePerSlot(validSlots, qubits, (s: SlotID) => Accepted(results, bins, lower, upper, s))
    ensures Extracted(placed, bins, lower, upper, validSlots, qubits)
  {
    hide Accepted, Contributes, Binned;
    forall i | 0 <= i < |validSlots| ensures Contributed(placed, bins, lower, upper, validSlots[i], qubits[i]) {
      AcceptedAreDetected(placed, counts, results, bins, lower, upper, validSlots[i], qubits[i]);
    }
    forall p, s | p in placed && Contributes(p, bins, lower, upper, s) ensures s in validSlots {
      AcceptedAreDetected(placed, counts, results, bins, lower, upper, s, p.value);
      assert Contributed(placed, bins, lower, upper, s, p.value);
    }
  }

  /** Place the detections, find the window around the peak, and take one qubit for every slot inside it. */
  method ExtractQubits(s: Settings, ds: seq<Detection>, acceptanceRatio: real)
    returns (validSlots: seq<SlotID>, results: seq<Qubit>, lower: nat, upper: nat)
    requires s.Valid() && ds != [] && acceptanceRatio >= 0.0
    ensures lower < s.NumBins() && upper < s.NumBins()
    ensures var placed := Places(ds, ds[0].time, s);
            Extracted(placed, Walk(lower, upper, s.NumBins()), lower, upper, validSlots, results)
    ensures var counts := BinCounts(Places(ds, ds[0].time, s), s.NumBins());
            var peak, cutoff := FirstMaximum(counts), Cutoff(counts, acceptanceRatio);
            (forall b :: 0 <= b < |counts| ==> (b in Walk(lower, upper, |counts|) <==> InRun(counts, cutoff, peak, b)))
            <==> !StopsEarly(counts, cutoff, peak)
  {
    hide Extracted, OnePerSlot, Walk, InRun, StopsEarly, Cutoff;
    s.BinsFit();
    var counts, slotResults := CountDetections(s, ds[0].time, ds);
    assert counts[..] == BinCounts(Places(ds, ds[0].time, s), s.NumBins());
    var peakWidth;
    validSlots, results, peakWidth, lower, upper := Gate(counts[..], slotResults[..], acceptanceRatio);
    OnePerSlotIsExtracted(Places(ds, ds[0].time, s), counts[..], slotResults[..],
                          Walk(lower, upper, s.NumBins()), lower, upper, validSlots, results);
  }
}
