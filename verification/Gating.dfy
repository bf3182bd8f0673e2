/** Extracting one qubit per transmission slot from raw detections. */
module Gating {
  import opened Drift
  import opened GatingWindow
  import opened Qubits
  import Rounding
  import opened Words

  type SlotID = nat
  type ValuesBySlot = map<SlotID, seq<Qubit>>

  // ---------- Placing detections ----------

  /** Where a detection falls: its bin, its slot, and the qubit it stands for. */
  datatype Placed = Placed(bin: nat, slot: SlotID, value: Qubit)

  /** Round to the nearest integer, halves away from zero. */
  function Round(x: real): int {
    if x >= 0.0 then (x + 0.5).Floor else -(-x + 0.5).Floor
  }

  /**
   * Signed offsets meet unsigned times in 64-bit unsigned comparisons, where nothing is below zero
   * and a negative offset is a number just below 2^64.
   */
  function Corrected(sinceStart: nat, offset: int, correction: int): nat {
    if Wrap(offset * 1_000_000) < 0 || sinceStart > Wrap(offset) then Wrap(Wrap(sinceStart + correction) - offset)
    else sinceStart
  }

  /**
   * A time is corrected exactly if the offset is not negative and below it, or if the time lies before the
   * frame's start, so that it wrapped, by less than a negative offset. Drift the other way is ignored otherwise.
   */
  lemma CorrectedIff(sinceStart: nat, offset: int, correction: int)
    requires -0x8000_0000_0000_0000 <= offset < 0x8000_0000_0000_0000 && sinceStart < TWO_TO_THE_64
    ensures Corrected(sinceStart, offset, correction)
         == if 0 <= offset < sinceStart || (offset < 0 && sinceStart - TWO_TO_THE_64 > offset) then
              Wrap(sinceStart + correction - offset)
            else sinceStart
  {
    hide Wrap;
    WrapSmall(offset);
    WrapTwice(sinceStart + correction, offset);
  }

  datatype Settings = Settings(slotWidth: nat, txJitter: nat, drift: real, corrections: Qubit -> int) {

    predicate Valid() {
      0 < txJitter <= slotWidth < TWO_TO_THE_64
    }

    function NumBins(): nat
      requires txJitter > 0
    {
      slotWidth / txJitter
    }

    /** The drift at a time, in whole picoseconds. */
    function DriftAt(time: nat): int {
      Round(drift * time as real)
    }

    /** The time since the frame started, corrected for drift and channel. */
    function AdjustedTime(d: Detection, frameStart: nat): nat {
      Corrected(Wrap(d.time - frameStart), DriftAt(d.time), corrections(d.value))
    }

    function Place(d: Detection, frameStart: nat): (p: Placed)
      requires Valid()
      ensures p.bin < NumBins()
    {
      BinsFit();
      var adjusted := AdjustedTime(d, frameStart);
      Placed(adjusted % slotWidth / txJitter % NumBins(), NearestSlot(adjusted), d.value)
    }

    lemma BinsFit()
      requires Valid()
      ensures 0 < NumBins() <= slotWidth
    {
      assert slotWidth == slotWidth / txJitter * txJitter + slotWidth % txJitter;
    }

    /** The slot in whose middle a time falls; half a slot is added in 64 bits. */
    function NearestSlot(time: nat): SlotID
      requires slotWidth > 0
    {
      Wrap(time + slotWidth / 2) / slotWidth
    }
  }

  /** A time lies within half a slot of its slot's middle, unless adding half a slot wraps: then the slot is 0. */
  lemma NearestSlotIsNearest(s: Settings, time: nat)
    requires s.Valid() && time < TWO_TO_THE_64
    ensures var half, slot := s.slotWidth / 2, s.NearestSlot(time);
            if time + half < TWO_TO_THE_64 then
              2 * time - s.slotWidth <= 2 * (s.slotWidth * slot) <= 2 * time + s.slotWidth
              && s.slotWidth * slot <= time + half < s.slotWidth * slot + s.slotWidth
            else slot == 0
  {
    hide Wrap;
    var half := s.slotWidth / 2;
    if time + half < TWO_TO_THE_64 {
      WrapSmall(time + half);
      Rounding.DivNearestIsNearest(time, s.slotWidth);
    } else {
      WrapOnce(time + half);
      NoQuotient(Wrap(time + half), s.slotWidth);
    }
  }

  lemma NoQuotient(x: nat, d: nat)
    requires x < d
    ensures x / d == 0
  {
    Rounding.DivUnique(x, d, 0, x);
  }

  // ---------- Where a detection falls ----------

  // To the nearest integer, halves away from zero.
  lemma RoundIsNearest(x: real)
    ensures -0.5 <= Round(x) as real - x <= 0.5
    ensures x >= 0.0 ==> Round(x) as real - x > -0.5
    ensures x < 0.0 ==> Round(x) as real - x < 0.5
  {
  }

  /**
   * The bin is the one of width txJitter that holds the time's place in its slot; what a slot has left over after
   * its last whole bin counts as bin 0. The slot's middle is the nearest one, the later of two equally near.
   */
  ghost predicate FallsAt(s: Settings, time: nat, p: Placed)
    requires s.Valid()
  {
    var r, bins := time % s.slotWidth, s.slotWidth / s.txJitter;
    && (if r < bins * s.txJitter then p.bin * s.txJitter <= r < (p.bin + 1) * s.txJitter else p.bin == 0)
    && if time + s.slotWidth / 2 < TWO_TO_THE_64 then
         s.slotWidth * p.slot <= time + s.slotWidth / 2 < s.slotWidth * p.slot + s.slotWidth
       else p.slot == 0
  }

  lemma BinOfPlace(r: nat, width: nat, jitter: nat)
    requires 0 < jitter <= width && r < width
    ensures var n := width / jitter; var bin := r / jitter % n;
            if r < n * jitter then bin * jitter <= r < (bin + 1) * jitter else bin == 0
  {
    var n, q := width / jitter, r / jitter;
    assert width == n * jitter + width % jitter && r == q * jitter + r % jitter;
    if q >= n + 1 { Rounding.AtLeastOnce(q - n, jitter); }
    if q < n {
      Rounding.AtLeastOnce(n - q, jitter);
      Rounding.DivUnique(q, n, 0, q);
    } else {
      Rounding.DivUnique(q, n, 1, 0);
    }
  }

  lemma PlaceFalls(s: Settings, d: Detection, frameStart: nat)
    requires s.Valid() && s.AdjustedTime(d, frameStart) < TWO_TO_THE_64
    ensures FallsAt(s, s.AdjustedTime(d, frameStart), s.Place(d, frameStart))
  {
    hide Wrap, Corrected, Round;
    var t := s.AdjustedTime(d, frameStart);
    s.BinsFit();
    BinOfPlace(t % s.slotWidth, s.slotWidth, s.txJitter);
    NearestSlotIsNearest(s, t);
  }

  /** The drift at the time of a detection fits a signed 64-bit number of picoseconds. */
  ghost predicate DriftFits(s: Settings, d: Detection) {
    -9223372036854775807.0 <= s.drift * d.time as real <= 9223372036854775806.0
  }

  lemma DriftIsNear(s: Settings, d: Detection)
    requires DriftFits(s, d)
    ensures -0.5 <= s.DriftAt(d.time) as real - s.drift * d.time as real <= 0.5
    ensures -0x8000_0000_0000_0000 <= s.DriftAt(d.time) < 0x8000_0000_0000_0000
  {
    var x := s.drift * d.time as real;
    RoundIsNearest(x);
  }

  /**
   * Every detection falls where its time says, counted from the frame's start in 64 bits and, in the cases given,
   * corrected for its channel and for the drift up to that time, in whole picoseconds.
   */
  lemma PlacedByTime(s: Settings, d: Detection, frameStart: nat) returns (offset: int, time: nat)
    requires s.Valid() && d.time < TWO_TO_THE_64 && frameStart < TWO_TO_THE_64 && DriftFits(s, d)
    ensures -0.5 <= offset as real - s.drift * d.time as real <= 0.5
    ensures var since := if d.time >= frameStart then d.time - frameStart else d.time - frameStart + TWO_TO_THE_64;
            time == if 0 <= offset < since || (offset < 0 && since - TWO_TO_THE_64 > offset) then
                      Wrap(since + s.corrections(d.value) - offset)
                    else since
    ensures FallsAt(s, time, s.Place(d, frameStart)) && s.Place(d, frameStart).value == d.value
  {
    hide Wrap, Corrected, FallsAt, DriftFits;
    offset := s.DriftAt(d.time);
    DriftIsNear(s, d);
    time := s.AdjustedTime(d, frameStart);
    assert time == Corrected(Wrap(d.time - frameStart), offset, s.corrections(d.value));
    CorrectedIff(Wrap(d.time - frameStart), offset, s.corrections(d.value));
    WrapSmall(d.time - frameStart);
    PlaceFalls(s, d, frameStart);
  }

  /**
   * Past the offset and without wrapping, a detection falls where a time within half a picosecond of the one
   * corrected for channel and drift does.
   */
  lemma DriftIsTakenOff(s: Settings, d: Detection, frameStart: nat) returns (time: nat)
    requires s.Valid() && frameStart <= d.time < TWO_TO_THE_64 && DriftFits(s, d)
    requires 0.0 <= s.drift * d.time as real < (d.time - frameStart) as real - 0.5
    requires var t := (d.time - frameStart + s.corrections(d.value)) as real - s.drift * d.time as real;
             0.5 <= t < TWO_TO_THE_64 as real - 0.5
    ensures -0.5 <= time as real
                    - ((d.time - frameStart + s.corrections(d.value)) as real - s.drift * d.time as real) <= 0.5
    ensures FallsAt(s, time, s.Place(d, frameStart)) && s.Place(d, frameStart).value == d.value
  {
    hide Wrap, FallsAt;
    var offset;
    offset, time := PlacedByTime(s, d, frameStart);
    WrapSmall(d.time - frameStart + s.corrections(d.value) - offset);
  }

  function Places(ds: seq<Detection>, frameStart: nat, s: Settings): (placed: seq<Placed>)
    requires s.Valid()
    ensures |placed| == |ds|
    ensures forall i :: 0 <= i < |ds| ==> placed[i] == s.Place(ds[i], frameStart) && placed[i].bin < s.NumBins()
  {
    seq(|ds|, i requires 0 <= i < |ds| => s.Place(ds[i], frameStart))
  }

  /** The values placed in one bin and slot, in order of arrival. */
  function At(placed: seq<Placed>, bin: nat, slot: SlotID): seq<Qubit> {
    if placed == [] then []
    else
      var last := placed[|placed| - 1];
      At(placed[..|placed| - 1], bin, slot) + if last.bin == bin && last.slot == slot then [last.value] else []
  }

  // A value comes right after those that arrived before it.
  lemma {:induction false} AtInOrder(placed: seq<Placed>, bin: nat, slot: SlotID, i: nat)
    requires i < |placed|
    ensures var p, n := placed[i], |At(placed[..i], bin, slot)|;
            && |At(placed[..i + 1], bin, slot)| == n + (if p.bin == bin && p.slot == slot then 1 else 0)
            && |At(placed[..i + 1], bin, slot)| <= |At(placed, bin, slot)|
            && (p.bin == bin && p.slot == slot ==> At(placed, bin, slot)[n] == p.value)
    decreases |placed|
  {
    var last := |placed| - 1;
    assert placed[..i + 1][..i] == placed[..i];
    if i < last {
      AtInOrder(placed[..last], bin, slot, i);
      assert placed[..last][..i] == placed[..i] && placed[..last][..i + 1] == placed[..i + 1];
    } else {
      assert placed[..i + 1] == placed;
    }
  }

  function CountIn(placed: seq<Placed>, bin: nat): nat {
    if placed == [] then 0
    else CountIn(placed[..|placed| - 1], bin) + if placed[|placed| - 1].bin == bin then 1 else 0
  }

  ghost predicate HoldsBin(placed: seq<Placed>, bin: nat, slots: ValuesBySlot) {
    && (forall s :: s in slots <==> At(placed, bin, s) != [])
    && forall s :: s in slots ==> slots[s] == At(placed, bin, s)
  }

  /** The counts and the values, bin by bin and slot by slot, are those of the placed detections. */
  ghost predicate Binned(placed: seq<Placed>, counts: seq<nat>, slotResults: seq<ValuesBySlot>) {
    && |counts| == |slotResults|
    && forall b :: 0 <= b < |counts| ==> counts[b] == CountIn(placed, b) && HoldsBin(placed, b, slotResults[b])
  }

  lemma PlaceOne(placed: seq<Placed>, p: Placed, counts: seq<nat>, slotResults: seq<ValuesBySlot>)
    requires Binned(placed, counts, slotResults) && p.bin < |counts|
    ensures var slots := slotResults[p.bin];
            var slots': ValuesBySlot := slots[p.slot := (if p.slot in slots then slots[p.slot] else []) + [p.value]];
            Binned(placed + [p], counts[p.bin := counts[p.bin] + 1], slotResults[p.bin := slots'])
  {
  }

  /** The bin and the slot of one detection. */
  method PlaceDetection(s: Settings, d: Detection, frameStart: nat) returns (bin: nat, slot: SlotID)
    requires s.Valid()
    ensures Placed(bin, slot, d.value) == s.Place(d, frameStart)
  {
    hide Wrap, Corrected, Round;
    s.BinsFit();
    var adjustedTime := s.AdjustedTime(d, frameStart);
    slot := Wrap(adjustedTime + s.slotWidth / 2) / s.slotWidth;
    bin := adjustedTime % s.slotWidth / s.txJitter % s.NumBins();
  }

  method CountDetections(s: Settings, frameStart: nat, ds: seq<Detection>)
    returns (counts: array<nat>, slotResults: array<ValuesBySlot>)
    requires s.Valid()
    ensures fresh(counts) && fresh(slotResults) && counts.Length == s.NumBins()
    ensures Binned(Places(ds, frameStart, s), counts[..], slotResults[..])
  {
    hide Binned, Places;
    s.BinsFit();
    var numBins := s.NumBins();
    counts := new nat[numBins](_ => 0);
    slotResults := new ValuesBySlot[numBins](_ => map[]);
    NothingBinned(ds, frameStart, s, counts[..], slotResults[..]);
    for i := 0 to |ds|
      invariant Binned(Places(ds[..i], frameStart, s), counts[..], slotResults[..])
    {
      PlaceOne(Places(ds[..i], frameStart, s), s.Place(ds[i], frameStart), counts[..], slotResults[..]);
      PlacesStep(ds, i, frameStart, s);
      var bin, slot := PlaceDetection(s, ds[i], frameStart);
      var values := if slot in slotResults[bin] then slotResults[bin][slot] else [];
      slotResults[bin] := slotResults[bin][slot := values + [ds[i].value]];
      counts[bin] := counts[bin] + 1;
    }
    assert ds[..|ds|] == ds;
  }

  lemma NothingBinned(ds: seq<Detection>, frameStart: nat, s: Settings, counts: seq<nat>, slotResults: seq<ValuesBySlot>)
    requires s.Valid() && |counts| == |slotResults|
    requires forall b :: 0 <= b < |counts| ==> counts[b] == 0 && slotResults[b] == map[]
    ensures Binned(Places(ds[..0], frameStart, s), counts, slotResults)
  {
    assert Places(ds[..0], frameStart, s) == [];
  }

  lemma PlacesStep(ds: seq<Detection>, i: nat, frameStart: nat, s: Settings)
    requires s.Valid() && i < |ds|
    ensures Places(ds[..i + 1], frameStart, s) == Places(ds[..i], frameStart, s) + [s.Place(ds[i], frameStart)]
  {
  }

  // ---------- Conservation ----------

  // Every detection is counted in exactly one bin.
  lemma {:induction false} CountsConserveDetections(placed: seq<Placed>, counts: seq<nat>)
    requires forall i :: 0 <= i < |placed| ==> placed[i].bin < |counts|
    requires forall b :: 0 <= b < |counts| ==> counts[b] == CountIn(placed, b)
    ensures Sum(counts) == |placed|
  {
    if placed == [] {
      SumZero(|counts|);
      assert counts == seq(|counts|, _ => 0);
    } else {
      var last := |placed| - 1;
      var b := placed[last].bin;
      assert counts[b] == CountIn(placed[..last], b) + 1;
      var before := counts[b := counts[b] - 1];
      CountsConserveDetections(placed[..last], before);
      SumBump(before, counts, b);
    }
  }

  /** How many values a bin holds over all its slots. */
  ghost function Entries(slots: ValuesBySlot): nat
    decreases |slots|
  {
    if slots == map[] then 0
    else
      var s :| s in slots;
      |slots[s]| + Entries(slots - {s})
  }

  lemma {:induction false} EntriesWithout(slots: ValuesBySlot, s: SlotID)
    requires s in slots
    ensures Entries(slots) == |slots[s]| + Entries(slots - {s})
    decreases |slots|
  {
    var t :| t in slots && Entries(slots) == |slots[t]| + Entries(slots - {t});
    if t != s {
      EntriesWithout(slots - {t}, s);
      EntriesWithout(slots - {s}, t);
      assert slots - {t} - {s} == slots - {s} - {t};
    }
  }

  // Appending a value to one slot's list adds one entry.
  lemma EntriesAppend(before: ValuesBySlot, slots: ValuesBySlot, s: SlotID, values: seq<Qubit>, value: Qubit)
    requires s in slots && slots[s] == values + [value]
    requires before == if values == [] then slots - {s} else slots[s := values]
    ensures Entries(slots) == Entries(before) + 1
  {
    EntriesWithout(slots, s);
    if values != [] {
      EntriesWithout(before, s);
      assert before - {s} == slots - {s};
    }
  }

  lemma HoldsBinBefore(placed: seq<Placed>, p: Placed, slots: ValuesBySlot, before: ValuesBySlot)
    requires HoldsBin(placed + [p], p.bin, slots)
    requires var values := At(placed, p.bin, p.slot);
             before == if values == [] then slots - {p.slot} else slots[p.slot := values]
    ensures HoldsBin(placed, p.bin, before)
    ensures p.slot in slots && slots[p.slot] == At(placed, p.bin, p.slot) + [p.value]
  {
  }

  // A bin's count is the number of values stored under it.
  lemma {:induction false} CountIsEntries(placed: seq<Placed>, bin: nat, slots: ValuesBySlot)
    requires HoldsBin(placed, bin, slots)
    ensures CountIn(placed, bin) == Entries(slots)
  {
    if placed == [] {
      assert slots == map[];
    } else {
      var last := |placed| - 1;
      var p := placed[last];
      assert placed == placed[..last] + [p];
      if p.bin != bin {
        assert forall s :: At(placed, bin, s) == At(placed[..last], bin, s);
        CountIsEntries(placed[..last], bin, slots);
      } else {
        hide HoldsBin, At, Entries;
        var values := At(placed[..last], bin, p.slot);
        var before := if values == [] then slots - {p.slot} else slots[p.slot := values];
        HoldsBinBefore(placed[..last], p, slots, before);
        CountIsEntries(placed[..last], bin, before);
        EntriesAppend(before, slots, p.slot, values, p.value);
      }
    }
  }
}
