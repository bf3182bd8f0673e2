/** Sifting of asynchronous detections: the detector filters by basis, the transmitter follows. */
module AsyncSift {
  import opened Qubits

  // ---------- Bases on the wire ----------

  datatype RemoteBasis = BasisInvalid | Retilinear | DiagonalBasis | CircularBasis

  function RemoteOf(q: Qubit): RemoteBasis {
    if Base(q) == CIRCULAR then CircularBasis
    else if Base(q) == DIAGONAL then DiagonalBasis
    else if Base(q) == RETILINEAR then Retilinear
    else BasisInvalid
  }

  /** The comparison of a basis received with one measured; an invalid basis equals nothing. */
  predicate SameBasis(left: RemoteBasis, right: bv8) {
    || (left == DiagonalBasis && right == DIAGONAL)
    || (left == CircularBasis && right == CIRCULAR)
    || (left == Retilinear && right == RETILINEAR)
  }

  lemma SameBasisMeansEqual(p: Qubit, q: Qubit)
    ensures SameBasis(RemoteOf(p), Base(q)) <==> Base(p) == Base(q) && Base(p) != INVALID_BASIS
  {
  }

  // Each basis of the seven codes has its own value on the wire.
  lemma RemoteOfCodes(q: Qubit)
    requires q <= 6
    ensures RemoteOf(q) == if q <= 1 then Retilinear else if q <= 3 then DiagonalBasis else if q <= 5 then CircularBasis
                           else BasisInvalid
  {
    CodesOfBases(q);
  }

  function RemoteBases(emissions: seq<Qubit>): (basis: seq<RemoteBasis>)
    ensures |basis| == |emissions|
  {
    seq(|emissions|, i requires 0 <= i < |emissions| => RemoteOf(emissions[i]))
  }

  /** The basis of every emission, for the alignment response. */
  method SendAllBasis(emissions: seq<Qubit>) returns (basis: seq<RemoteBasis>)
    ensures basis == RemoteBases(emissions)
  {
    basis := [];
    for i := 0 to |emissions|
      invariant basis == RemoteBases(emissions)[..i]
    {
      basis := basis + [RemoteOf(emissions[i])];
    }
  }

  // ---------- Sifting at the detector ----------

  ghost predicate Ascending(slots: seq<nat>) {
    forall i, j :: 0 <= i < j < |slots| ==> slots[i] < slots[j]
  }

  predicate InRange(slot: nat, offset: int, n: nat) {
    0 <= slot + offset < n
  }

  /** A basis was received for every slot that falls inside the qubit list. */
  ghost predicate BasisKnown(slots: seq<nat>, basis: seq<RemoteBasis>, qubits: seq<Qubit>, offset: int) {
    forall s :: s in slots && InRange(s, offset, |qubits|) ==> s + offset < |basis|
  }

  predicate Matches(slot: nat, basis: seq<RemoteBasis>, qubits: seq<Qubit>, offset: int)
    requires InRange(slot, offset, |qubits|) ==> slot + offset < |basis|
  {
    InRange(slot, offset, |qubits|) && SameBasis(basis[slot + offset], Base(qubits[slot + offset]))
  }

  // ---------- The loop at the detector, for slots in any order ----------

  /** Where the loop stands: the slots left over, the list being overwritten, and how much of it is output. */
  datatype Progress = Progress(kept: seq<nat>, qubits: seq<Qubit>, outputIndex: nat)

  /** One slot: a matching one moves its qubit to the output, one outside the list stays, any other goes. */
  function SiftOne(p: Progress, slot: nat, basis: seq<RemoteBasis>, offset: int): (r: Progress)
    requires p.outputIndex < |p.qubits| && (InRange(slot, offset, |p.qubits|) ==> slot + offset < |basis|)
    ensures |r.qubits| == |p.qubits| && |r.kept| <= |p.kept| + 1 && r.outputIndex <= p.outputIndex + 1
    ensures p.outputIndex <= |p.kept| ==> r.outputIndex <= |r.kept|
  {
    if !InRange(slot, offset, |p.qubits|) then p.(kept := p.kept + [slot])
    else if Matches(slot, basis, p.qubits, offset) then
      Progress(p.kept + [slot], p.qubits[p.outputIndex := p.qubits[slot + offset]], p.outputIndex + 1)
    else p
  }

  function SiftAll(slots: seq<nat>, basis: seq<RemoteBasis>, list: seq<Qubit>, offset: int): (p: Progress)
    requires BasisKnown(slots, basis, list, offset) && |slots| <= |list|
    ensures |p.qubits| == |list| && p.outputIndex <= |p.kept| <= |slots|
  {
    if slots == [] then Progress([], list, 0)
    else
      var last := |slots| - 1;
      SiftOne(SiftAll(slots[..last], basis, list, offset), slots[last], basis, offset)
  }

  /** Remove, in place, the slots and qubits whose bases differ. */
  method SiftDetections(slots: seq<nat>, basis: seq<RemoteBasis>, list: seq<Qubit>, offset: int)
    returns (result: bool, validSlots: seq<nat>, qubits: seq<Qubit>)
    requires BasisKnown(slots, basis, list, offset)
    ensures result <==> |slots| <= |list| && |slots| <= |basis|
    ensures result ==> var p := SiftAll(slots, basis, list, offset);
                       validSlots == p.kept && qubits == p.qubits[..|p.kept|]
    ensures !result ==> validSlots == slots && qubits == list
  {
    hide SiftAll, SiftOne, SameBasis, Base;
    result, validSlots, qubits := false, slots, list;
    if |validSlots| <= |qubits| && |basis| >= |validSlots| {
      var outputIndex := 0;
      var validSlotIndex := 0;
      ghost var done := 0;
      SiftNone(basis, list, offset);
      ghost var p := SiftAll([], basis, list, offset);
      assert slots[..0] == [] && [] + slots[0..] == slots;
      while validSlotIndex < |validSlots|
        invariant 0 <= done <= |slots| && p == SiftAll(slots[..done], basis, list, offset)
        invariant validSlots == p.kept + slots[done..] && validSlotIndex == |p.kept|
        invariant qubits == p.qubits && outputIndex == p.outputIndex
        decreases |slots| - done
      {
        SiftMore(slots, done, basis, list, offset);
        CurrentSlot(p.kept, slots, done);
        SiftOneCases(p, slots[done], basis, offset);
        p := SiftOne(p, slots[done], basis, offset);
        var adjustedSlot := offset + validSlots[validSlotIndex];
        if adjustedSlot >= 0 && adjustedSlot < |qubits| {
          if SameBasis(basis[adjustedSlot], Base(qubits[adjustedSlot])) {
            qubits := qubits[outputIndex := qubits[adjustedSlot]];
            outputIndex := outputIndex + 1;
          } else {
            validSlots := validSlots[..validSlotIndex] + validSlots[validSlotIndex + 1..];
            validSlotIndex := validSlotIndex - 1;
          }
        }
        validSlotIndex := validSlotIndex + 1;
        done := done + 1;
      }
      assert slots[..done] == slots;
      qubits := qubits[..|validSlots|];
      result := true;
    }
  }

  lemma SiftNone(basis: seq<RemoteBasis>, list: seq<Qubit>, offset: int)
    ensures SiftAll([], basis, list, offset) == Progress([], list, 0)
  {
  }

  lemma SiftMore(slots: seq<nat>, done: nat, basis: seq<RemoteBasis>, list: seq<Qubit>, offset: int)
    requires done < |slots| <= |list| && BasisKnown(slots, basis, list, offset)
    ensures SiftAll(slots[..done + 1], basis, list, offset)
         == SiftOne(SiftAll(slots[..done], basis, list, offset), slots[done], basis, offset)
  {
    hide SiftOne;
    assert slots[..done + 1][..done] == slots[..done];
  }

  // The slots kept, the current slot and those still to come.
  lemma CurrentSlot(kept: seq<nat>, slots: seq<nat>, done: nat)
    requires done < |slots|
    ensures var all := kept + slots[done..];
            && all[|kept|] == slots[done] && slots[done] in slots
            && all == (kept + [slots[done]]) + slots[done + 1..]
            && all[..|kept|] + all[|kept| + 1..] == kept + slots[done + 1..]
  {
  }

  lemma SiftOneCases(p: Progress, slot: nat, basis: seq<RemoteBasis>, offset: int)
    requires p.outputIndex < |p.qubits| && (InRange(slot, offset, |p.qubits|) ==> slot + offset < |basis|)
    ensures SiftOne(p, slot, basis, offset)
         == if !InRange(slot, offset, |p.qubits|) then p.(kept := p.kept + [slot])
            else if SameBasis(basis[slot + offset], Base(p.qubits[slot + offset])) then
              Progress(p.kept + [slot], p.qubits[p.outputIndex := p.qubits[slot + offset]], p.outputIndex + 1)
            else p
  {
    hide SameBasis, Base;
  }

  // ---------- What the loop amounts to for ascending slots ----------

  /** The slots left over: the matching ones, and those outside the qubit list. */
  function SiftedSlots(slots: seq<nat>, basis: seq<RemoteBasis>, qubits: seq<Qubit>, offset: int): seq<nat>
    requires BasisKnown(slots, basis, qubits, offset)
  {
    if slots == [] then []
    else
      var last := slots[|slots| - 1];
      SiftedSlots(slots[..|slots| - 1], basis, qubits, offset)
      + if InRange(last, offset, |qubits|) && !Matches(last, basis, qubits, offset) then [] else [last]
  }

  /** The qubits of the matching slots. */
  function Gathered(slots: seq<nat>, basis: seq<RemoteBasis>, qubits: seq<Qubit>, offset: int): (g: seq<Qubit>)
    requires BasisKnown(slots, basis, qubits, offset)
    ensures |g| <= |SiftedSlots(slots, basis, qubits, offset)| <= |slots|
  {
    if slots == [] then []
    else
      var last := slots[|slots| - 1];
      Gathered(slots[..|slots| - 1], basis, qubits, offset)
      + if Matches(last, basis, qubits, offset) then [qubits[last + offset]] else []
  }

  /** What is left of the qubit list: the gathered qubits, then old entries up to the number of slots. */
  function SiftedQubits(slots: seq<nat>, basis: seq<RemoteBasis>, qubits: seq<Qubit>, offset: int): seq<Qubit>
    requires BasisKnown(slots, basis, qubits, offset) && |slots| <= |qubits|
  {
    var g := Gathered(slots, basis, qubits, offset);
    g + qubits[|g|..|SiftedSlots(slots, basis, qubits, offset)|]
  }

  // One more slot, at the end of those already processed.
  lemma SiftStep(slots: seq<nat>, done: nat, basis: seq<RemoteBasis>, qubits: seq<Qubit>, offset: int)
    requires done < |slots| && BasisKnown(slots, basis, qubits, offset)
    ensures BasisKnown(slots[..done], basis, qubits, offset) && BasisKnown(slots[..done + 1], basis, qubits, offset)
    ensures InRange(slots[done], offset, |qubits|) ==> slots[done] + offset < |basis|
    ensures SiftedSlots(slots[..done + 1], basis, qubits, offset) == SiftedSlots(slots[..done], basis, qubits, offset)
              + if InRange(slots[done], offset, |qubits|) && !Matches(slots[done], basis, qubits, offset) then []
                else [slots[done]]
    ensures Gathered(slots[..done + 1], basis, qubits, offset) == Gathered(slots[..done], basis, qubits, offset)
              + if Matches(slots[done], basis, qubits, offset) then [qubits[slots[done] + offset]] else []
  {
    assert slots[..done + 1][..done] == slots[..done];
  }

  /** The output so far is written over entries that are no longer needed. */
  ghost predicate Ahead(slots: seq<nat>, p: Progress, offset: int) {
    p.outputIndex == 0 || (slots != [] && p.outputIndex <= slots[|slots| - 1] + offset + 1)
  }

  ghost predicate Untouched(p: Progress, list: seq<Qubit>) {
    |p.qubits| == |list| && p.outputIndex <= |list| && p.qubits[p.outputIndex..] == list[p.outputIndex..]
  }

  // Ascending slots read only entries that have not been overwritten.
  lemma {:induction false} SiftAllAscending(slots: seq<nat>, basis: seq<RemoteBasis>, list: seq<Qubit>, offset: int)
    requires Ascending(slots) && BasisKnown(slots, basis, list, offset) && |slots| <= |list|
    ensures var p := SiftAll(slots, basis, list, offset);
            && p.kept == SiftedSlots(slots, basis, list, offset)
            && p.qubits[..p.outputIndex] == Gathered(slots, basis, list, offset)
            && Untouched(p, list) && Ahead(slots, p, offset)
  {
    if slots != [] {
      hide Matches, SiftOne, SiftedSlots, Gathered;
      var last := |slots| - 1;
      var before := slots[..last];
      SiftAllAscending(before, basis, list, offset);
      SiftStep(slots, last, basis, list, offset);
      assert slots[..last + 1] == slots;
      SiftOneAscending(before, slots[last], SiftAll(before, basis, list, offset), basis, list, offset);
    }
  }

  lemma SiftOneAscending(slots: seq<nat>, slot: nat, p: Progress, basis: seq<RemoteBasis>, list: seq<Qubit>, offset: int)
    requires slots != [] ==> slots[|slots| - 1] < slot
    requires p.outputIndex < |list| && Untouched(p, list) && Ahead(slots, p, offset)
    requires InRange(slot, offset, |list|) ==> slot + offset < |basis|
    ensures var r := SiftOne(p, slot, basis, offset);
            && r.kept == p.kept + (if InRange(slot, offset, |list|) && !Matches(slot, basis, list, offset) then [] else [slot])
            && r.outputIndex <= |r.qubits|
            && r.qubits[..r.outputIndex] == p.qubits[..p.outputIndex]
                 + (if Matches(slot, basis, list, offset) then [list[slot + offset]] else [])
            && Untouched(r, list) && Ahead(slots + [slot], r, offset)
  {
    hide SameBasis;
    if InRange(slot, offset, |list|) {
      var a := slot + offset;
      var rest := p.qubits[p.outputIndex..];
      assert p.qubits[a] == rest[a - p.outputIndex] == list[p.outputIndex..][a - p.outputIndex] == list[a];
      assert p.qubits[p.outputIndex + 1..] == rest[1..] == list[p.outputIndex + 1..];
    }
  }

  /** For ascending slots: exactly the matching slots are left, with their original qubits in front. */
  lemma SiftAllIsSifted(slots: seq<nat>, basis: seq<RemoteBasis>, list: seq<Qubit>, offset: int)
    requires Ascending(slots) && BasisKnown(slots, basis, list, offset) && |slots| <= |list|
    ensures var p := SiftAll(slots, basis, list, offset);
            && p.kept == SiftedSlots(slots, basis, list, offset)
            && p.qubits[..|p.kept|] == SiftedQubits(slots, basis, list, offset)
  {
    hide SiftedSlots, Gathered, SiftAll;
    SiftAllAscending(slots, basis, list, offset);
    var p := SiftAll(slots, basis, list, offset);
    var g := Gathered(slots, basis, list, offset);
    assert p.qubits == g + list[|g|..] by {
      assert p.qubits == p.qubits[..p.outputIndex] + p.qubits[p.outputIndex..];
    }
  }

  // ---------- Filtering at the transmitter ----------

  /** The list while it is being compacted, for slots in any order. */
  function Compacted(slots: seq<nat>, emissions: seq<Qubit>): (list: seq<Qubit>)
    requires CountBelow(slots, |emissions|) <= |emissions|
    ensures |list| == |emissions|
  {
    if slots == [] then emissions
    else
      var before, last := slots[..|slots| - 1], slots[|slots| - 1];
      var list := Compacted(before, emissions);
      if last < |emissions| then list[CountBelow(before, |emissions|) := list[last]] else list
  }

  lemma {:induction false} CountBelowPrefix(slots: seq<nat>, k: nat, n: nat)
    requires k <= |slots|
    ensures CountBelow(slots[..k], n) <= CountBelow(slots, n)
    ensures k < |slots| && slots[k] < n ==> CountBelow(slots[..k], n) < CountBelow(slots, n)
    decreases |slots|
  {
    if k == |slots| {
      assert slots[..k] == slots;
    } else {
      var before := slots[..|slots| - 1];
      assert before[..k] == slots[..k];
      CountBelowPrefix(before, k, n);
    }
  }

  /** The emissions of the slots that exist. */
  function Selected(slots: seq<nat>, emissions: seq<Qubit>): (r: seq<Qubit>)
    ensures |r| <= |slots|
  {
    if slots == [] then []
    else
      var last := slots[|slots| - 1];
      Selected(slots[..|slots| - 1], emissions) + if last < |emissions| then [emissions[last]] else []
  }

  lemma NothingCompacted(emissions: seq<Qubit>)
    ensures CountBelow([], |emissions|) == 0 && Selected([], emissions) == [] && Compacted([], emissions) == emissions
  {
  }

  lemma CompactMore(slots: seq<nat>, emissions: seq<Qubit>)
    requires slots != []
    ensures var before, last := slots[..|slots| - 1], slots[|slots| - 1];
            && CountBelow(slots, |emissions|) == CountBelow(before, |emissions|) + (if last < |emissions| then 1 else 0)
            && Selected(slots, emissions)
            == Selected(before, emissions) + (if last < |emissions| then [emissions[last]] else [])
            && (CountBelow(slots, |emissions|) <= |emissions| ==>
                  Compacted(slots, emissions)
                  == if last < |emissions| then
                       Compacted(before, emissions)[CountBelow(before, |emissions|) := Compacted(before, emissions)[last]]
                     else Compacted(before, emissions))
  {
  }

  lemma CompactOne(list: seq<Qubit>, emissions: seq<Qubit>, n: nat, slot: nat)
    requires |list| == |emissions| && n <= slot < |emissions| && list[n..] == emissions[n..]
    ensures list[n := list[slot]][..n + 1] == list[..n] + [emissions[slot]]
    ensures list[n := list[slot]][n + 1..] == emissions[n + 1..]
  {
    assert list[slot] == list[n..][slot - n] == emissions[n..][slot - n] == emissions[slot];
    assert list[n + 1..] == list[n..][1..] && emissions[n + 1..] == emissions[n..][1..];
  }

  /** For ascending slots compacting reads only entries it has not overwritten, so it selects. */
  lemma {:induction false} CompactedIsSelected(slots: seq<nat>, emissions: seq<Qubit>)
    requires Ascending(slots)
    ensures var n := CountBelow(slots, |emissions|);
            && n <= |emissions| && (n == 0 || n <= slots[|slots| - 1] + 1)
            && Compacted(slots, emissions)[..n] == Selected(slots, emissions)
            && Compacted(slots, emissions)[n..] == emissions[n..]
  {
    hide Selected, Compacted, CountBelow;
    if slots == [] {
      NothingCompacted(emissions);
    } else {
      var before, last := slots[..|slots| - 1], slots[|slots| - 1];
      CompactMore(slots, emissions);
      CompactedIsSelected(before, emissions);
      var n, list := CountBelow(before, |emissions|), Compacted(before, emissions);
      if last < |emissions| {
        CompactOne(list, emissions, n, last);
      }
    }
  }

  /** Compact the emissions, in place, to the given slots. */
  method FilterDetections(validSlots: seq<nat>, emissions: seq<Qubit>) returns (result: bool, qubits: seq<Qubit>)
    requires |emissions| !in validSlots && CountBelow(validSlots, |emissions|) <= |emissions|
    ensures result <==> validSlots != [] && forall j :: 0 <= j < |validSlots| ==> validSlots[j] < |emissions|
    ensures qubits == Compacted(validSlots, emissions)[..CountBelow(validSlots, |emissions|)]
  {
    hide Compacted, CountBelow;
    result, qubits := |validSlots| > 0, emissions;
    var outputIndex := 0;
    assert validSlots[..0] == [];
    NothingCompacted(emissions);
    for i := 0 to |validSlots|
      invariant result <==> validSlots != [] && forall j :: 0 <= j < i ==> validSlots[j] < |emissions|
      invariant outputIndex == CountBelow(validSlots[..i], |emissions|) <= |emissions|
      invariant qubits == Compacted(validSlots[..i], emissions)
    {
      var next := validSlots[..i + 1];
      assert next[..|next| - 1] == validSlots[..i] && next[|next| - 1] == validSlots[i];
      CompactMore(next, emissions);
      CountBelowPrefix(validSlots, i, |emissions|);
      CountBelowPrefix(validSlots, i + 1, |emissions|);
      var slot := validSlots[i];
      assert slot in validSlots;
      if slot <= |qubits| {
        qubits := qubits[outputIndex := qubits[slot]];
        outputIndex := outputIndex + 1;
      } else {
        result := false;
      }
    }
    assert validSlots[..|validSlots|] == validSlots;
    qubits := qubits[..outputIndex];
  }
}
