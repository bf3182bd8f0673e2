/** What both parties hold once asynchronous detections have been sifted, and what they publish. */
module AsyncAgreement {
  import opened AsyncSift
  import opened Qubits

  // ---------- What sifting keeps ----------

  ghost predicate AllInside(slots: seq<nat>, offset: int, n: nat) {
    forall i :: 0 <= i < |slots| ==> InRange(slots[i], offset, n)
  }

  // Exactly the matching slots, and those outside the list, are left.
  lemma {:induction false} SiftedSlotsExact(slots: seq<nat>, basis: seq<RemoteBasis>, qubits: seq<Qubit>, offset: int, s: nat)
    requires BasisKnown(slots, basis, qubits, offset)
    ensures s in SiftedSlots(slots, basis, qubits, offset)
       <==> s in slots && (InRange(s, offset, |qubits|) ==> Matches(s, basis, qubits, offset))
  {
    hide Matches;
    if slots != [] {
      var last := |slots| - 1;
      SiftedSlotsExact(slots[..last], basis, qubits, offset, s);
      assert slots == slots[..last] + [slots[last]];
      assert Matches(slots[last], basis, qubits, offset) ==> InRange(slots[last], offset, |qubits|) by {
        MatchesInRange(slots[last], basis, qubits, offset);
      }
    }
  }

  lemma MatchesInRange(s: nat, basis: seq<RemoteBasis>, qubits: seq<Qubit>, offset: int)
    requires InRange(s, offset, |qubits|) ==> s + offset < |basis|
    ensures Matches(s, basis, qubits, offset) ==> InRange(s, offset, |qubits|)
  {
  }

  lemma AscendingAppend(slots: seq<nat>, s: nat)
    requires Ascending(slots) && forall i :: 0 <= i < |slots| ==> slots[i] < s
    ensures Ascending(slots + [s])
  {
  }

  // Sifting keeps the order.
  lemma {:induction false} SiftedSlotsAscend(slots: seq<nat>, basis: seq<RemoteBasis>, qubits: seq<Qubit>, offset: int)
    requires Ascending(slots) && BasisKnown(slots, basis, qubits, offset)
    ensures Ascending(SiftedSlots(slots, basis, qubits, offset))
  {
    hide Matches, Ascending;
    if slots != [] {
      var last := |slots| - 1;
      AscendingPrefix(slots);
      SiftedSlotsAscend(slots[..last], basis, qubits, offset);
      var kept := SiftedSlots(slots[..last], basis, qubits, offset);
      forall i | 0 <= i < |kept| ensures kept[i] < slots[last] {
        SiftedSlotsExact(slots[..last], basis, qubits, offset, kept[i]);
        assert kept[i] in slots[..last];
      }
      AscendingAppend(kept, slots[last]);
      assert kept + [] == kept;
    }
  }

  lemma AscendingPrefix(slots: seq<nat>)
    requires Ascending(slots) && slots != []
    ensures Ascending(slots[..|slots| - 1])
    ensures forall i :: 0 <= i < |slots| - 1 ==> slots[i] < slots[|slots| - 1]
  {
  }

  // Inside the list, qubit i of the result is the original qubit of slot i of the result.
  lemma {:induction false} GatheredAreOriginals(slots: seq<nat>, basis: seq<RemoteBasis>, qubits: seq<Qubit>, offset: int)
    requires BasisKnown(slots, basis, qubits, offset) && AllInside(slots, offset, |qubits|)
    ensures var kept, g := SiftedSlots(slots, basis, qubits, offset), Gathered(slots, basis, qubits, offset);
            && |g| == |kept|
            && forall i :: 0 <= i < |kept| ==> InRange(kept[i], offset, |qubits|) && g[i] == qubits[kept[i] + offset]
                                               && kept[i] + offset < |basis| && Matches(kept[i], basis, qubits, offset)
  {
    if slots == [] {
      NothingSifted(basis, qubits, offset);
    } else {
      hide Matches, SiftedSlots, Gathered;
      var last := |slots| - 1;
      GatheredAreOriginals(slots[..last], basis, qubits, offset);
      SiftStep(slots, last, basis, qubits, offset);
      assert slots[..last + 1] == slots;
      assert InRange(slots[last], offset, |qubits|);
    }
  }

  lemma {:induction false} SelectedAreOriginals(slots: seq<nat>, emissions: seq<Qubit>)
    requires AllInside(slots, 0, |emissions|)
    ensures |Selected(slots, emissions)| == |slots|
    ensures forall i :: 0 <= i < |slots| ==> Selected(slots, emissions)[i] == emissions[slots[i]]
  {
    if slots != [] {
      SelectedAreOriginals(slots[..|slots| - 1], emissions);
    }
  }

  // The transmitter has one emission per slot exactly if every slot was emitted.
  lemma {:induction false} SelectedLength(slots: seq<nat>, emissions: seq<Qubit>)
    ensures |Selected(slots, emissions)| == |slots| <==> AllInside(slots, 0, |emissions|)
  {
    if slots != [] {
      var last := |slots| - 1;
      SelectedLength(slots[..last], emissions);
      assert AllInside(slots, 0, |emissions|) <==> AllInside(slots[..last], 0, |emissions|) && slots[last] < |emissions|;
    }
  }

  lemma {:induction false} SelectedAreEmissions(slots: seq<nat>, emissions: seq<Qubit>, q: Qubit)
    requires forall s :: s in slots && s < |emissions| ==> emissions[s] == q
    ensures forall i :: 0 <= i < |Selected(slots, emissions)| ==> Selected(slots, emissions)[i] == q
  {
    if slots != [] {
      SelectedAreEmissions(slots[..|slots| - 1], emissions, q);
    }
  }

  // ---------- Agreement ----------

  /** What the detector keeps and what the transmitter keeps after one frame. */
  datatype Outcome = Outcome(slots: seq<nat>, detected: seq<Qubit>, emitted: seq<Qubit>)

  function Exchange(slots: seq<nat>, emissions: seq<Qubit>, detected: seq<Qubit>, offset: int): Outcome
    requires |slots| <= |detected| <= |emissions|
  {
    var basis := RemoteBases(emissions);
    var kept := SiftedSlots(slots, basis, detected, offset);
    Outcome(kept, SiftedQubits(slots, basis, detected, offset), Selected(kept, emissions))
  }

  /** For ascending slots, this is what the two in-place loops compute, the second from the slots the first leaves. */
  lemma LoopsExchange(slots: seq<nat>, emissions: seq<Qubit>, detected: seq<Qubit>, offset: int)
    requires Ascending(slots) && |slots| <= |detected| <= |emissions|
    ensures var p := SiftAll(slots, RemoteBases(emissions), detected, offset);
            && Ascending(p.kept) && CountBelow(p.kept, |emissions|) <= |emissions|
            && Exchange(slots, emissions, detected, offset)
            == Outcome(p.kept, p.qubits[..|p.kept|], Compacted(p.kept, emissions)[..CountBelow(p.kept, |emissions|)])
  {
    hide SiftAll, SiftedSlots, SiftedQubits, Compacted, CountBelow, Selected, RemoteBases, Ascending;
    var basis := RemoteBases(emissions);
    SiftAllIsSifted(slots, basis, detected, offset);
    SiftedSlotsAscend(slots, basis, detected, offset);
    CompactedIsSelected(SiftedSlots(slots, basis, detected, offset), emissions);
  }

  ghost predicate SameBases(a: seq<Qubit>, b: seq<Qubit>) {
    |a| == |b| && forall i :: 0 <= i < |a| ==> Base(a[i]) == Base(b[i])
  }

  ghost predicate Agrees(slots: seq<nat>, emissions: seq<Qubit>, detected: seq<Qubit>, offset: int)
    requires |slots| <= |detected| <= |emissions|
  {
    var o := Exchange(slots, emissions, detected, offset);
    SameBases(o.emitted, o.detected)
  }

  /** Slot s was asked for, lies inside the detector's list, and was measured in the emitted, valid basis. */
  ghost predicate MatchingSlot(slots: seq<nat>, emissions: seq<Qubit>, detected: seq<Qubit>, s: nat)
    requires |detected| <= |emissions|
  {
    s in slots && s < |detected| && Base(emissions[s]) == Base(detected[s]) && Base(emissions[s]) != INVALID_BASIS
  }

  /** Entry i of both lists belongs to entry i of the slots. */
  ghost predicate InStep(o: Outcome, emissions: seq<Qubit>, detected: seq<Qubit>, offset: int)
  {
    && |o.detected| == |o.slots| == |o.emitted|
    && forall i :: 0 <= i < |o.slots| ==>
         (InRange(o.slots[i], offset, |detected|) && o.slots[i] < |emissions|
          && o.detected[i] == detected[o.slots[i] + offset] && o.emitted[i] == emissions[o.slots[i]])
  }

  lemma ExchangeInStep(slots: seq<nat>, emissions: seq<Qubit>, detected: seq<Qubit>, offset: int)
    requires |slots| <= |detected| <= |emissions| && AllInside(slots, offset, |detected|) && AllInside(slots, 0, |emissions|)
    ensures InStep(Exchange(slots, emissions, detected, offset), emissions, detected, offset)
  {
    hide SiftedSlots, Gathered, Selected, Matches, RemoteBases;
    var basis := RemoteBases(emissions);
    var o := Exchange(slots, emissions, detected, offset);
    GatheredAreOriginals(slots, basis, detected, offset);
    forall i | 0 <= i < |o.slots| ensures InRange(o.slots[i], 0, |emissions|) {
      SiftedSlotsExact(slots, basis, detected, offset, o.slots[i]);
    }
    SelectedAreOriginals(o.slots, emissions);
  }

  lemma MatchesMeansEqualBases(emissions: seq<Qubit>, detected: seq<Qubit>, offset: int, s: nat)
    requires |detected| <= |emissions|
    ensures Matches(s, RemoteBases(emissions), detected, offset)
       <==> (InRange(s, offset, |detected|) && Base(emissions[s + offset]) == Base(detected[s + offset])
             && Base(emissions[s + offset]) != INVALID_BASIS)
  {
  }

  // A slot goes exactly if the offset leads it to a detection in another basis than the emission there, or an invalid one.
  lemma ExchangeKeepsExactly(slots: seq<nat>, emissions: seq<Qubit>, detected: seq<Qubit>, offset: int, s: nat)
    requires Ascending(slots) && |slots| <= |detected| <= |emissions|
    ensures var kept := Exchange(slots, emissions, detected, offset).slots;
            && Ascending(kept)
            && (s in kept <==>
                  s in slots && (0 <= s + offset < |detected| ==>
                                   Base(emissions[s + offset]) == Base(detected[s + offset])
                                   && Base(emissions[s + offset]) != INVALID_BASIS))
  {
    hide SiftedSlots, Matches, RemoteBases;
    SiftedSlotsAscend(slots, RemoteBases(emissions), detected, offset);
    SiftedSlotsExact(slots, RemoteBases(emissions), detected, offset, s);
    MatchesMeansEqualBases(emissions, detected, offset, s);
  }

  // Without an offset and with every slot inside the detector's list, exactly the matching slots are kept.
  lemma ExchangeKeepsMatching(slots: seq<nat>, emissions: seq<Qubit>, detected: seq<Qubit>, s: nat)
    requires |slots| <= |detected| <= |emissions| && AllInside(slots, 0, |detected|)
    ensures s in Exchange(slots, emissions, detected, 0).slots <==> MatchingSlot(slots, emissions, detected, s)
  {
    hide SiftedSlots, Matches, RemoteBases;
    SiftedSlotsExact(slots, RemoteBases(emissions), detected, 0, s);
    MatchesMeansEqualBases(emissions, detected, 0, s);
  }

  /** Both sides end up with equally long lists of pairwise equal bases. */
  lemma SiftedBasesAgree(slots: seq<nat>, emissions: seq<Qubit>, detected: seq<Qubit>)
    requires |slots| <= |detected| <= |emissions| && AllInside(slots, 0, |detected|)
    ensures Agrees(slots, emissions, detected, 0)
  {
    hide SiftedSlots, SiftedQubits, Selected, RemoteBases;
    ExchangeInStep(slots, emissions, detected, 0);
    var o := Exchange(slots, emissions, detected, 0);
    forall i | 0 <= i < |o.slots| ensures Base(o.emitted[i]) == Base(o.detected[i]) {
      ExchangeKeepsMatching(slots, emissions, detected, o.slots[i]);
      assert o.slots[i] in o.slots;
    }
  }

  ghost predicate ValidBases(emissions: seq<Qubit>) {
    forall i :: 0 <= i < |emissions| ==> Base(emissions[i]) != INVALID_BASIS
  }

  /** A valid basis that is neither of two. */
  function OtherBasis(a: bv8, b: bv8): (c: Qubit)
    ensures Base(c) == c != INVALID_BASIS && c != a && c != b
  {
    if a != RETILINEAR && b != RETILINEAR then RETILINEAR
    else if a != DIAGONAL && b != DIAGONAL then DIAGONAL
    else CIRCULAR
  }

  /** Detections in valid bases, none the emitted one, and none that of a given emission. */
  function Unmatched(emissions: seq<Qubit>, avoid: Qubit, n: nat): (detected: seq<Qubit>)
    requires n <= |emissions|
    ensures |detected| == n && ValidBases(detected)
    ensures forall i :: 0 <= i < n ==> Base(detected[i]) != Base(emissions[i]) && Base(detected[i]) != Base(avoid)
  {
    hide OtherBasis;
    seq(n, i requires 0 <= i < n => OtherBasis(Base(emissions[i]), Base(avoid)))
  }

  /** The first slot that the offset takes out of a list of n. */
  ghost function FirstOutside(slots: seq<nat>, offset: int, n: nat): (s: nat)
    requires !AllInside(slots, offset, n)
    ensures s in slots && !InRange(s, offset, n)
  {
    var last := |slots| - 1;
    if AllInside(slots[..last], offset, n) then slots[last] else FirstOutside(slots[..last], offset, n)
  }

  // If nothing matches, only the slots outside the list are left, beside entries that belong to none of them.
  lemma {:induction false} NothingMatches(slots: seq<nat>, emissions: seq<Qubit>, detected: seq<Qubit>, offset: int)
    requires |detected| <= |emissions|
    requires forall i :: 0 <= i < |detected| ==> Base(detected[i]) != Base(emissions[i])
    ensures Gathered(slots, RemoteBases(emissions), detected, offset) == []
    ensures var kept := SiftedSlots(slots, RemoteBases(emissions), detected, offset);
            if AllInside(slots, offset, |detected|) then kept == []
            else kept != [] && kept[0] == FirstOutside(slots, offset, |detected|)
  {
    if slots != [] {
      hide Matches, RemoteBases, Base;
      var last := slots[|slots| - 1];
      NothingMatches(slots[..|slots| - 1], emissions, detected, offset);
      MatchesMeansEqualBases(emissions, detected, offset, last);
    }
  }

  // The transmitter keeps the emission of the first slot outside for entry 0, or it has too few emissions.
  lemma OutsideSlotDisagrees(slots: seq<nat>, emissions: seq<Qubit>, offset: int, n: nat) returns (detected: seq<Qubit>)
    requires |slots| <= n <= |emissions| && !AllInside(slots, offset, n)
    ensures |detected| == n && ValidBases(detected) && !Agrees(slots, emissions, detected, offset)
  {
    hide SiftedSlots, Gathered, Selected, Matches, Base, RemoteBases;
    var outside := FirstOutside(slots, offset, n);
    detected := Unmatched(emissions, if outside < |emissions| then emissions[outside] else RETILINEAR, n);
    var o := Exchange(slots, emissions, detected, offset);
    NothingMatches(slots, emissions, detected, offset);
    assert o.detected == detected[..|o.slots|];
    SelectedLength(o.slots, emissions);
    if |o.emitted| == |o.slots| {
      SelectedAreOriginals(o.slots, emissions);
      assert InRange(o.slots[0], 0, |emissions|);
      assert o.emitted[0] == emissions[outside] && o.detected[0] == detected[0];
    }
  }

  lemma OneSlotOutside(slot: nat, emissions: seq<Qubit>, detected: seq<Qubit>, offset: int)
    requires |detected| == 1 && slot < |emissions| && slot + offset != 0
    ensures Exchange([slot], emissions, detected, offset) == Outcome([slot], detected, [emissions[slot]])
  {
    hide Matches, RemoteBases, SiftedSlots, Gathered, Selected;
    var slots := [slot];
    var basis := RemoteBases(emissions);
    assert slots[..0] == [] && slots[..1] == slots;
    SiftStep(slots, 0, basis, detected, offset);
    NothingSifted(basis, detected, offset);
    MatchesInRange(slot, basis, detected, offset);
    assert SiftedSlots(slots, basis, detected, offset) == slots && Gathered(slots, basis, detected, offset) == [];
    SelectedAreOriginals(slots, emissions);
    assert Selected(slots, emissions) == [emissions[slot]];
    assert detected[0..1] == detected && [] + detected == detected;
  }

  lemma NothingSifted(basis: seq<RemoteBasis>, detected: seq<Qubit>, offset: int)
    ensures SiftedSlots([], basis, detected, offset) == [] && Gathered([], basis, detected, offset) == []
  {
  }

  // The smallest case: slot 0 was missed and slot 1 measured in another basis, yet slot 1 is kept.
  lemma MissedSlotDisagrees()
    ensures !Agrees([1], [RETILINEAR, DIAGONAL], [RETILINEAR], 0)
  {
    hide Exchange;
    OneSlotOutside(1, [RETILINEAR, DIAGONAL], [RETILINEAR], 0);
    assert Base([DIAGONAL][0]) != Base([RETILINEAR][0]);
  }

  // With an offset even a complete list may disagree: slot 0 stands for emission 1, but emission 0 is kept for it.
  lemma OffsetOneDisagrees()
    ensures !Agrees([0], [RETILINEAR, DIAGONAL], [DIAGONAL], 1)
  {
    hide Exchange;
    OneSlotOutside(0, [RETILINEAR, DIAGONAL], [DIAGONAL], 1);
    assert Base([RETILINEAR][0]) != Base([DIAGONAL][0]);
  }

  /**
   * Without an offset, and whatever was emitted: sifting leads to agreement for all valid bases a list of n
   * qubits may be measured in exactly if every slot is an index into that list.
   */
  lemma AgreementIffInside(slots: seq<nat>, emissions: seq<Qubit>, n: nat)
    requires |slots| <= n <= |emissions|
    ensures (forall detected: seq<Qubit> | |detected| == n && ValidBases(detected) :: Agrees(slots, emissions, detected, 0))
       <==> AllInside(slots, 0, n)
  {
    hide Agrees, ValidBases;
    if AllInside(slots, 0, n) {
      forall detected: seq<Qubit> | |detected| == n && ValidBases(detected) ensures Agrees(slots, emissions, detected, 0) {
        SiftedBasesAgree(slots, emissions, detected);
      }
    } else {
      var detected := OutsideSlotDisagrees(slots, emissions, 0, n);
      assert !(forall detected: seq<Qubit> | |detected| == n && ValidBases(detected) ::
                 Agrees(slots, emissions, detected, 0));
    }
  }

  lemma {:induction false} AscendingGrows(slots: seq<nat>, i: nat)
    requires Ascending(slots) && i < |slots|
    ensures i <= slots[i] && slots[i] + (|slots| - 1 - i) <= slots[|slots| - 1]
    decreases |slots|
  {
    var last := |slots| - 1;
    if last > 0 {
      AscendingGrows(slots[..last], if i < last then i else last - 1);
    }
  }

  /**
   * The gate hands over one qubit per valid slot. For such a compact list the slots are all inside
   * exactly if they are 0, 1, 2, ...: no slot was missed.
   */
  lemma CompactNeedsEverySlot(slots: seq<nat>)
    requires Ascending(slots)
    ensures AllInside(slots, 0, |slots|) <==> forall i :: 0 <= i < |slots| ==> slots[i] == i
  {
    if AllInside(slots, 0, |slots|) {
      forall i | 0 <= i < |slots| ensures slots[i] == i {
        AscendingGrows(slots, i);
        assert InRange(slots[|slots| - 1], 0, |slots|);
      }
    }
  }

  // ---------- Offsets ----------

  /** One qubit among others of another value. */
  function OneAmong(n: nat, at: nat, q: Qubit, others: Qubit): (r: seq<Qubit>)
    requires at < n
    ensures |r| == n && r[at] == q && forall i :: 0 <= i < n && i != at ==> r[i] == others
  {
    seq(n, i => if i == at then q else others)
  }

  // Only the first slot finds its basis, at the one diagonal emission; the transmitter keeps another emission for it.
  lemma ShiftedSlotDisagrees(slots: seq<nat>, offset: int, n: nat, m: nat)
    returns (emissions: seq<Qubit>, detected: seq<Qubit>)
    requires slots != [] && |slots| <= n <= m && AllInside(slots, offset, n) && offset != 0
    ensures |emissions| == m && |detected| == n && ValidBases(emissions) && ValidBases(detected)
    ensures !Agrees(slots, emissions, detected, offset)
  {
    hide SiftedSlots, Gathered, Selected, Matches, RemoteBases;
    var s := slots[0];
    assert InRange(s, offset, n);
    emissions := OneAmong(m, s + offset, DIAGONAL, RETILINEAR);
    detected := OneAmong(n, s + offset, DIAGONAL, CIRCULAR);
    var basis := RemoteBases(emissions);
    var o := Exchange(slots, emissions, detected, offset);
    forall t: nat ensures t in o.slots <==> t == s {
      SiftedSlotsExact(slots, basis, detected, offset, t);
      MatchesMeansEqualBases(emissions, detected, offset, t);
    }
    assert s in o.slots;
    GatheredAreOriginals(slots, basis, detected, offset);
    SelectedAreEmissions(o.slots, emissions, RETILINEAR);
    assert o.slots[0] in o.slots && o.slots[0] == s;
    assert o.detected[0] == Gathered(slots, basis, detected, offset)[0] == detected[s + offset];
    assert Base(RETILINEAR) != Base(DIAGONAL);
  }

  /** Sifting leads to agreement whatever m emissions and n detections there are, all in valid bases. */
  ghost predicate AlwaysAgrees(slots: seq<nat>, offset: int, n: nat, m: nat)
    requires |slots| <= n <= m
  {
    forall emissions: seq<Qubit>, detected: seq<Qubit>
      | |emissions| == m && |detected| == n && ValidBases(emissions) && ValidBases(detected) ::
      Agrees(slots, emissions, detected, offset)
  }

  /**
   * Sifting leads to agreement for all emissions and detections exactly if there is nothing to sift, or
   * the offset is zero and every slot is an index into the list of detections.
   */
  lemma AgreementIff(slots: seq<nat>, offset: int, n: nat, m: nat)
    requires |slots| <= n <= m
    ensures AlwaysAgrees(slots, offset, n, m) <==> slots == [] || (offset == 0 && AllInside(slots, 0, n))
  {
    hide Agrees, ValidBases;
    if slots == [] || (offset == 0 && AllInside(slots, 0, n)) {
      forall emissions: seq<Qubit>, detected: seq<Qubit> | |emissions| == m && |detected| == n
        ensures Agrees(slots, emissions, detected, offset)
      {
        if slots == [] {
          NothingToSift(emissions, detected, offset);
        } else {
          SiftedBasesAgree(slots, emissions, detected);
        }
      }
    } else {
      var emissions, detected;
      if AllInside(slots, offset, n) {
        emissions, detected := ShiftedSlotDisagrees(slots, offset, n, m);
      } else {
        emissions := Unmatched(seq(m, _ => DIAGONAL), DIAGONAL, m);
        detected := OutsideSlotDisagrees(slots, emissions, offset, n);
      }
      assert !AlwaysAgrees(slots, offset, n, m);
    }
  }

  lemma NothingToSift(emissions: seq<Qubit>, detected: seq<Qubit>, offset: int)
    requires |detected| <= |emissions|
    ensures Agrees([], emissions, detected, offset)
  {
    NothingSifted(RemoteBases(emissions), detected, offset);
  }

  /**
   * For the lists the gate hands over, of one detection per valid slot: agreement exactly if nothing was
   * detected, or nothing was missed and there is no offset.
   */
  lemma CompactAgreementIff(slots: seq<nat>, offset: int, m: nat)
    requires Ascending(slots) && |slots| <= m
    ensures AlwaysAgrees(slots, offset, |slots|, m)
       <==> slots == [] || (offset == 0 && forall i :: 0 <= i < |slots| ==> slots[i] == i)
  {
    hide AlwaysAgrees, Ascending;
    AgreementIff(slots, offset, |slots|, m);
    CompactNeedsEverySlot(slots);
  }
}
