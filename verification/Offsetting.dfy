/** Scoring one offset between the emitter's markers and the detector's slots, and the search over offsets. */
module Offsetting {
  import opened Qubits
  import opened RangeSearch
  import opened Rounding
  import opened Threshold

  type Markers = map<nat, Qubit>

  /** The slot a marker falls into once the offset is taken off. */
  function Adjusted(slot: nat, offset: int): int {
    slot - offset
  }

  /** The marker's slot was detected and measured in the basis it was sent in. */
  predicate BasisMatched(slot: nat, q: Qubit, validSlots: seq<nat>, irregular: seq<Qubit>, offset: int) {
    var adjusted := Adjusted(slot, offset);
    0 <= adjusted < |irregular| && adjusted in validSlots && Base(q) == Base(irregular[adjusted])
  }

  predicate ValueMatched(slot: nat, q: Qubit, validSlots: seq<nat>, irregular: seq<Qubit>, offset: int) {
    BasisMatched(slot, q, validSlots, irregular, offset) && q == irregular[Adjusted(slot, offset)]
  }

  function Matched(considered: set<nat>, markers: Markers, validSlots: seq<nat>, irregular: seq<Qubit>, offset: int): set<nat>
    requires considered <= markers.Keys
  {
    set slot | slot in considered && BasisMatched(slot, markers[slot], validSlots, irregular, offset)
  }

  function Correct(considered: set<nat>, markers: Markers, validSlots: seq<nat>, irregular: seq<Qubit>, offset: int): set<nat>
    requires considered <= markers.Keys
  {
    set slot | slot in considered && ValueMatched(slot, markers[slot], validSlots, irregular, offset)
  }

  function Ratio(valid: nat, matched: nat): Confidence {
    if matched == 0 then Undefined else Defined(valid as real / matched as real)
  }

  /** The share of basis-matched markers whose value agrees too. */
  function Score(considered: set<nat>, markers: Markers, validSlots: seq<nat>, irregular: seq<Qubit>, offset: int): (c: Confidence)
    requires considered <= markers.Keys
  {
    Ratio(|Correct(considered, markers, validSlots, irregular, offset)|,
          |Matched(considered, markers, validSlots, irregular, offset)|)
  }

  /** Binary search for the first slot that is not less than a value. */
  method LowerBound(slots: seq<nat>, value: int) returns (first: nat)
    requires Sorted(slots)
    ensures first <= |slots|
    ensures forall i :: 0 <= i < first ==> slots[i] < value
    ensures forall i :: first <= i < |slots| ==> slots[i] >= value
  {
    var count: nat := |slots|;
    first := 0;
    while count > 0
      invariant first + count <= |slots|
      invariant forall i :: 0 <= i < first ==> slots[i] < value
      invariant forall i :: first + count <= i < |slots| ==> slots[i] >= value
    {
      var step := count / 2;
      if slots[first + step] < value {
        first := first + step + 1;
        count := count - (step + 1);
      } else {
        count := step;
      }
    }
  }

  /**
   * The markers looked at before the walk stops: all of them, or one match more than a limit other than zero.
   * Which ones depends on the order of the hash table.
   */
  ghost predicate Walked(considered: set<nat>, markers: Markers, validSlots: seq<nat>, irregular: seq<Qubit>,
                         offset: int, samples: nat)
    requires considered <= markers.Keys
  {
    || considered == markers.Keys
    || (samples > 0 && |Matched(considered, markers, validSlots, irregular, offset)| == samples + 1)
  }

  /**
   * Walk the markers in whatever order the hash table yields them. Without a sample limit the order does
   * not matter; with one, the walk stops at the first marker that exceeds it.
   */
  method CompareValues(markers: Markers, validSlots: seq<nat>, irregular: seq<Qubit>, offset: int, samples: nat)
    returns (confidence: Confidence, ghost considered: set<nat>)
    requires Sorted(validSlots)
    ensures considered <= markers.Keys && Walked(considered, markers, validSlots, irregular, offset, samples)
    ensures confidence == Score(considered, markers, validSlots, irregular, offset)
  {
    var basesMatched, validCount := 0, 0;
    var remaining := markers.Keys;
    considered := {};
    while remaining != {}
      invariant remaining <= markers.Keys && considered == markers.Keys - remaining
      invariant basesMatched == |Matched(considered, markers, validSlots, irregular, offset)|
      invariant validCount == |Correct(considered, markers, validSlots, irregular, offset)|
      invariant samples > 0 ==> basesMatched <= samples
      decreases |remaining|
    {
      var slot :| slot in remaining;
      MatchedOne(considered, slot, markers, validSlots, irregular, offset);
      CorrectOne(considered, slot, markers, validSlots, irregular, offset);
      var adjusted := slot - offset;
      if adjusted >= 0 {
        var bobIndex := LowerBound(validSlots, adjusted);
        assert adjusted in validSlots <==> bobIndex < |validSlots| && validSlots[bobIndex] == adjusted;
        if bobIndex < |validSlots| && validSlots[bobIndex] < |irregular| && validSlots[bobIndex] == adjusted {
          if Base(markers[slot]) == Base(irregular[adjusted]) {
            basesMatched := basesMatched + 1;
            if markers[slot] == irregular[adjusted] {
              validCount := validCount + 1;
            }
          }
        }
      }
      remaining := remaining - {slot};
      considered := considered + {slot};
      if samples > 0 && basesMatched > samples {
        break;
      }
    }
    confidence := Ratio(validCount, basesMatched);
  }

  lemma MatchedOne(considered: set<nat>, slot: nat, markers: Markers, validSlots: seq<nat>, irregular: seq<Qubit>, offset: int)
    requires considered <= markers.Keys && slot in markers && slot !in considered
    ensures |Matched(considered + {slot}, markers, validSlots, irregular, offset)|
         == |Matched(considered, markers, validSlots, irregular, offset)|
            + if BasisMatched(slot, markers[slot], validSlots, irregular, offset) then 1 else 0
  {
    hide BasisMatched;
    var before := Matched(considered, markers, validSlots, irregular, offset);
    var one := if BasisMatched(slot, markers[slot], validSlots, irregular, offset) then {slot} else {};
    assert Matched(considered + {slot}, markers, validSlots, irregular, offset) == before + one && before !! one;
  }

  lemma CorrectOne(considered: set<nat>, slot: nat, markers: Markers, validSlots: seq<nat>, irregular: seq<Qubit>, offset: int)
    requires considered <= markers.Keys && slot in markers && slot !in considered
    ensures |Correct(considered + {slot}, markers, validSlots, irregular, offset)|
         == |Correct(considered, markers, validSlots, irregular, offset)|
            + if ValueMatched(slot, markers[slot], validSlots, irregular, offset) then 1 else 0
  {
    hide ValueMatched;
    var before := Correct(considered, markers, validSlots, irregular, offset);
    var one := if ValueMatched(slot, markers[slot], validSlots, irregular, offset) then {slot} else {};
    assert Correct(considered + {slot}, markers, validSlots, irregular, offset) == before + one && before !! one;
  }

  // A confidence is a proportion, and it is 1 exactly when every basis-matched marker considered agrees in value.
  lemma ScoreIsProportion(considered: set<nat>, markers: Markers, validSlots: seq<nat>, irregular: seq<Qubit>, offset: int)
    requires considered <= markers.Keys
    ensures var c := Score(considered, markers, validSlots, irregular, offset);
            c.Defined? ==> 0.0 <= c.value <= 1.0 && (c.value == 1.0 <==>
              forall slot :: slot in considered && BasisMatched(slot, markers[slot], validSlots, irregular, offset)
                ==> ValueMatched(slot, markers[slot], validSlots, irregular, offset))
  {
    var m := Matched(considered, markers, validSlots, irregular, offset);
    var c := Correct(considered, markers, validSlots, irregular, offset);
    assert c <= m;
    assert |m - c| == |m| - |c|;
    if |m| > 0 {
      ProportionBounds(|c|, |m|);
      if |c| == |m| {
        assert m - c == {};
        forall slot | slot in considered && BasisMatched(slot, markers[slot], validSlots, irregular, offset)
          ensures ValueMatched(slot, markers[slot], validSlots, irregular, offset)
        {
          assert slot in m && slot !in m - c;
        }
      } else {
        var slot :| slot in m - c;
        assert !ValueMatched(slot, markers[slot], validSlots, irregular, offset);
      }
    }
  }

  lemma ProportionBounds(c: nat, m: nat)
    requires c <= m && m > 0
    ensures 0.0 <= c as real / m as real <= 1.0
    ensures c as real / m as real == 1.0 <==> c == m
  {
    var q := c as real / m as real;
    assert q * m as real == c as real;
    assert (1.0 - q) * m as real == (m - c) as real;
    SignOfProduct(q, m as real);
    SignOfProduct(1.0 - q, m as real);
  }

  // ---------- The meaning of a confidence, marker by marker ----------

  /** A marker whose slot lies offset past a detected slot that was measured in its basis. */
  ghost predicate Hit(slot: nat, q: Qubit, validSlots: seq<nat>, irregular: seq<Qubit>, offset: int) {
    exists t :: t in validSlots && t + offset == slot && t < |irregular| && irregular[t] / 2 % 4 == q / 2 % 4
  }

  /** ... and with its value. */
  ghost predicate FullHit(slot: nat, q: Qubit, validSlots: seq<nat>, irregular: seq<Qubit>, offset: int) {
    exists t :: t in validSlots && t + offset == slot && t < |irregular| && irregular[t] == q
  }

  lemma MatchesAreHits(slot: nat, q: Qubit, validSlots: seq<nat>, irregular: seq<Qubit>, offset: int)
    ensures BasisMatched(slot, q, validSlots, irregular, offset) <==> Hit(slot, q, validSlots, irregular, offset)
    ensures ValueMatched(slot, q, validSlots, irregular, offset) <==> FullHit(slot, q, validSlots, irregular, offset)
    ensures FullHit(slot, q, validSlots, irregular, offset) ==> Hit(slot, q, validSlots, irregular, offset)
  {
    var t := slot - offset;
    QubitDigits(q);
    if 0 <= t < |irregular| {
      SameDigits(q, irregular[t]);
      assert t in validSlots ==> t + offset == slot;
    }
  }

  lemma SameDigits(p: Qubit, q: Qubit)
    ensures Base(p) == Base(q) <==> p / 2 % 4 == q / 2 % 4
  {
  }

  /** The confidence is the share of the hits that have their marker's value; without hits it is undefined. */
  lemma ScoreIsShareOfHits(considered: set<nat>, markers: Markers, validSlots: seq<nat>, irregular: seq<Qubit>, offset: int)
    requires considered <= markers.Keys
    ensures var hits := set slot | slot in considered && Hit(slot, markers[slot], validSlots, irregular, offset);
            var full := set slot | slot in considered && FullHit(slot, markers[slot], validSlots, irregular, offset);
            Score(considered, markers, validSlots, irregular, offset)
            == if hits == {} then Undefined else Defined(|full| as real / |hits| as real)
  {
    hide BasisMatched, ValueMatched, Hit, FullHit;
    forall slot | slot in considered
      ensures BasisMatched(slot, markers[slot], validSlots, irregular, offset)
         <==> Hit(slot, markers[slot], validSlots, irregular, offset)
      ensures ValueMatched(slot, markers[slot], validSlots, irregular, offset)
         <==> FullHit(slot, markers[slot], validSlots, irregular, offset)
    {
      MatchesAreHits(slot, markers[slot], validSlots, irregular, offset);
    }
    assert Matched(considered, markers, validSlots, irregular, offset)
        == set slot | slot in considered && Hit(slot, markers[slot], validSlots, irregular, offset);
    assert Correct(considered, markers, validSlots, irregular, offset)
        == set slot | slot in considered && FullHit(slot, markers[slot], validSlots, irregular, offset);
  }

  /** Nothing is hit, or some hit has a wrong value. */
  ghost predicate Spoiled(considered: set<nat>, markers: Markers, validSlots: seq<nat>, irregular: seq<Qubit>, offset: int)
    requires considered <= markers.Keys
  {
    || (forall slot :: slot in considered ==> !Hit(slot, markers[slot], validSlots, irregular, offset))
    || exists slot :: slot in considered && Hit(slot, markers[slot], validSlots, irregular, offset)
                      && !FullHit(slot, markers[slot], validSlots, irregular, offset)
  }

  /** The confidence is one exactly if something is hit and every hit has its marker's value. */
  lemma FullConfidenceIff(considered: set<nat>, markers: Markers, validSlots: seq<nat>, irregular: seq<Qubit>, offset: int)
    requires considered <= markers.Keys
    ensures Score(considered, markers, validSlots, irregular, offset) == Defined(1.0)
       <==> !Spoiled(considered, markers, validSlots, irregular, offset)
  {
    hide BasisMatched, ValueMatched, Hit, FullHit, Correct;
    ScoreIsProportion(considered, markers, validSlots, irregular, offset);
    forall slot | slot in considered
      ensures BasisMatched(slot, markers[slot], validSlots, irregular, offset)
         <==> Hit(slot, markers[slot], validSlots, irregular, offset)
      ensures ValueMatched(slot, markers[slot], validSlots, irregular, offset)
         <==> FullHit(slot, markers[slot], validSlots, irregular, offset)
    {
      MatchesAreHits(slot, markers[slot], validSlots, irregular, offset);
    }
    var matched := Matched(considered, markers, validSlots, irregular, offset);
    if forall slot :: slot in considered ==> !Hit(slot, markers[slot], validSlots, irregular, offset) {
      assert matched == {};
    } else {
      var slot :| slot in considered && Hit(slot, markers[slot], validSlots, irregular, offset);
      assert slot in matched;
    }
  }

  /** The search over all offsets from `from` to `to`; `walks` says which markers each comparison looks at. */
  function Alignment(markers: Markers, validSlots: seq<nat>, irregular: seq<Qubit>, walks: int -> set<nat>,
                     from: int, to: int): Problem
    requires forall o :: walks(o) <= markers.Keys
  {
    Problem(offset => Score(walks(offset), markers, validSlots, irregular, offset), from, to)
  }

  /** No offset in the range is given a confidence above this. */
  ghost predicate NotExceeded(markers: Markers, validSlots: seq<nat>, irregular: seq<Qubit>, walks: int -> set<nat>,
                              from: int, to: int, highest: real)
    requires forall o :: walks(o) <= markers.Keys
  {
    forall o :: from <= o <= to && Score(walks(o), markers, validSlots, irregular, o).Defined?
      ==> Score(walks(o), markers, validSlots, irregular, o).value <= highest
  }

  /**
   * For every schedule, sample limit and hash order: the search finds an offset of the range with the
   * confidence reported, and no offset of the range is given a greater one.
   */
  lemma AlignmentFound(markers: Markers, validSlots: seq<nat>, irregular: seq<Qubit>, samples: nat, walks: int -> set<nat>,
                       from: int, to: int, steps: seq<Step>)
    requires from <= to && forall o :: walks(o) <= markers.Keys
    requires forall o :: Walked(walks(o), markers, validSlots, irregular, o, samples)
    requires var p := Alignment(markers, validSlots, irregular, walks, from, to); Done(p, Run(p, steps))
    ensures var s := Run(Alignment(markers, validSlots, irregular, walks, from, to), steps);
            && 0.0 <= s.highest <= 1.0
            && (s.highest > 0.0 ==> from <= s.offset <= to)
            && (s.highest > 0.0 ==> Score(walks(s.offset), markers, validSlots, irregular, s.offset) == Defined(s.highest))
            && NotExceeded(markers, validSlots, irregular, walks, from, to, s.highest)
  {
    hide Score, Run;
    var p := Alignment(markers, validSlots, irregular, walks, from, to);
    SearchCorrect(p, steps);
    var s := Run(p, steps);
    ScoreIsProportion(walks(s.offset), markers, validSlots, irregular, s.offset);
    forall o | from <= o <= to && Score(walks(o), markers, validSlots, irregular, o).Defined?
      ensures Score(walks(o), markers, validSlots, irregular, o).value <= s.highest
    {
      assert p.InRange(o) && p.score(o) == Score(walks(o), markers, validSlots, irregular, o);
    }
  }

  /** Every marker was detected, k slots before its own, as it was sent. */
  ghost predicate AllDetected(markers: Markers, validSlots: seq<nat>, irregular: seq<Qubit>, k: int) {
    markers != map[] && forall slot :: slot in markers ==> FullHit(slot, markers[slot], validSlots, irregular, k)
  }

  /**
   * If all markers were detected k slots early and k is in the range, every schedule finds exactly k if and only
   * if each other offset of the range hits no marker or hits one with a wrong value.
   */
  lemma TrueOffsetFoundIff(markers: Markers, validSlots: seq<nat>, irregular: seq<Qubit>, samples: nat, walks: int -> set<nat>,
                           from: int, to: int, k: int)
    requires from <= k <= to && AllDetected(markers, validSlots, irregular, k) && forall o :: walks(o) <= markers.Keys
    requires forall o :: Walked(walks(o), markers, validSlots, irregular, o, samples)
    ensures var p := Alignment(markers, validSlots, irregular, walks, from, to);
            (forall steps :: Done(p, Run(p, steps)) ==> Run(p, steps).offset == k)
            <==> forall o :: from <= o <= to && o != k ==> Spoiled(walks(o), markers, validSlots, irregular, o)
  {
    hide Score, Run, Spoiled, Done;
    var p := Alignment(markers, validSlots, irregular, walks, from, to);
    forall o ensures p.score(o) == Defined(1.0) <==> !Spoiled(walks(o), markers, validSlots, irregular, o) {
      FullConfidenceIff(walks(o), markers, validSlots, irregular, o);
    }
    TrueOffsetFull(markers, validSlots, irregular, samples, walks(k), k);
    forall o | p.InRange(o) && p.score(o).Defined? ensures p.score(o).value <= 1.0 {
      ScoreIsProportion(walks(o), markers, validSlots, irregular, o);
    }
    assert p.InRange(k) && IsMaximum(p, 1.0);
    if forall o :: from <= o <= to && o != k ==> Spoiled(walks(o), markers, validSlots, irregular, o) {
      forall steps | Done(p, Run(p, steps)) ensures Run(p, steps).offset == k {
        SearchCorrect(p, steps);
        MaximumUnique(p, Run(p, steps).highest, 1.0);
      }
    } else {
      var o :| from <= o <= to && o != k && !Spoiled(walks(o), markers, validSlots, irregular, o);
      assert Attains(p, 1.0, o) && Attains(p, 1.0, k);
      var steps := TieIsScheduleDependent(p, 1.0, k);
      assert Done(p, Run(p, steps)) && Run(p, steps).offset != k;
    }
  }

  lemma TrueOffsetFull(markers: Markers, validSlots: seq<nat>, irregular: seq<Qubit>, samples: nat,
                       considered: set<nat>, k: int)
    requires AllDetected(markers, validSlots, irregular, k) && considered <= markers.Keys
    requires Walked(considered, markers, validSlots, irregular, k, samples)
    ensures !Spoiled(considered, markers, validSlots, irregular, k)
  {
    hide Hit, FullHit, BasisMatched, ValueMatched;
    forall slot | slot in markers
      ensures Hit(slot, markers[slot], validSlots, irregular, k) && FullHit(slot, markers[slot], validSlots, irregular, k)
    {
      MatchesAreHits(slot, markers[slot], validSlots, irregular, k);
    }
    assert considered != {};
  }
}
