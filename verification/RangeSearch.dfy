/**
 * Searching a range of offsets with any number of worker threads. Each worker draws the next offset
 * under one mutex and, after comparing, updates the best result under another.
 */
module RangeSearch {

  /** A confidence; no matching bases make it zero over zero, which is never greater than anything. */
  datatype Confidence = Undefined | Defined(value: real)

  /** What a search compares: one confidence for every offset in [from, to]. */
  datatype Problem = Problem(score: int -> Confidence, from: int, to: int) {

    ghost predicate Valid() {
      from <= to
    }

    ghost predicate InRange(v: int) {
      from <= v <= to
    }
  }

  type Worker = nat

  /** The shared variables, what each busy worker has drawn, and the offsets compared so far, in order. */
  datatype State = State(counter: int, moreValuesAvailable: bool, drawn: map<Worker, int>,
                         compared: seq<int>, highest: real, offset: int)

  datatype Step = Draw(worker: Worker) | Compare(worker: Worker)

  function Initial(p: Problem): State {
    State(p.from, true, map[], [], 0.0, 0)
  }

  predicate Higher(c: Confidence, highest: real) {
    c.Defined? && c.value > highest
  }

  function Next(p: Problem, s: State, step: Step): State {
    match step
    case Draw(w) =>
      if s.moreValuesAvailable && w !in s.drawn then
        s.(counter := s.counter + 1, drawn := s.drawn[w := s.counter], moreValuesAvailable := s.counter < p.to)
      else s
    case Compare(w) =>
      if w in s.drawn then
        var v := s.drawn[w];
        var s' := s.(drawn := s.drawn - {w}, compared := s.compared + [v]);
        if Higher(p.score(v), s.highest) then s'.(highest := p.score(v).value, offset := v) else s'
      else s
  }

  function Run(p: Problem, steps: seq<Step>): State {
    if steps == [] then Initial(p)
    else Next(p, Run(p, steps[..|steps| - 1]), steps[|steps| - 1])
  }

  /** The caller wakes up when as many comparisons are done as there are offsets. */
  ghost predicate Done(p: Problem, s: State) {
    |s.compared| == p.to - p.from + 1
  }

  // ---------- Every offset exactly once ----------

  ghost predicate Distinct(vs: seq<int>) {
    forall i, j :: 0 <= i < j < |vs| ==> vs[i] != vs[j]
  }

  ghost predicate Drawn(p: Problem, s: State, v: int) {
    v in s.compared || exists w :: w in s.drawn && s.drawn[w] == v
  }

  ghost predicate Bookkeeping(p: Problem, s: State) {
    && p.from <= s.counter <= p.to + 1
    && (s.moreValuesAvailable <==> s.counter <= p.to)
    && (forall v :: p.from <= v < s.counter <==> Drawn(p, s, v))
    && Distinct(s.compared)
    && (forall w :: w in s.drawn ==> s.drawn[w] !in s.compared)
    && (forall w, x :: w in s.drawn && x in s.drawn && w != x ==> s.drawn[w] != s.drawn[x])
  }

  /** The best result is 0 at 0 until something defined and positive has been compared. */
  ghost predicate Best(p: Problem, s: State) {
    && s.highest >= 0.0
    && (forall v :: v in s.compared && p.score(v).Defined? ==> p.score(v).value <= s.highest)
    && (if s.highest == 0.0 then s.offset == 0
        else s.offset in s.compared && p.score(s.offset) == Defined(s.highest))
  }

  lemma DrawKeeps(p: Problem, s: State, w: Worker)
    requires p.Valid() && Bookkeeping(p, s)
    ensures Bookkeeping(p, Next(p, s, Draw(w)))
  {
    var s' := Next(p, s, Draw(w));
    if s' != s {
      forall v ensures p.from <= v < s'.counter <==> Drawn(p, s', v) {
        if v == s.counter {
          assert s'.drawn[w] == v;
        } else if Drawn(p, s, v) && v !in s.compared {
          var x :| x in s.drawn && s.drawn[x] == v;
          assert s'.drawn[x] == v;
        }
      }
      forall x | x in s.drawn ensures s.drawn[x] != s.counter {
        assert Drawn(p, s, s.drawn[x]);
      }
      assert !Drawn(p, s, s.counter);
    }
  }

  lemma CompareKeeps(p: Problem, s: State, w: Worker)
    requires p.Valid() && Bookkeeping(p, s)
    ensures Bookkeeping(p, Next(p, s, Compare(w)))
  {
    var s' := Next(p, s, Compare(w));
    if w in s.drawn {
      var v := s.drawn[w];
      forall x ensures Drawn(p, s', x) <==> Drawn(p, s, x) {
        if x in s.compared {
          assert x in s'.compared;
        } else if x == v {
          assert s'.compared[|s.compared|] == v;
        } else if exists y :: y in s.drawn && s.drawn[y] == x {
          var y :| y in s.drawn && s.drawn[y] == x;
          assert s'.drawn[y] == x;
        }
      }
    }
  }

  lemma {:induction false} RunKeeps(p: Problem, steps: seq<Step>)
    requires p.Valid()
    ensures Bookkeeping(p, Run(p, steps)) && Best(p, Run(p, steps))
  {
    if steps != [] {
      var last := |steps| - 1;
      RunKeeps(p, steps[..last]);
      match steps[last]
      case Draw(w) => DrawKeeps(p, Run(p, steps[..last]), w);
      case Compare(w) => CompareKeeps(p, Run(p, steps[..last]), w);
    }
  }

  function Offsets(from: int, count: nat): (r: set<int>)
    ensures forall v :: v in r <==> from <= v < from + count
    ensures |r| == count
  {
    if count == 0 then {} else Offsets(from, count - 1) + {from + count - 1}
  }

  lemma {:induction false} DistinctSize(vs: seq<int>)
    requires Distinct(vs)
    ensures |set v | v in vs| == |vs|
  {
    if vs != [] {
      var last := |vs| - 1;
      DistinctSize(vs[..last]);
      assert (set v | v in vs) == (set v | v in vs[..last]) + {vs[last]};
    }
  }

  lemma SubsetOfSameSize(a: set<int>, b: set<int>)
    requires a <= b && |a| == |b|
    ensures a == b
  {
    assert |b - a| == 0;
  }

  lemma AllCompared(p: Problem, s: State)
    requires p.Valid() && Bookkeeping(p, s) && Done(p, s)
    ensures forall v :: v in s.compared <==> p.InRange(v)
  {
    var compared := set v | v in s.compared;
    var all := Offsets(p.from, p.to - p.from + 1);
    DistinctSize(s.compared);
    forall v | v in s.compared ensures v in all {
      assert Drawn(p, s, v);
    }
    SubsetOfSameSize(compared, all);
    forall v | p.InRange(v) ensures v in s.compared {
      assert v in compared;
    }
  }

  /** The last offset is compared too, and when the caller wakes no worker holds an offset. */
  lemma DoneMeansAll(p: Problem, steps: seq<Step>)
    requires p.Valid() && Done(p, Run(p, steps))
    ensures var s := Run(p, steps);
            && Distinct(s.compared) && (forall v :: v in s.compared <==> p.InRange(v))
            && s.drawn == map[] && !s.moreValuesAvailable
  {
    var s := Run(p, steps);
    RunKeeps(p, steps);
    AllCompared(p, s);
    assert Drawn(p, s, p.to);
    forall w | w in s.drawn ensures p.InRange(s.drawn[w]) {
      assert Drawn(p, s, s.drawn[w]);
    }
    assert s.drawn.Keys == {};
  }

  // ---------- The result ----------

  /** The greatest of zero and every defined confidence of the range. */
  ghost predicate IsMaximum(p: Problem, m: real) {
    && m >= 0.0
    && (forall v :: p.InRange(v) && p.score(v).Defined? ==> p.score(v).value <= m)
    && (m == 0.0 || exists v :: p.InRange(v) && p.score(v) == Defined(m))
  }

  /**
   * However the workers are scheduled, a completed search returns the maximum confidence, and an
   * offset that attains it unless nothing was positive.
   */
  lemma SearchCorrect(p: Problem, steps: seq<Step>)
    requires p.Valid() && Done(p, Run(p, steps))
    ensures var s := Run(p, steps);
            && IsMaximum(p, s.highest)
            && (s.highest > 0.0 ==> p.InRange(s.offset) && p.score(s.offset) == Defined(s.highest))
            && (s.highest == 0.0 ==> s.offset == 0)
  {
    RunKeeps(p, steps);
    DoneMeansAll(p, steps);
  }

  lemma MaximumUnique(p: Problem, a: real, b: real)
    requires IsMaximum(p, a) && IsMaximum(p, b)
    ensures a == b
  {
  }

  ghost predicate Attains(p: Problem, m: real, v: int) {
    p.InRange(v) && p.score(v) == Defined(m)
  }

  /** Two different offsets share the greatest confidence, and it is positive. */
  ghost predicate Tie(p: Problem, m: real) {
    m > 0.0 && exists v, x :: v != x && Attains(p, m, v) && Attains(p, m, x)
  }

  // Repeatedly drawing and comparing, one idle worker brings the counter to any target.
  lemma {:induction false} Advance(p: Problem, steps: seq<Step>, w: Worker, target: int) returns (more: seq<Step>)
    requires p.Valid() && w !in Run(p, steps).drawn && Run(p, steps).counter <= target <= p.to + 1
    ensures var s, r := Run(p, steps), Run(p, steps + more);
            && r.counter == target && r.drawn == s.drawn && |r.compared| == |s.compared| + target - s.counter
    decreases target - Run(p, steps).counter
  {
    var s := Run(p, steps);
    if s.counter == target {
      assert steps + [] == steps;
      return [];
    }
    RunKeeps(p, steps);
    var drawn := steps + [Draw(w)];
    assert drawn[..|steps|] == steps;
    var once := drawn + [Compare(w)];
    assert once[..|drawn|] == drawn;
    assert Run(p, once).drawn == s.drawn;
    var rest := Advance(p, once, w, target);
    more := [Draw(w), Compare(w)] + rest;
    assert steps + more == once + rest;
  }

  // Two workers suffice to keep any one offset until all others have been compared.
  lemma HoldBack(p: Problem, last: int) returns (steps: seq<Step>)
    requires p.Valid() && p.InRange(last)
    ensures Done(p, Run(p, steps)) && steps != [] && steps[|steps| - 1] == Compare(0)
    ensures var s := Run(p, steps[..|steps| - 1]); 0 in s.drawn && s.drawn[0] == last
  {
    var before := Advance(p, [], 0, last);
    assert [] + before == before;
    var holding := before + [Draw(0)];
    assert holding[..|before|] == before;
    RunKeeps(p, before);
    var rest := Advance(p, holding, 1, p.to + 1);
    steps := (holding + rest) + [Compare(0)];
    assert steps[..|steps| - 1] == holding + rest;
  }

  /** On a tie, no offset is the one every schedule returns. */
  lemma TieIsScheduleDependent(p: Problem, m: real, v: int) returns (steps: seq<Step>)
    requires p.Valid() && IsMaximum(p, m) && Tie(p, m)
    ensures Done(p, Run(p, steps)) && Run(p, steps).offset != v
  {
    if p.InRange(v) {
      steps := HoldBack(p, v);
      var before := Run(p, steps[..|steps| - 1]);
      RunKeeps(p, steps[..|steps| - 1]);
      DoneMeansAll(p, steps);
      var x :| x != v && Attains(p, m, x);
      assert x in before.compared;
    } else {
      steps := HoldBack(p, p.to);
      SearchCorrect(p, steps);
      MaximumUnique(p, m, Run(p, steps).highest);
    }
  }

  /**
   * The confidence a search returns never depends on the schedule. The offset does not either exactly
   * when no two offsets share a positive greatest confidence.
   */
  lemma ScheduleIndependentIff(p: Problem, m: real)
    requires p.Valid() && IsMaximum(p, m)
    ensures forall a :: Done(p, Run(p, a)) ==> Run(p, a).highest == m
    ensures (forall a, b :: Done(p, Run(p, a)) && Done(p, Run(p, b)) ==> Run(p, a).offset == Run(p, b).offset)
            <==> !Tie(p, m)
  {
    forall a | Done(p, Run(p, a)) ensures Run(p, a).highest == m {
      SearchCorrect(p, a);
      MaximumUnique(p, m, Run(p, a).highest);
    }
    if Tie(p, m) {
      var a := HoldBack(p, p.from);
      var b := TieIsScheduleDependent(p, m, Run(p, a).offset);
      assert Done(p, Run(p, a)) && Done(p, Run(p, b)) && Run(p, a).offset != Run(p, b).offset;
      assert !(forall a, b :: Done(p, Run(p, a)) && Done(p, Run(p, b)) ==> Run(p, a).offset == Run(p, b).offset);
    } else {
      forall a, b | Done(p, Run(p, a)) && Done(p, Run(p, b)) ensures Run(p, a).offset == Run(p, b).offset {
        SearchCorrect(p, a);
        SearchCorrect(p, b);
        var x, y := Run(p, a).offset, Run(p, b).offset;
        assert m > 0.0 ==> Attains(p, m, x) && Attains(p, m, y);
      }
    }
  }

  // ---------- The shared object ----------

  /** The variables the workers share; each method is one critical section. */
  class Searcher {
    const problem: Problem
    var counter: int
    var moreValuesAvailable: bool
    var highest: real
    var offset: int
    var numProcessed: nat
    var drawn: map<Worker, int>
    ghost var compared: seq<int>

    constructor ProcessSequence(problem: Problem)
      ensures this.problem == problem && Current() == Initial(problem) && Valid()
    {
      this.problem := problem;
      counter, moreValuesAvailable := problem.from, true;
      highest, offset, numProcessed := 0.0, 0, 0;
      drawn, compared := map[], [];
    }

    ghost function Current(): State
      reads this
    {
      State(counter, moreValuesAvailable, drawn, compared, highest, offset)
    }

    ghost predicate Valid()
      reads this
    {
      numProcessed == |compared|
    }

    /** A worker waiting under the queue mutex draws the next offset, if there may be more. */
    method DrawNext(w: Worker)
      requires Valid()
      modifies this
      ensures Valid() && Current() == Next(problem, old(Current()), Draw(w))
    {
      if moreValuesAvailable && w !in drawn {
        var nextVal := counter;
        counter := counter + 1;
        moreValuesAvailable := nextVal < problem.to;
        drawn := drawn[w := nextVal];
      }
    }

    /** A worker that has drawn an offset reports its confidence under the results mutex. */
    method Report(w: Worker)
      requires Valid()
      modifies this
      ensures Valid() && Current() == Next(problem, old(Current()), Compare(w))
    {
      if w in drawn {
        var nextVal := drawn[w];
        var confidence := problem.score(nextVal);
        numProcessed := numProcessed + 1;
        compared := compared + [nextVal];
        if confidence.Defined? && confidence.value > highest {
          highest, offset := confidence.value, nextVal;
        }
        drawn := drawn - {w};
      }
    }
  }

  /** Run a search under a given schedule, and look whether the caller would wake up. */
  method HighestValue(p: Problem, schedule: seq<Step>) returns (done: bool, value: real, offset: int)
    requires p.Valid()
    ensures done <==> Done(p, Run(p, schedule))
    ensures done ==> IsMaximum(p, value) && (if value > 0.0 then Attains(p, value, offset) else offset == 0)
  {
    var searcher := new Searcher.ProcessSequence(p);
    for i := 0 to |schedule|
      invariant fresh(searcher) && searcher.problem == p
      invariant searcher.Valid() && searcher.Current() == Run(p, schedule[..i])
    {
      assert schedule[..i + 1][..i] == schedule[..i];
      match schedule[i]
      case Draw(w) => searcher.DrawNext(w);
      case Compare(w) => searcher.Report(w);
    }
    assert schedule[..|schedule|] == schedule;
    done := searcher.numProcessed == p.to - p.from + 1;
    value, offset := searcher.highest, searcher.offset;
    if done {
      SearchCorrect(p, schedule);
    }
  }
}
