/**
 * A bounded blocking buffer. A push checks for space under one mutex and stores under another, a pop
 * checks for an element under a third and fetches under the second, so the checks and the changes of
 * concurrent calls interleave.
 */
module RingBuffer {

  datatype Pusher<T> = NotPushing | SpaceSeen(value: T)

  datatype State<T> = State(buffer: seq<T>, head: nat, tail: nat, numElements: int,
                            pusher: Pusher<T>, popping: bool, pushed: seq<T>, popped: seq<T>)

  datatype Step<T> =
    | CheckSpace(value: T)   // a push finds space, or is told there is none
    | Store                  // that push stores its value
    | CheckElement           // a pop finds an element
    | Fetch                  // that pop takes the oldest element

  function Advance(index: nat, max: nat): nat {
    if index + 1 >= max then 0 else index + 1
  }

  function Next<T>(s: State<T>, step: Step<T>): State<T> {
    var max := |s.buffer|;
    match step
    case CheckSpace(x) =>
      if s.pusher.NotPushing? && s.numElements < max then s.(pusher := SpaceSeen(x)) else s
    case Store =>
      if s.pusher.SpaceSeen? && s.head < max then
        s.(buffer := s.buffer[s.head := s.pusher.value], head := Advance(s.head, max), numElements := s.numElements + 1,
           pusher := NotPushing, pushed := s.pushed + [s.pusher.value])
      else s
    case CheckElement =>
      if !s.popping && s.numElements > 0 then s.(popping := true) else s
    case Fetch =>
      if s.popping && s.tail < max then
        s.(tail := Advance(s.tail, max), numElements := s.numElements - 1, popping := false,
           popped := s.popped + [s.buffer[s.tail]])
      else s
  }

  function Run<T>(initial: seq<T>, steps: seq<Step<T>>): State<T> {
    if steps == [] then State(initial, 0, 0, 0, NotPushing, false, [], [])
    else Next(Run(initial, steps[..|steps| - 1]), steps[|steps| - 1])
  }

  /** The place i steps after the tail. */
  function Place(tail: nat, i: nat, max: nat): nat {
    if tail + i < max then tail + i else tail + i - max
  }

  ghost predicate Inv<T>(s: State<T>) {
    var max := |s.buffer|;
    && 0 <= s.numElements <= max
    && (s.pusher.SpaceSeen? ==> s.numElements < max)
    && (s.popping ==> s.numElements > 0)
    && (max > 0 ==> s.tail < max && s.head == (if s.numElements == max then s.tail else Place(s.tail, s.numElements, max)))
    && (max > 0 ==> s.head < max)
    && |s.pushed| == |s.popped| + s.numElements
    && s.popped == s.pushed[..|s.popped|]
    && forall i :: 0 <= i < s.numElements ==> s.buffer[Place(s.tail, i, max)] == s.pushed[|s.popped| + i]
  }

  lemma StoreKeeps<T>(s: State<T>)
    requires Inv(s)
    ensures Inv(Next(s, Store))
  {
  }

  lemma FetchKeeps<T>(s: State<T>)
    requires Inv(s)
    ensures Inv(Next(s, Fetch))
  {
    var s', max := Next(s, Fetch), |s.buffer|;
    if s.popping {
      assert Place(s.tail, 0, max) == s.tail;
      assert s'.popped == s.pushed[..|s.popped| + 1];
      forall i | 0 <= i < s'.numElements ensures s'.buffer[Place(s'.tail, i, max)] == s'.pushed[|s'.popped| + i] {
        assert Place(s'.tail, i, max) == Place(s.tail, i + 1, max);
      }
    }
  }

  lemma StepKeeps<T>(s: State<T>, step: Step<T>)
    requires Inv(s)
    ensures Inv(Next(s, step))
  {
    match step
    case CheckSpace(x) =>
    case CheckElement =>
    case Store => StoreKeeps(s);
    case Fetch => FetchKeeps(s);
  }

  lemma HeadInside<T>(s: State<T>)
    requires Inv(s) && s.pusher.SpaceSeen?
    ensures s.head < |s.buffer|
  {
  }

  lemma {:induction false} RunKeeps<T>(initial: seq<T>, steps: seq<Step<T>>)
    ensures Inv(Run(initial, steps)) && |Run(initial, steps).buffer| == |initial|
  {
    if steps != [] {
      RunKeeps(initial, steps[..|steps| - 1]);
      StepKeeps(Run(initial, steps[..|steps| - 1]), steps[|steps| - 1]);
    }
  }

  /**
   * Under every interleaving of pushes and pops the element count stays within the capacity, the head is
   * the count past the tail around the ring, and what has been popped is what was pushed first, in order.
   */
  lemma FifoUnderInterleaving<T>(initial: seq<T>, steps: seq<Step<T>>)
    ensures var s := Run(initial, steps);
            && 0 <= s.numElements <= |initial|
            && s.popped <= s.pushed && |s.pushed| - |s.popped| == s.numElements
            && (|initial| > 0 ==> s.head == (s.tail + s.numElements) % |initial|)
  {
    RunKeeps(initial, steps);
    var s, max := Run(initial, steps), |initial|;
    if max > 0 {
      Around(s.tail + s.numElements, max);
    }
  }

  lemma Around(x: nat, max: nat)
    requires 0 < max && x < 2 * max
    ensures x % max == if x < max then x else x - max
  {
    if x >= max {
      assert x % max == (x - max) % max;
    }
  }

  // ---------- The queue the ring stands for ----------

  /** A queue of bounded size, with the push and the pop that have passed their checks. */
  datatype Queue<T> = Queue(capacity: nat, waiting: seq<T>, pusher: Pusher<T>, popping: bool, popped: seq<T>)

  function NextQueue<T>(q: Queue<T>, step: Step<T>): Queue<T> {
    match step
    case CheckSpace(x) =>
      if q.pusher.NotPushing? && |q.waiting| < q.capacity then q.(pusher := SpaceSeen(x)) else q
    case Store =>
      if q.pusher.SpaceSeen? then q.(waiting := q.waiting + [q.pusher.value], pusher := NotPushing) else q
    case CheckElement =>
      if !q.popping && q.waiting != [] then q.(popping := true) else q
    case Fetch =>
      if q.popping && q.waiting != [] then
        q.(waiting := q.waiting[1..], popping := false, popped := q.popped + [q.waiting[0]])
      else q
  }

  function RunQueue<T>(capacity: nat, steps: seq<Step<T>>): Queue<T> {
    if steps == [] then Queue(capacity, [], NotPushing, false, [])
    else NextQueue(RunQueue(capacity, steps[..|steps| - 1]), steps[|steps| - 1])
  }

  /** The stored elements, oldest first. */
  ghost function Contents<T>(s: State<T>): (c: seq<T>)
    requires Inv(s)
    ensures |c| == s.numElements
  {
    seq(s.numElements, i requires 0 <= i < s.numElements => s.buffer[Place(s.tail, i, |s.buffer|)])
  }

  ghost function Abstract<T>(s: State<T>): Queue<T>
    requires Inv(s)
  {
    Queue(|s.buffer|, Contents(s), s.pusher, s.popping, s.popped)
  }

  // What has been pushed is what has been popped, then what is stored.
  lemma PushedIsPoppedAndStored<T>(s: State<T>)
    requires Inv(s)
    ensures s.pushed == s.popped + Contents(s)
  {
  }

  lemma StoreRefines<T>(s: State<T>)
    requires Inv(s) && s.pusher.SpaceSeen?
    ensures Inv(Next(s, Store)) && Contents(Next(s, Store)) == Contents(s) + [s.pusher.value]
  {
    StoreKeeps(s);
  }

  lemma FetchRefines<T>(s: State<T>)
    requires Inv(s) && s.popping
    ensures Inv(Next(s, Fetch)) && Contents(s) == [s.buffer[s.tail]] + Contents(Next(s, Fetch))
  {
    FetchKeeps(s);
    var s', max := Next(s, Fetch), |s.buffer|;
    assert Place(s.tail, 0, max) == s.tail;
    forall i | 0 <= i < s'.numElements ensures Contents(s')[i] == Contents(s)[i + 1] {
      assert Place(s'.tail, i, max) == Place(s.tail, i + 1, max);
    }
  }

  lemma StepRefines<T>(s: State<T>, step: Step<T>)
    requires Inv(s)
    ensures Inv(Next(s, step)) && Abstract(Next(s, step)) == NextQueue(Abstract(s), step)
  {
    StepKeeps(s, step);
    if step.Store? && s.pusher.SpaceSeen? { StoreRefines(s); }
    if step.Fetch? && s.popping { FetchRefines(s); }
  }

  /**
   * Under every interleaving the ring behaves as a queue of its size does: each value stored waits, in order,
   * until it is fetched.
   */
  lemma {:induction false} RingIsQueue<T>(initial: seq<T>, steps: seq<Step<T>>)
    ensures Inv(Run(initial, steps)) && Abstract(Run(initial, steps)) == RunQueue(|initial|, steps)
  {
    if steps != [] {
      hide Inv, Next, NextQueue, Contents;
      RingIsQueue(initial, steps[..|steps| - 1]);
      StepRefines(Run(initial, steps[..|steps| - 1]), steps[|steps| - 1]);
    } else {
      assert Contents(Run(initial, [])) == [];
    }
  }

  /** The buffer itself; each method is one critical section of a push or a pop. */
  class RingBuffer<T> {
    const buffer: array<T>
    var head: nat
    var tail: nat
    var numElements: int
    var pusher: Pusher<T>
    var popping: bool
    ghost var pushed: seq<T>
    ghost var popped: seq<T>

    constructor (storage: array<T>)
      ensures buffer == storage && Current() == Run(storage[..], []) && Valid()
    {
      buffer := storage;
      head, tail, numElements, pusher, popping := 0, 0, 0, NotPushing, false;
      pushed, popped := [], [];
    }

    ghost function Current(): State<T>
      reads this, buffer
    {
      State(buffer[..], head, tail, numElements, pusher, popping, pushed, popped)
    }

    ghost predicate Valid()
      reads this, buffer
    {
      Inv(Current())
    }

    /** With the full-condition mutex held: is there space? */
    method PushCheck(x: T) returns (spaceAvailable: bool)
      requires Valid() && pusher.NotPushing?
      modifies this
      ensures Valid() && Current() == Next(old(Current()), CheckSpace(x))
      ensures spaceAvailable <==> old(numElements) < buffer.Length
      ensures pusher == (if spaceAvailable then SpaceSeen(x) else NotPushing) && numElements == old(numElements)
    {
      StepKeeps(Current(), CheckSpace(x));
      spaceAvailable := numElements < buffer.Length;
      if spaceAvailable {
        pusher := SpaceSeen(x);
      }
    }

    /** With the change mutex held as well: store at the head. */
    method PushStore()
      requires Valid() && pusher.SpaceSeen?
      modifies this, buffer
      ensures Valid() && Current() == Next(old(Current()), Store)
      ensures pusher.NotPushing? && numElements == old(numElements) + 1 && pushed == old(pushed) + [old(pusher).value]
      ensures Contents(Current()) == Contents(old(Current())) + [old(pusher).value]
    {
      hide Inv;
      StoreRefines(Current());
      HeadInside(Current());
      StepKeeps(Current(), Store);
      buffer[head] := pusher.value;
      head := head + 1;
      if head >= buffer.Length {
        head := 0;
      }
      numElements := numElements + 1;
      pushed := pushed + [pusher.value];
      pusher := NotPushing;
    }

    /** With the empty-condition mutex held: is there an element? */
    method PopCheck() returns (found: bool)
      requires Valid() && !popping
      modifies this
      ensures Valid() && Current() == Next(old(Current()), CheckElement)
      ensures found <==> old(numElements) > 0
      ensures popping == found && numElements == old(numElements)
    {
      StepKeeps(Current(), CheckElement);
      found := numElements > 0;
      if found {
        popping := true;
      }
    }

    /** With the change mutex held as well: take the element at the tail, the oldest one. */
    method PopFetch() returns (result: T)
      requires Valid() && popping
      modifies this
      ensures Valid() && Current() == Next(old(Current()), Fetch)
      ensures popped == old(popped) + [result] && popped <= pushed == old(pushed)
      ensures !popping && numElements == old(numElements) - 1
      ensures Contents(old(Current())) == [result] + Contents(Current())
    {
      FetchRefines(Current());
      StepKeeps(Current(), Fetch);
      result := buffer[tail];
      tail := tail + 1;
      if tail >= buffer.Length {
        tail := 0;
      }
      numElements := numElements - 1;
      popped := popped + [result];
      popping := false;
    }
  }
}
