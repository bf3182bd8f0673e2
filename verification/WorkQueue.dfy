/**
 * A queue of actions served by any number of worker threads. Adding a task and taking one are critical
 * sections; running the action and fulfilling its promise happens outside the lock.
 */
module WorkQueue {

  type Action<R> = () -> R
  type Worker = nat
  type Ticket = nat

  /** Tasks are known by the position in which they were enqueued; a ticket is the caller's future. */
  datatype State<R> = State(actions: seq<Action<R>>, pending: seq<Ticket>, busy: map<Worker, Ticket>,
                            taken: seq<Ticket>, futures: map<Ticket, R>)

  datatype Step<R> = Enqueue(action: Action<R>) | Take(worker: Worker) | Complete(worker: Worker)

  ghost function Next<R>(s: State<R>, step: Step<R>): State<R> {
    match step
    case Enqueue(action) =>
      s.(actions := s.actions + [action], pending := s.pending + [|s.actions|])
    case Take(w) =>
      if s.pending != [] && w !in s.busy then
        s.(pending := s.pending[1..], busy := s.busy[w := s.pending[0]], taken := s.taken + [s.pending[0]])
      else s
    case Complete(w) =>
      if w in s.busy && s.busy[w] < |s.actions| then
        s.(busy := s.busy - {w}, futures := s.futures[s.busy[w] := s.actions[s.busy[w]]()])
      else s
  }

  ghost function Run<R>(steps: seq<Step<R>>): State<R> {
    if steps == [] then State([], [], map[], [], map[])
    else Next(Run(steps[..|steps| - 1]), steps[|steps| - 1])
  }

  lemma NothingRun<R>()
    ensures Run<R>([]) == State([], [], map[], [], map[])
  {
  }

  lemma RunOneMore<R>(steps: seq<Step<R>>, step: Step<R>)
    ensures Run(steps + [step]) == Next(Run(steps), step)
  {
    assert (steps + [step])[..|steps|] == steps;
  }

  /** 0, 1, ..., n - 1 */
  function UpTo(n: nat): (r: seq<nat>)
    ensures |r| == n && forall i :: 0 <= i < n ==> r[i] == i
  {
    seq(n, i => i)
  }

  ghost predicate Running<R>(s: State<R>, t: Ticket) {
    exists w :: w in s.busy && s.busy[w] == t
  }

  ghost predicate Inv<R>(s: State<R>) {
    && s.taken + s.pending == UpTo(|s.actions|)
    && (forall w :: w in s.busy ==> s.busy[w] < |s.taken| && s.busy[w] !in s.futures)
    && (forall w, x :: w in s.busy && x in s.busy && w != x ==> s.busy[w] != s.busy[x])
    && (forall t :: t in s.futures ==> t < |s.taken| && s.futures[t] == s.actions[t]())
    && (forall t :: 0 <= t < |s.taken| ==> t in s.futures || Running(s, t))
  }

  lemma TakeKeeps<R>(s: State<R>, w: Worker)
    requires Inv(s) && s.pending != [] && w !in s.busy
    ensures Inv(Next(s, Take(w)))
  {
    var s' := Next(s, Take(w));
    var all := s.taken + s.pending;
    assert s.pending[0] == all[|s.taken|] == |s.taken|;
    assert |s.taken| !in s.futures;
    assert s'.taken + s'.pending == s.taken + s.pending;
    forall t | 0 <= t < |s'.taken| ensures t in s'.futures || Running(s', t) {
      if t == |s.taken| {
        assert s'.busy[w] == t;
      } else if t !in s.futures {
        var x :| x in s.busy && s.busy[x] == t;
        assert s'.busy[x] == t;
      }
    }
  }

  lemma CompleteKeeps<R>(s: State<R>, w: Worker)
    requires Inv(s) && w in s.busy
    ensures Inv(Next(s, Complete(w)))
  {
    var s' := Next(s, Complete(w));
    assert |s.taken + s.pending| == |s.actions|;
    forall t | 0 <= t < |s'.taken| ensures t in s'.futures || Running(s', t) {
      if t !in s'.futures {
        var x :| x in s.busy && s.busy[x] == t;
        assert s'.busy[x] == t;
      }
    }
  }

  lemma EnqueueKeeps<R>(s: State<R>, action: Action<R>)
    requires Inv(s)
    ensures Inv(Next(s, Enqueue(action)))
  {
    var s' := Next(s, Enqueue(action));
    assert s'.taken + s'.pending == (s.taken + s.pending) + [|s.actions|];
    assert |s.taken + s.pending| == |s.actions|;
    assert forall t :: t in s.futures ==> s'.actions[t] == s.actions[t];
  }

  lemma {:induction false} RunKeeps<R>(steps: seq<Step<R>>)
    ensures Inv(Run(steps))
  {
    if steps != [] {
      var s := Run(steps[..|steps| - 1]);
      RunKeeps(steps[..|steps| - 1]);
      match steps[|steps| - 1]
      case Enqueue(action) => EnqueueKeeps(s, action);
      case Take(w) => if s.pending != [] && w !in s.busy { TakeKeeps(s, w); }
      case Complete(w) => if w in s.busy { CompleteKeeps(s, w); }
    }
  }

  /**
   * Under every interleaving, tasks are taken in the order they were enqueued and each at most once, a
   * fulfilled future holds its own action's result, and no promise is ever fulfilled twice.
   */
  lemma QueueCorrect<R>(steps: seq<Step<R>>)
    ensures var s := Run(steps);
            && s.taken == UpTo(|s.taken|) && |s.taken| <= |s.actions|
            && (forall t :: t in s.futures ==> t < |s.taken| && s.futures[t] == s.actions[t]())
            && (forall w :: w in s.busy ==> s.busy[w] !in s.futures)
            && (s.pending == [] && s.busy == map[] ==> forall t: nat :: t < |s.actions| ==> t in s.futures)
  {
    RunKeeps(steps);
    var s := Run(steps);
    assert s.taken == (s.taken + s.pending)[..|s.taken|];
    assert |s.taken + s.pending| == |s.actions|;
  }

  /** Once all futures are ready, reading them in ticket order gives each action's result, in order. */
  lemma ResultsIndependentOfSchedule<R>(a: seq<Step<R>>, b: seq<Step<R>>)
    requires Run(a).actions == Run(b).actions
    requires forall t: nat :: t < |Run(a).actions| ==> t in Run(a).futures && t in Run(b).futures
    ensures Run(a).futures == Run(b).futures
  {
    RunKeeps(a);
    RunKeeps(b);
    assert |Run(a).taken + Run(a).pending| == |Run(a).actions|;
    assert |Run(b).taken + Run(b).pending| == |Run(b).actions|;
  }

  // ---------- Every task can be finished ----------

  /** How many steps are still to be made. */
  ghost function StepsLeft<R>(s: State<R>): nat {
    2 * |s.pending| + |s.busy|
  }

  lemma OneStepOn<R>(s: State<R>) returns (step: Step<R>)
    requires Inv(s) && StepsLeft(s) > 0
    ensures Next(s, step).actions == s.actions && StepsLeft(Next(s, step)) < StepsLeft(s)
  {
    if s.busy != map[] {
      var w :| w in s.busy;
      assert |s.taken + s.pending| == |s.actions|;
      assert (s.busy - {w}).Keys == s.busy.Keys - {w};
      step := Complete(w);
    } else {
      assert (s.busy[0 := s.pending[0]]).Keys == {0};
      step := Take(0);
    }
  }

  lemma RunsOn<R>(steps: seq<Step<R>>, step: Step<R>, more: seq<Step<R>>)
    ensures steps + ([step] + more) == (steps + [step]) + more
  {
  }

  /**
   * However far a run has got, with any workers busy, it can go on without new tasks until none is pending and
   * every future is ready.
   */
  lemma {:induction false} CanFinish<R>(steps: seq<Step<R>>) returns (more: seq<Step<R>>)
    ensures var s, r := Run(steps), Run(steps + more);
            && r.actions == s.actions && r.pending == [] && r.busy == map[]
            && forall t: nat :: t < |s.actions| ==> t in r.futures && r.futures[t] == s.actions[t]()
    decreases StepsLeft(Run(steps))
  {
    hide Run, Next, Inv;
    var s := Run(steps);
    RunKeeps(steps);
    if StepsLeft(s) == 0 {
      more := [];
      assert steps + more == steps;
      QueueCorrect(steps);
    } else {
      var step := OneStepOn(s);
      RunOneMore(steps, step);
      var rest := CanFinish(steps + [step]);
      RunsOn(steps, step, rest);
      more := [step] + rest;
    }
  }

  /** The shared queue; each method is one critical section or one fulfilment. */
  class ProcessingQueue<R> {
    var actions: seq<Action<R>>
    var pending: seq<Ticket>
    var busy: map<Worker, Ticket>
    var futures: map<Ticket, R>
    ghost var taken: seq<Ticket>

    constructor ()
      ensures Current() == State([], [], map[], [], map[])
    {
      actions, pending, busy, futures, taken := [], [], map[], map[], [];
    }

    ghost function Current(): State<R>
      reads this
    {
      State(actions, pending, busy, taken, futures)
    }

    method Enqueue(action: Action<R>) returns (future: Ticket)
      modifies this
      ensures Current() == Next(old(Current()), Step.Enqueue(action))
      ensures future == |old(actions)| && actions == old(actions) + [action] && pending == old(pending) + [future]
    {
      future := |actions|;
      actions := actions + [action];
      pending := pending + [future];
    }

    method TakeTask(w: Worker)
      modifies this
      ensures Current() == Next(old(Current()), Take(w))
      ensures old(pending) != [] && w !in old(busy) ==>
                w in busy && busy[w] == old(pending)[0] && pending == old(pending)[1..]
      ensures old(pending) == [] || w in old(busy) ==> busy == old(busy) && pending == old(pending)
    {
      if pending != [] && w !in busy {
        busy := busy[w := pending[0]];
        taken := taken + [pending[0]];
        pending := pending[1..];
      }
    }

    method Fulfil(w: Worker)
      modifies this
      ensures Current() == Next(old(Current()), Complete(w))
      ensures w in old(busy) && old(busy)[w] < |actions| ==>
                w !in busy && old(busy)[w] in futures && futures[old(busy)[w]] == actions[old(busy)[w]]()
    {
      if w in busy && busy[w] < |actions| {
        var action := actions[busy[w]];
        futures := futures[busy[w] := action()];
        busy := busy - {w};
      }
    }
  }
}
