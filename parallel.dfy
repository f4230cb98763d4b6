/**
 * ParallelP: starts all its children at once and completes when all of them
 * have completed.
 *
 * On invoke an empty list completes at once; otherwise the done-counter is
 * reset, every child's onDone is bound to a continuation that increments the
 * counter and fires the parallel's onDone once the counter reaches the number
 * of children, every child's onThrow to the parallel's own onThrow, and then
 * every child is invoked in list order. Kill is forwarded to every child,
 * whatever the state. A failing child does not cancel its siblings, and every
 * failure is relayed.
 */
module Parallel {
  import opened Process

  /** The bookkeeping of a ParallelP with `size` children: the done-counter
      of the current invocation, and whether invoke has rebound the
      children's onDone / onThrow. */
  datatype State = State(size: nat, doneNum: nat, wired: bool)

  function Init(size: nat): State
  {
    State(size, 0, false)
  }

  /** How a ParallelP reacts to one event. The counting continuation is
      shared by all children, so it cannot tell which child called it. */
  function Step(s: State, e: Event): (r: Reaction<State>)
    ensures r.next.size == s.size
    ensures e.Kill? ==> r.next == s
    ensures !s.wired && !e.Invoke? && !e.Kill? ==> r.out == []
    ensures e.Invoke? && s.size > 0 ==> r.next.doneNum == 0 && r.next.wired
    ensures r.out == [Done] ==> (e.Invoke? && s.size == 0) || (e.ChildDone? && s.doneNum + 1 >= s.size)
  {
    match e
    case Invoke =>
      if s.size == 0 then Reaction(s, [Done])
      else
        assert InvokeAll(s.size)[|InvokeAll(s.size)| - 1] == InvokeChild(s.size - 1);
        Reaction(State(s.size, 0, true), InvokeAll(s.size))
    case ChildDone(_) =>
      if !s.wired then Reaction(s, [])
      else
        var c := s.doneNum + 1;
        Reaction(s.(doneNum := c), if c >= s.size then [Done] else [])
    case ChildThrow(_, err) =>
      Reaction(s, if s.wired then [Throw(err)] else [])
    case Kill =>
      assert s.size == 0 || KillAll(s.size)[|KillAll(s.size)| - 1] == KillChild(s.size - 1);
      Reaction(s, KillAll(s.size))
  }

  /** The state reached, and every signal emitted, when a fresh ParallelP
      with `size` children receives the events `evs` one at a time. */
  function Run(size: nat, evs: seq<Event>): (r: Reaction<State>)
    ensures r.next.size == size
    decreases |evs|
  {
    if evs == [] then Reaction(Init(size), [])
    else
      var before := Run(size, evs[..|evs| - 1]);
      var last := Step(before.next, evs[|evs| - 1]);
      Reaction(last.next, before.out + last.out)
  }

  /** An empty ParallelP completes at once on every invoke and does nothing
      else. */
  lemma {:induction false} EmptyCompletesAtOnce(evs: seq<Event>)
    ensures Run(0, evs).out == Repeat(Done, InvokeEvents(evs))
    ensures Run(0, evs).next == Init(0)
  {
    if evs != [] {
      EmptyCompletesAtOnce(evs[..|evs| - 1]);
    }
  }

  /** What RunInvariant states about a parallel with n children after d
      onDone calls, `kills` kills and the child failures `errs`: every child
      was invoked once, in list order; onDone fired only once the counter
      reached n; every failure was relayed unchanged; every kill was forwarded
      to all n children in list order. */
  ghost predicate Inv(n: nat, d: nat, kills: nat, errs: seq<Error>, r: Reaction<State>)
  {
    && r.next == State(n, d, true)
    && Invoked(r.out) == Iota(n)
    && DoneCount(r.out) == (if d < n then 0 else d - n + 1)
    && Thrown(r.out) == errs
    && Killed(r.out) == Cycles(Iota(n), kills)
  }

  lemma {:induction false} RunInvariant(n: nat, evs: seq<Event>)
    requires n > 0 && SingleInvoke(evs)
    ensures Inv(n, DoneEvents(evs), KillEvents(evs), Errors(evs), Run(n, evs))
    decreases |evs|
  {
    var p := evs[..|evs| - 1];
    var e := evs[|evs| - 1];
    if e.Invoke? {
      assert evs == p + [Invoke];
      RunAtInvoke(n, p);
    } else {
      RunInvariant(n, p);
      var before := Run(n, p);
      var last := Step(before.next, e);
      var d, k, errs := DoneEvents(p), KillEvents(p), Errors(p);
      var d', k', errs' := d + (if e.ChildDone? then 1 else 0),
        k + (if e.Kill? then 1 else 0), errs + (if e.ChildThrow? then [e.error] else []);
      assert Run(n, evs) == Reaction(last.next, before.out + last.out)
          && DoneEvents(evs) == d' && KillEvents(evs) == k' && Errors(evs) == errs';
      InvStep(n, d, k, errs, before, e);
    }
  }

  /** Before its invoke a parallel only forwards kills, to every child. */
  lemma {:induction false} Idle(n: nat, p: seq<Event>)
    requires OnlyKills(p)
    ensures Run(n, p).next == Init(n)
    ensures var out := Run(n, p).out;
      Invoked(out) == [] && Killed(out) == Cycles(Iota(n), |p|) && Thrown(out) == [] && DoneCount(out) == 0
  {
    if p != [] {
      var q := p[..|p| - 1];
      Idle(n, q);
      var before := Run(n, q);
      assert Run(n, p) == Reaction(Init(n), before.out + KillAll(n));
      KillAllTrace(n);
      TraceAppend(before.out, KillAll(n));
    }
  }

  /** The invoke itself, after any number of kills: every child is invoked. */
  lemma RunAtInvoke(n: nat, p: seq<Event>)
    requires n > 0 && OnlyKills(p)
    ensures var evs := p + [Invoke];
      Inv(n, DoneEvents(evs), KillEvents(evs), Errors(evs), Run(n, evs))
  {
    var evs := p + [Invoke];
    Idle(n, p);
    KillsCounted(p);
    var before := Run(n, p);
    assert Run(n, evs) == Reaction(State(n, 0, true), before.out + InvokeAll(n))
        && DoneEvents(evs) == 0 && KillEvents(evs) == |p| && Errors(evs) == [] by {
      assert evs[..|evs| - 1] == p && evs[|evs| - 1] == Invoke;
    }
    InvokeAllTrace(n);
    TraceAppend(before.out, InvokeAll(n));
  }

  lemma InvStep(n: nat, d: nat, kills: nat, errs: seq<Error>, r: Reaction<State>, e: Event)
    requires n > 0 && Inv(n, d, kills, errs, r) && !e.Invoke?
    ensures
      var last := Step(r.next, e);
      Inv(n, d + (if e.ChildDone? then 1 else 0),
          kills + (if e.Kill? then 1 else 0),
          errs + (if e.ChildThrow? then [e.error] else []),
          Reaction(last.next, r.out + last.out))
  {
    var last := Step(r.next, e);
    TraceAppend(r.out, last.out);
    match e
    case ChildDone(_) =>
      if last.out != [] {
        assert last.out == [Done] && last.out[1..] == [];
      }
    case ChildThrow(_, err) =>
      assert last.out == [Throw(err)] && last.out[1..] == [];
    case Kill =>
      KillAllTrace(n);
  }

  // ---------------------------------------------------------------------
  // Runs in which the children keep the process contract

  /** The child event e, arriving after the events `prior`, comes from a child
      that has been invoked and has not reported yet. */
  ghost predicate FromLiveChild(n: nat, prior: seq<Event>, e: Event)
  {
    (e.ChildDone? || e.ChildThrow?) ==>
      && e.child in Invoked(Run(n, prior).out)
      && DoneFrom(prior, e.child) == 0
      && ThrowFrom(prior, e.child) == 0
  }

  /** Every child reports at most once, and only after it was invoked. */
  ghost predicate Obeys(n: nat, evs: seq<Event>)
  {
    forall i | 0 <= i < |evs| :: FromLiveChild(n, evs[..i], evs[i])
  }

  lemma ObeysPrefix(n: nat, evs: seq<Event>)
    requires |evs| > 0 && Obeys(n, evs)
    ensures Obeys(n, evs[..|evs| - 1])
    ensures FromLiveChild(n, evs[..|evs| - 1], evs[|evs| - 1])
  {
    var p := evs[..|evs| - 1];
    forall i | 0 <= i < |p| ensures FromLiveChild(n, p[..i], p[i]) {
      assert p[..i] == evs[..i];
      assert p[i] == evs[i];
    }
    assert FromLiveChild(n, evs[..|evs| - 1], evs[|evs| - 1]);
  }

  /** The children that have called onDone. */
  function Reported(evs: seq<Event>): set<nat>
  {
    if evs == [] then {}
    else Reported(evs[..|evs| - 1]) + (if evs[|evs| - 1].ChildDone? then {evs[|evs| - 1].child} else {})
  }

  /** The children 0 .. n - 1 as a set. */
  function Range(n: nat): (r: set<nat>)
    ensures forall j: nat :: j in r <==> j < n
    ensures |r| == n
  {
    if n == 0 then {} else
      var r := Range(n - 1) + {n - 1};
      assert forall j: nat :: j in r <==> j < n;
      r
  }

  /** Under the process contract every onDone call comes from a different
      child of the list, so the counter equals the number of children that
      have completed. */
  lemma {:induction false} CounterCountsChildren(n: nat, evs: seq<Event>)
    requires n > 0 && SingleInvoke(evs) && Obeys(n, evs)
    ensures Reported(evs) <= Range(n)
    ensures |Reported(evs)| == DoneEvents(evs)
    ensures forall j: nat :: j in Reported(evs) <==> DoneFrom(evs, j) > 0
    decreases |evs|
  {
    var p := evs[..|evs| - 1];
    var e := evs[|evs| - 1];
    if e.Invoke? {
      KillsCounted(p);
      NoneReported(p);
      assert Reported(evs) == {};
      forall j: nat ensures DoneFrom(evs, j) == 0 {
        assert DoneFrom(p, j) == 0;
      }
    } else {
      ObeysPrefix(n, evs);
      CounterCountsChildren(n, p);
      RunInvariant(n, p);
      forall j: nat
        ensures DoneFrom(evs, j) == DoneFrom(p, j) + (if e == ChildDone(j) then 1 else 0)
      {
      }
      if e.ChildDone? {
        assert e.child in Iota(n);
        assert e.child !in Reported(p);
        assert Reported(evs) == Reported(p) + {e.child};
      } else {
        assert Reported(evs) == Reported(p);
      }
    }
  }

  /** With no onDone call, no child has reported. */
  lemma {:induction false} NoneReported(evs: seq<Event>)
    requires DoneEvents(evs) == 0
    ensures Reported(evs) == {}
  {
    if evs != [] {
      NoneReported(evs[..|evs| - 1]);
    }
  }

  lemma FullSubset(a: set<nat>, n: nat)
    requires a <= Range(n) && |a| >= n
    ensures a == Range(n)
  {
    var rest := Range(n) - a;
    assert Range(n) == a + rest;
    assert |Range(n)| == |a| + |rest|;
    assert rest == {};
  }

  /** When the children keep the process contract, the parallel fires onDone
      at most once, and it has fired exactly when every child of the list has
      called onDone. */
  lemma DoneIffAllReported(n: nat, evs: seq<Event>)
    requires n > 0 && SingleInvoke(evs) && Obeys(n, evs)
    ensures DoneCount(Run(n, evs).out) <= 1
    ensures DoneCount(Run(n, evs).out) == 1 <==> forall j :: 0 <= j < n ==> ChildDone(j) in evs
  {
    RunInvariant(n, evs);
    CounterCountsChildren(n, evs);
    var d := DoneEvents(evs);
    assert d <= n by {
      assert |Reported(evs)| <= |Range(n)| by {
        assert Range(n) == Reported(evs) + (Range(n) - Reported(evs));
      }
    }
    if forall j :: 0 <= j < n ==> ChildDone(j) in evs {
      forall j | j in Range(n) ensures j in Reported(evs) {
        DoneCounted(evs, j);
      }
      assert Reported(evs) == Range(n);
    } else {
      var j :| 0 <= j < n && ChildDone(j) !in evs;
      DoneCounted(evs, j);
      assert j !in Reported(evs);
      assert d < n by {
        if d >= n {
          FullSubset(Reported(evs), n);
        }
      }
    }
  }

  // ---------------------------------------------------------------------
  // Re-invocation

  /** An empty parallel never leaves its initial state. */
  lemma {:induction false} EmptyStaysInitial(evs: seq<Event>)
    ensures Run(0, evs).next == Init(0)
    decreases |evs|
  {
    if evs != [] {
      EmptyStaysInitial(evs[..|evs| - 1]);
    }
  }

  lemma RunSnoc(n: nat, evs: seq<Event>, e: Event)
    ensures var before := Run(n, evs);
      Run(n, evs + [e]) == Reaction(Step(before.next, e).next, before.out + Step(before.next, e).out)
  {
    var x := evs + [e];
    assert x[..|x| - 1] == evs && x[|x| - 1] == e;
  }

  /** After an invoke a parallel is in the state a fresh one reaches by an
      invoke: nothing before the invoke is remembered, not even a kill. */
  lemma AfterInvoke(n: nat, pre: seq<Event>)
    ensures Run(n, pre + [Invoke]).next == Run(n, [Invoke]).next
  {
    RunSnoc(n, pre, Invoke);
    RunSnoc(n, [], Invoke);
    assert [] + [Invoke] == [Invoke];
    if n == 0 {
      EmptyStaysInitial(pre);
    }
  }

  /** Two runs that reach the same state go on alike: the same events then
      move both to the same state and append the same signals. */
  lemma {:induction false} Continues(n: nat, a: seq<Event>, b: seq<Event>, post: seq<Event>)
    requires Run(n, a).next == Run(n, b).next
    ensures Run(n, a + post).next == Run(n, b + post).next
    ensures |Run(n, b).out| <= |Run(n, b + post).out|
    ensures Run(n, a + post).out == Run(n, a).out + Run(n, b + post).out[|Run(n, b).out|..]
    decreases |post|
  {
    if post == [] {
      assert a + post == a && b + post == b;
    } else {
      var q := post[..|post| - 1];
      var e := post[|post| - 1];
      Continues(n, a, b, q);
      SnocSplit(a, post);
      SnocSplit(b, post);
      RunSnoc(n, a + q, e);
      RunSnoc(n, b + q, e);
      TailAppend(Run(n, a).out, Run(n, b + q).out, Step(Run(n, a + q).next, e).out, |Run(n, b).out|);
    }
  }

  /** Re-invoking a parallel: whatever came before an invoke (earlier
      invocations, reports from children not yet wired, kills), the signals
      after it are exactly those a fresh parallel emits after its invoke,
      and the two end in the same state. So the single-invoke lemmas above
      describe everything after the latest invoke. */
  lemma Reinvoke(n: nat, pre: seq<Event>, post: seq<Event>)
    ensures && (InvokeEvents(post) == 0 ==> SingleInvoke([Invoke] + post))
            && Run(n, pre + [Invoke] + post).next == Run(n, [Invoke] + post).next
            && |Run(n, [Invoke]).out| <= |Run(n, [Invoke] + post).out|
            && Run(n, pre + [Invoke] + post).out
               == Run(n, pre + [Invoke]).out + Run(n, [Invoke] + post).out[|Run(n, [Invoke]).out|..]
  {
    if InvokeEvents(post) == 0 {
      FreshInvocation([], post);
      assert KilledPrefix([]) + [Invoke] + post == [Invoke] + post;
    }
    AfterInvoke(n, pre);
    Continues(n, pre + [Invoke], [Invoke], post);
  }

  // ---------------------------------------------------------------------
  // The combinator as an object

  /** A ParallelP over `size` children. `trace` records every signal it has
      emitted. */
  class ParallelP {
    const size: nat
    var doneNum: nat
    var wired: bool
    var trace: seq<Signal>

    function Model(): State
      reads this
    {
      State(size, doneNum, wired)
    }

    constructor(size: nat)
      ensures Model() == Init(size) && trace == []
    {
      this.size := size;
      doneNum := 0;
      wired := false;
      trace := [];
    }

    method Invoke()
      modifies this
      ensures Model() == Step(old(Model()), Event.Invoke).next
      ensures trace == old(trace) + Step(old(Model()), Event.Invoke).out
    {
      if size == 0 {
        trace := trace + [Done];
        return;
      }
      doneNum := 0;
      wired := true;
      var i := 0;
      while i < size
        invariant 0 <= i <= size
        invariant Model() == State(size, 0, true)
        invariant trace == old(trace) + InvokeAll(i)
      {
        trace := trace + [InvokeChild(i)];
        i := i + 1;
      }
    }

    /** The counting continuation, called through child j's onDone. */
    method ChildDone(j: nat)
      modifies this
      ensures Model() == Step(old(Model()), Event.ChildDone(j)).next
      ensures trace == old(trace) + Step(old(Model()), Event.ChildDone(j)).out
    {
      if !wired {
        return;
      }
      doneNum := doneNum + 1;
      if doneNum >= size {
        trace := trace + [Done];
      }
    }

    /** Child j's onThrow, bound to the parallel's own onThrow. */
    method ChildThrow(j: nat, err: Error)
      modifies this
      ensures Model() == Step(old(Model()), Event.ChildThrow(j, err)).next
      ensures trace == old(trace) + Step(old(Model()), Event.ChildThrow(j, err)).out
    {
      if wired {
        trace := trace + [Throw(err)];
      }
    }

    method Kill()
      modifies this
      ensures Model() == Step(old(Model()), Event.Kill).next
      ensures trace == old(trace) + Step(old(Model()), Event.Kill).out
    {
      var i := 0;
      while i < size
        invariant 0 <= i <= size
        invariant Model() == old(Model())
        invariant trace == old(trace) + KillAll(i)
      {
        trace := trace + [KillChild(i)];
        i := i + 1;
      }
    }
  }
}
