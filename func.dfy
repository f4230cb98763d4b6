/**
 * FuncP: a leaf process that runs a plain function. Each invoke runs the
 * function once; when it returns, the process fires onDone, and when it
 * throws, the process fires onThrow with what was thrown. Its onKill is
 * replaced by a no-op. EmptyP is the FuncP whose function does nothing.
 *
 * FuncP has no mutable fields, so it is modelled by functions: the wrapped
 * function is given as the outcome of each of its calls.
 */
module Func {
  import opened Process

  /** How one call of the wrapped function ended. */
  datatype Outcome = Returned | Raised(error: Error)

  /** FuncP.invoke for one call of the wrapped function: exactly one of
      onDone or onThrow fires, onThrow exactly when the function threw and
      with the throwable it threw; no child is involved. */
  function Invoke(o: Outcome): (out: seq<Signal>)
    ensures Completions(out) == 1
    ensures DoneCount(out) == 1 <==> o.Returned?
    ensures Thrown(out) == (if o.Raised? then [o.error] else [])
    ensures Invoked(out) == [] && Killed(out) == []
  {
    match o
    case Returned => assert [Done][1..] == []; [Done]
    case Raised(err) =>
      assert [Throw(err)][1..] == [];
      assert DoneCount([Throw(err)]) == 0 && Thrown([Throw(err)]) == [err];
      [Throw(err)]
  }

  /** How a FuncP reacts to one event, given its function's calls so far
      (`calls`) and the outcome of every call (`func(k)` for the k-th). A
      FuncP has no children, and its kill does nothing. */
  function Step(func: nat -> Outcome, calls: nat, e: Event): (r: Reaction<nat>)
    ensures r.next == calls + (if e.Invoke? then 1 else 0)
    ensures e.Invoke? ==> Completions(r.out) == 1 && Invoked(r.out) == [] && Killed(r.out) == []
    ensures !e.Invoke? ==> r.out == []
  {
    match e
    case Invoke => Reaction(calls + 1, Invoke(func(calls)))
    case _ => Reaction(calls, [])
  }

  /** The calls made and the signals emitted by a fresh FuncP receiving the
      events `evs`. */
  function Run(func: nat -> Outcome, evs: seq<Event>): Reaction<nat>
    decreases |evs|
  {
    if evs == [] then Reaction(0, [])
    else
      var before := Run(func, evs[..|evs| - 1]);
      var last := Step(func, before.next, evs[|evs| - 1]);
      Reaction(last.next, before.out + last.out)
  }

  /** The throwables raised by the first k calls of the function, in order. */
  function Raises(func: nat -> Outcome, k: nat): seq<Error>
  {
    if k == 0 then []
    else Raises(func, k - 1) + (if func(k - 1).Raised? then [func(k - 1).error] else [])
  }

  /** How many of the first k calls of the function returned normally. */
  function Returns(func: nat -> Outcome, k: nat): nat
  {
    if k == 0 then 0
    else Returns(func, k - 1) + (if func(k - 1).Returned? then 1 else 0)
  }

  /** What OneCompletionPerInvoke states about a run r with k invokes. */
  ghost predicate Answered(func: nat -> Outcome, k: nat, r: Reaction<nat>)
  {
    && r.next == k
    && Completions(r.out) == k
    && DoneCount(r.out) == Returns(func, k)
    && Thrown(r.out) == Raises(func, k)
    && Invoked(r.out) == [] && Killed(r.out) == []
  }

  /** Over any run, the function is called once per invoke and never
      otherwise; every call is answered by exactly one completion, onDone for
      a return and onThrow (with the throwable) for a raise; kill does
      nothing. */
  lemma {:induction false} OneCompletionPerInvoke(func: nat -> Outcome, evs: seq<Event>)
    ensures Answered(func, InvokeEvents(evs), Run(func, evs))
    decreases |evs|
  {
    if evs != [] {
      var p := evs[..|evs| - 1];
      var e := evs[|evs| - 1];
      OneCompletionPerInvoke(func, p);
      var before := Run(func, p);
      var k := InvokeEvents(p);
      var last := Step(func, before.next, e);
      assert Run(func, evs) == Reaction(last.next, before.out + last.out)
          && InvokeEvents(evs) == k + (if e.Invoke? then 1 else 0) by {
        assert evs[..|evs| - 1] == p && evs[|evs| - 1] == e;
      }
      AnsweredStep(func, k, before, e);
    }
  }

  lemma AnsweredStep(func: nat -> Outcome, k: nat, before: Reaction<nat>, e: Event)
    requires Answered(func, k, before)
    ensures var last := Step(func, before.next, e);
      Answered(func, k + (if e.Invoke? then 1 else 0), Reaction(last.next, before.out + last.out))
  {
    if !e.Invoke? {
      assert before.out + [] == before.out;
    } else if func(k).Returned? {
      assert Invoke(func(k)) == [Done];
      AnsweredReturn(func, k, before);
    } else {
      assert Invoke(func(k)) == [Throw(func(k).error)];
      AnsweredRaise(func, k, before);
    }
  }

  /** A call that returns is answered by onDone. */
  lemma AnsweredReturn(func: nat -> Outcome, k: nat, before: Reaction<nat>)
    requires Answered(func, k, before) && func(k).Returned?
    ensures Answered(func, k + 1, Reaction(k + 1, before.out + [Done]))
  {
    var out := before.out + [Done];
    SingleTrace(Done);
    TraceAppend(before.out, [Done]);
    assert Thrown(out) == Thrown(before.out) + [] == Raises(func, k + 1);
    assert Invoked(out) == [] + [] == [];
    assert Killed(out) == [] + [] == [];
  }

  /** A call that raises is answered by onThrow with the throwable. */
  lemma AnsweredRaise(func: nat -> Outcome, k: nat, before: Reaction<nat>)
    requires Answered(func, k, before) && func(k).Raised?
    ensures Answered(func, k + 1, Reaction(k + 1, before.out + [Throw(func(k).error)]))
  {
    var x := Throw(func(k).error);
    var out := before.out + [x];
    SingleTrace(x);
    TraceAppend(before.out, [x]);
    assert Thrown(out) == Thrown(before.out) + [func(k).error] == Raises(func, k + 1);
    assert Invoked(out) == [] + [] == [];
    assert Killed(out) == [] + [] == [];
  }

  /** EmptyP: the FuncP whose function always returns. */
  function EmptyFunc(k: nat): Outcome
  {
    Returned
  }

  /** EmptyP completes through onDone, synchronously, on every invoke, and
      never fails. */
  lemma {:induction false} EmptyCompletesEveryInvoke(evs: seq<Event>)
    ensures Run(EmptyFunc, evs).out == Repeat(Done, InvokeEvents(evs))
    decreases |evs|
  {
    if evs != [] {
      EmptyCompletesEveryInvoke(evs[..|evs| - 1]);
    }
  }
}
