/**
 * ClosureP: a process built afresh on every invoke. Invoke calls the factory
 * once, remembers the product as the one being run, hands it the closure's
 * onDone / onThrow and invokes it. Kill is forwarded to the product being
 * run, and does nothing before the first invoke. Construction does not call
 * the factory.
 *
 * Products are numbered by creation: child j is what the (j + 1)-th factory
 * call returned.
 */
module Closure {
  import opened Process

  /** The number of factory calls so far and the product being run. */
  datatype State = State(made: nat, invoking: Option<nat>)

  const Init := State(0, None)

  /** How a ClosureP reacts to one event. Only a product that was created by
      an invoke had its handlers set to the closure's; reports from any other
      child reach nothing. */
  function Step(s: State, e: Event): (r: Reaction<State>)
    ensures r.next.made == s.made + (if e.Invoke? then 1 else 0)
    ensures e.Invoke? ==> r.out == [InvokeChild(s.made)] && r.next.invoking == Some(s.made)
    ensures e.ChildDone? || e.ChildThrow? ==> (r.out != [] <==> e.child < s.made)
    ensures e.Kill? && s.invoking.None? ==> r.out == []
  {
    match e
    case Invoke => Reaction(State(s.made + 1, Some(s.made)), [InvokeChild(s.made)])
    case ChildDone(j) => Reaction(s, if j < s.made then [Done] else [])
    case ChildThrow(j, err) => Reaction(s, if j < s.made then [Throw(err)] else [])
    case Kill => Reaction(s, if s.invoking.Some? then [KillChild(s.invoking.value)] else [])
  }

  /** The state reached, and every signal emitted, when a fresh ClosureP
      receives the events `evs` one at a time. */
  function Run(evs: seq<Event>): Reaction<State>
    decreases |evs|
  {
    if evs == [] then Reaction(Init, [])
    else
      var before := Run(evs[..|evs| - 1]);
      var last := Step(before.next, evs[|evs| - 1]);
      Reaction(last.next, before.out + last.out)
  }

  /** What FactoryOncePerInvoke states about a run r with k invokes. */
  ghost predicate Made(k: nat, r: Reaction<State>)
  {
    && r.next.made == k
    && r.next.invoking == (if k == 0 then None else Some(k - 1))
    && Invoked(r.out) == Iota(k)
  }

  /** The factory is called exactly once per invoke; every product is invoked
      once, in creation order; the product being run is the latest one. */
  lemma {:induction false} FactoryOncePerInvoke(evs: seq<Event>)
    ensures Made(InvokeEvents(evs), Run(evs))
    decreases |evs|
  {
    if evs != [] {
      var p := evs[..|evs| - 1];
      var e := evs[|evs| - 1];
      FactoryOncePerInvoke(p);
      var before := Run(p);
      var k := InvokeEvents(p);
      MadeStep(k, before, e);
      var last := Step(before.next, e);
      assert Run(evs) == Reaction(last.next, before.out + last.out);
      assert InvokeEvents(evs) == k + (if e.Invoke? then 1 else 0);
    }
  }

  lemma MadeStep(k: nat, before: Reaction<State>, e: Event)
    requires Made(k, before)
    ensures var last := Step(before.next, e);
      Made(k + (if e.Invoke? then 1 else 0), Reaction(last.next, before.out + last.out))
  {
    var last := Step(before.next, e);
    TraceAppend(before.out, last.out);
    if last.out != [] {
      assert last.out == [last.out[0]];
      SingleTrace(last.out[0]);
    }
    if e.Invoke? {
      assert Iota(k + 1) == Iota(k) + [k];
    }
  }

  /** Until the first invoke a ClosureP does nothing at all: construction
      does not call the factory, and kill forwards nothing. */
  lemma {:induction false} IdleUntilInvoked(evs: seq<Event>)
    requires InvokeEvents(evs) == 0
    ensures Run(evs) == Reaction(Init, [])
    decreases |evs|
  {
    if evs != [] {
      IdleUntilInvoked(evs[..|evs| - 1]);
    }
  }

  /** A kill is forwarded to the most recently created product, and to nothing
      before the first invoke. */
  lemma KillForwardsToLatest(evs: seq<Event>)
    ensures Step(Run(evs).next, Kill).out ==
      (if InvokeEvents(evs) == 0 then [] else [KillChild(InvokeEvents(evs) - 1)])
  {
    FactoryOncePerInvoke(evs);
  }

  /** Every report comes from a product the closure has already created. */
  ghost predicate FromProducts(evs: seq<Event>)
  {
    forall i | 0 <= i < |evs| ::
      (evs[i].ChildDone? || evs[i].ChildThrow?) ==> evs[i].child < InvokeEvents(evs[..i])
  }

  /** When every report comes from a created product, the closure relays
      every onDone and every failure of its products, unchanged and in
      order. */
  lemma {:induction false} RelaysProducts(evs: seq<Event>)
    requires FromProducts(evs)
    ensures DoneCount(Run(evs).out) == DoneEvents(evs)
    ensures Thrown(Run(evs).out) == Errors(evs)
    decreases |evs|
  {
    if evs != [] {
      var p := evs[..|evs| - 1];
      var e := evs[|evs| - 1];
      assert FromProducts(p) by {
        forall i | 0 <= i < |p| ensures p[..i] == evs[..i] && p[i] == evs[i] {
        }
      }
      RelaysProducts(p);
      FactoryOncePerInvoke(p);
      var before := Run(p);
      var last := Step(before.next, e);
      TraceAppend(before.out, last.out);
      if e.ChildDone? || e.ChildThrow? {
        assert e.child < InvokeEvents(evs[..|evs| - 1]);
        assert last.out[1..] == [];
      }
    }
  }

  // ---------------------------------------------------------------------
  // The combinator as an object

  /** A ClosureP; `made` counts the factory calls and `trace` records every
      signal emitted. */
  class ClosureP {
    var made: nat
    var invoking: Option<nat>
    var trace: seq<Signal>

    function Model(): State
      reads this
    {
      State(made, invoking)
    }

    constructor()
      ensures Model() == Init && trace == []
    {
      made := 0;
      invoking := None;
      trace := [];
    }

    method Invoke()
      modifies this
      ensures Model() == Step(old(Model()), Event.Invoke).next
      ensures trace == old(trace) + Step(old(Model()), Event.Invoke).out
    {
      var p := made;
      made := made + 1;
      invoking := Some(p);
      trace := trace + [InvokeChild(p)];
    }

    /** Child j's onDone: the closure's onDone once an invoke handed it over. */
    method ChildDone(j: nat)
      modifies this
      ensures Model() == Step(old(Model()), Event.ChildDone(j)).next
      ensures trace == old(trace) + Step(old(Model()), Event.ChildDone(j)).out
    {
      if j < made {
        trace := trace + [Done];
      }
    }

    /** Child j's onThrow: the closure's onThrow once an invoke handed it over. */
    method ChildThrow(j: nat, err: Error)
      modifies this
      ensures Model() == Step(old(Model()), Event.ChildThrow(j, err)).next
      ensures trace == old(trace) + Step(old(Model()), Event.ChildThrow(j, err)).out
    {
      if j < made {
        trace := trace + [Throw(err)];
      }
    }

    method Kill()
      modifies this
      ensures Model() == Step(old(Model()), Event.Kill).next
      ensures trace == old(trace) + Step(old(Model()), Event.Kill).out
    {
      if invoking.Some? {
        trace := trace + [KillChild(invoking.value)];
      }
    }
  }
}
