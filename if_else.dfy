/**
 * IfP: on each invoke, evaluates its predicate once and runs exactly one of
 * its two branches, the then-branch when the predicate is true and the
 * else-branch (EmptyP unless given) otherwise. The chosen branch gets the
 * if's onDone / onThrow and becomes the one being run. Kill is forwarded to
 * the branch being run; before the first invoke there is none, and the
 * source then dereferences a null reference, so the model makes "invoked at
 * least once" a precondition of kill.
 *
 * The then-branch is child 0, the else-branch child 1. The predicate is
 * given as the answer of each of its evaluations: `pred(k)` is what its
 * (k + 1)-th evaluation returns.
 */
module IfElse {
  import opened Process

  const Then: nat := 0
  const Else: nat := 1

  /** The branch the (k + 1)-th invoke runs. */
  function Branch(pred: nat -> bool, k: nat): nat
  {
    if pred(k) then Then else Else
  }

  /** The branches chosen by the first k invokes, in order. */
  function Choices(pred: nat -> bool, k: nat): seq<nat>
  {
    if k == 0 then [] else Choices(pred, k - 1) + [Branch(pred, k - 1)]
  }

  /** The branches chosen by at least one of the first k invokes. */
  function Chosen(pred: nat -> bool, k: nat): set<nat>
  {
    if k == 0 then {} else Chosen(pred, k - 1) + {Branch(pred, k - 1)}
  }

  /** The branch being run, the number of predicate evaluations so far, and
      the branches whose handlers have been set to the if's. */
  datatype State = State(active: Option<nat>, asked: nat, bound: set<nat>)

  const Init := State(None, 0, {})

  /** How an IfP reacts to one event. */
  function Step(pred: nat -> bool, s: State, e: Event): (r: Reaction<State>)
    requires e.Kill? ==> s.active.Some?
    ensures s.bound <= r.next.bound
    ensures !e.Invoke? ==> r.next == s
    ensures e.Invoke? ==> && r.next.asked == s.asked + 1 && r.next.active.Some?
                          && r.next.active.value in r.next.bound
                          && r.out == [InvokeChild(r.next.active.value)]
    ensures e.ChildDone? || e.ChildThrow? ==> (r.out != [] <==> e.child in s.bound)
  {
    match e
    case Invoke =>
      var b := Branch(pred, s.asked);
      Reaction(State(Some(b), s.asked + 1, s.bound + {b}), [InvokeChild(b)])
    case ChildDone(j) => Reaction(s, if j in s.bound then [Done] else [])
    case ChildThrow(j, err) => Reaction(s, if j in s.bound then [Throw(err)] else [])
    case Kill => Reaction(s, [KillChild(s.active.value)])
  }

  /** No kill arrives before the first invoke. */
  predicate KillsAfterInvoke(evs: seq<Event>)
  {
    forall i | 0 <= i < |evs| :: evs[i].Kill? ==> InvokeEvents(evs[..i]) > 0
  }

  lemma KillsAfterInvokePrefix(evs: seq<Event>)
    requires |evs| > 0 && KillsAfterInvoke(evs)
    ensures KillsAfterInvoke(evs[..|evs| - 1])
    ensures evs[|evs| - 1].Kill? ==> InvokeEvents(evs[..|evs| - 1]) > 0
  {
    var p := evs[..|evs| - 1];
    forall i | 0 <= i < |p| ensures p[..i] == evs[..i] && p[i] == evs[i] {
    }
  }

  /** The state reached, and every signal emitted, when a fresh IfP receives
      the events `evs` one at a time. The predicate has been evaluated once
      per invoke, and some branch is being run from the first invoke on. */
  function Run(pred: nat -> bool, evs: seq<Event>): (r: Reaction<State>)
    requires KillsAfterInvoke(evs)
    ensures r.next.asked == InvokeEvents(evs)
    ensures r.next.active.Some? <==> InvokeEvents(evs) > 0
    decreases |evs|
  {
    if evs == [] then Reaction(Init, [])
    else
      KillsAfterInvokePrefix(evs);
      var before := Run(pred, evs[..|evs| - 1]);
      var last := Step(pred, before.next, evs[|evs| - 1]);
      Reaction(last.next, before.out + last.out)
  }

  /** What ChoosesByPredicate states about a run r with k invokes. */
  ghost predicate Chose(pred: nat -> bool, k: nat, r: Reaction<State>)
  {
    && r.next.asked == k
    && Invoked(r.out) == Choices(pred, k)
    && r.next.active == (if k == 0 then None else Some(Branch(pred, k - 1)))
    && r.next.bound == Chosen(pred, k)
  }

  /** Each invoke runs the branch its own predicate evaluation chose: the
      branches invoked are exactly the choices, in order; the branch being
      run is the latest choice; the branches handed the if's handlers are
      those chosen at least once. */
  lemma {:induction false} ChoosesByPredicate(pred: nat -> bool, evs: seq<Event>)
    requires KillsAfterInvoke(evs)
    ensures Chose(pred, InvokeEvents(evs), Run(pred, evs))
    decreases |evs|
  {
    if evs != [] {
      var p := evs[..|evs| - 1];
      var e := evs[|evs| - 1];
      KillsAfterInvokePrefix(evs);
      ChoosesByPredicate(pred, p);
      var before := Run(pred, p);
      var k := InvokeEvents(p);
      ChoseStep(pred, k, before, e);
      var last := Step(pred, before.next, e);
      assert Run(pred, evs) == Reaction(last.next, before.out + last.out);
      assert InvokeEvents(evs) == k + (if e.Invoke? then 1 else 0);
    }
  }

  lemma ChoseStep(pred: nat -> bool, k: nat, before: Reaction<State>, e: Event)
    requires Chose(pred, k, before) && (e.Kill? ==> k > 0)
    ensures var last := Step(pred, before.next, e);
      Chose(pred, k + (if e.Invoke? then 1 else 0), Reaction(last.next, before.out + last.out))
  {
    var last := Step(pred, before.next, e);
    if e.Invoke? {
      ChoseInvoke(pred, k, before);
    } else {
      assert last.next == before.next;
      if last.out == [] {
        assert before.out + last.out == before.out;
      } else {
        var x := last.out[0];
        assert last.out == [x] && !x.InvokeChild?;
        SingleTrace(x);
        InvokedAppend(before.out, [x]);
        assert Invoked(before.out + last.out) == Invoked(before.out) + [] == Invoked(before.out);
      }
    }
  }

  lemma ChoseInvoke(pred: nat -> bool, k: nat, before: Reaction<State>)
    requires Chose(pred, k, before)
    ensures var last := Step(pred, before.next, Invoke);
      Chose(pred, k + 1, Reaction(last.next, before.out + last.out))
  {
    var b := Branch(pred, k);
    assert Step(pred, before.next, Invoke) == Reaction(State(Some(b), k + 1, Chosen(pred, k) + {b}), [InvokeChild(b)]);
    SingleTrace(InvokeChild(b));
    InvokedAppend(before.out, [InvokeChild(b)]);
    assert Choices(pred, k + 1) == Choices(pred, k) + [b];
  }

  /** Exactly one branch per invoke: the (i + 1)-th invoke runs the
      then-branch if and only if the predicate's (i + 1)-th evaluation is
      true, and the else-branch otherwise. */
  lemma OneBranchPerInvoke(pred: nat -> bool, evs: seq<Event>)
    requires KillsAfterInvoke(evs)
    ensures var inv := Invoked(Run(pred, evs).out);
      && |inv| == InvokeEvents(evs)
      && forall i :: 0 <= i < |inv| ==> (inv[i] == Then <==> pred(i)) && (inv[i] == Else <==> !pred(i))
  {
    ChoosesByPredicate(pred, evs);
    ChoicesSpec(pred, InvokeEvents(evs));
  }

  lemma {:induction false} ChoicesSpec(pred: nat -> bool, k: nat)
    ensures |Choices(pred, k)| == k
    ensures forall i :: 0 <= i < k ==> Choices(pred, k)[i] == Branch(pred, i)
  {
    if k > 0 {
      ChoicesSpec(pred, k - 1);
    }
  }

  /** A kill is forwarded to the branch the latest invoke chose. */
  lemma KillForwardsToActive(pred: nat -> bool, evs: seq<Event>)
    requires KillsAfterInvoke(evs) && InvokeEvents(evs) > 0
    ensures Step(pred, Run(pred, evs).next, Kill).out ==
      [KillChild(if pred(InvokeEvents(evs) - 1) then Then else Else)]
  {
    ChoosesByPredicate(pred, evs);
  }

  /** Every report comes from a branch that an earlier invoke chose. */
  ghost predicate FromChosen(pred: nat -> bool, evs: seq<Event>)
  {
    forall i | 0 <= i < |evs| ::
      (evs[i].ChildDone? || evs[i].ChildThrow?) ==> evs[i].child in Chosen(pred, InvokeEvents(evs[..i]))
  }

  /** When every report comes from a branch that was run, the if relays every
      onDone and every failure, unchanged and in order. */
  lemma {:induction false} RelaysBranches(pred: nat -> bool, evs: seq<Event>)
    requires KillsAfterInvoke(evs) && FromChosen(pred, evs)
    ensures DoneCount(Run(pred, evs).out) == DoneEvents(evs)
    ensures Thrown(Run(pred, evs).out) == Errors(evs)
    decreases |evs|
  {
    if evs != [] {
      var p := evs[..|evs| - 1];
      var e := evs[|evs| - 1];
      KillsAfterInvokePrefix(evs);
      assert FromChosen(pred, p) by {
        forall i | 0 <= i < |p| ensures p[..i] == evs[..i] && p[i] == evs[i] {
        }
      }
      RelaysBranches(pred, p);
      ChoosesByPredicate(pred, p);
      var before := Run(pred, p);
      var k := InvokeEvents(p);
      assert (e.ChildDone? || e.ChildThrow?) ==> e.child in Chosen(pred, k);
      RelayStep(pred, k, before, e);
      var last := Step(pred, before.next, e);
      assert Run(pred, evs) == Reaction(last.next, before.out + last.out);
      assert DoneEvents(evs) == DoneEvents(p) + (if e.ChildDone? then 1 else 0);
      assert Errors(evs) == Errors(p) + (if e.ChildThrow? then [e.error] else []);
    }
  }

  /** One event of RelaysBranches: a report from a chosen branch is relayed. */
  lemma RelayStep(pred: nat -> bool, k: nat, before: Reaction<State>, e: Event)
    requires Chose(pred, k, before) && (e.Kill? ==> k > 0)
    requires (e.ChildDone? || e.ChildThrow?) ==> e.child in Chosen(pred, k)
    ensures var out := before.out + Step(pred, before.next, e).out;
      && DoneCount(out) == DoneCount(before.out) + (if e.ChildDone? then 1 else 0)
      && Thrown(out) == Thrown(before.out) + (if e.ChildThrow? then [e.error] else [])
  {
    var o := Step(pred, before.next, e).out;
    assert |o| == 1;
    var x := o[0];
    assert o == [x];
    SingleTrace(x);
    DoneCountAppend(before.out, [x]);
    ThrownAppend(before.out, [x]);
    if !e.ChildThrow? {
      assert Thrown(before.out) + [] == Thrown(before.out);
    }
  }

  // ---------------------------------------------------------------------
  // The combinator as an object

  /** An IfP over a predicate and two branches; `trace` records every signal
      emitted. */
  class IfP {
    const pred: nat -> bool
    var invoking: Option<nat>
    var asked: nat
    var bound: set<nat>
    var trace: seq<Signal>

    function Model(): State
      reads this
    {
      State(invoking, asked, bound)
    }

    constructor(pred: nat -> bool)
      ensures this.pred == pred && Model() == Init && trace == []
    {
      this.pred := pred;
      invoking := None;
      asked := 0;
      bound := {};
      trace := [];
    }

    method Invoke()
      modifies this
      ensures Model() == Step(pred, old(Model()), Event.Invoke).next
      ensures trace == old(trace) + Step(pred, old(Model()), Event.Invoke).out
    {
      var holds := pred(asked);
      asked := asked + 1;
      var b := if holds then Then else Else;
      bound := bound + {b};
      invoking := Some(b);
      trace := trace + [InvokeChild(b)];
    }

    /** Branch j's onDone: the if's onDone once an invoke chose that branch. */
    method ChildDone(j: nat)
      modifies this
      ensures Model() == Step(pred, old(Model()), Event.ChildDone(j)).next
      ensures trace == old(trace) + Step(pred, old(Model()), Event.ChildDone(j)).out
    {
      if j in bound {
        trace := trace + [Done];
      }
    }

    /** Branch j's onThrow: the if's onThrow once an invoke chose that branch. */
    method ChildThrow(j: nat, err: Error)
      modifies this
      ensures Model() == Step(pred, old(Model()), Event.ChildThrow(j, err)).next
      ensures trace == old(trace) + Step(pred, old(Model()), Event.ChildThrow(j, err)).out
    {
      if j in bound {
        trace := trace + [Throw(err)];
      }
    }

    method Kill()
      requires invoking.Some?
      modifies this
      ensures Model() == Step(pred, old(Model()), Event.Kill).next
      ensures trace == old(trace) + Step(pred, old(Model()), Event.Kill).out
    {
      trace := trace + [KillChild(invoking.value)];
    }
  }
}
