/**
 * WhileP: runs its body again and again while its predicate holds.
 *
 * Invoke hands the body the loop check as its onDone and the while's own
 * onThrow as its onThrow, then runs the loop check once. The loop check
 * exits through the while's onDone when the while has been killed or the
 * predicate is false (the predicate is not evaluated once killed), and
 * invokes the body otherwise. Kill sets the killed flag and forwards the
 * kill to the body; a killed loop therefore ends through onDone at its next
 * check, not through onThrow. Nothing resets the flag.
 *
 * The body is child 0. The predicate is given as the answer of each of its
 * evaluations: `pred(k)` is what its (k + 1)-th evaluation returns.
 */
module WhileLoop {
  import opened Process

  /** The killed flag, the number of predicate evaluations so far, and
      whether invoke has handed the body the loop check. */
  datatype State = State(killed: bool, asked: nat, wired: bool)

  const Init := State(false, 0, false)

  /** One loop check. */
  function Loop(pred: nat -> bool, s: State): (r: Reaction<State>)
    ensures |r.out| == 1 && r.next.killed == s.killed && r.next.wired == s.wired
    ensures r.out == [InvokeChild(0)] <==> !s.killed && pred(s.asked)
    ensures r.out == [Done] <==> s.killed || !pred(s.asked)
    ensures r.next.asked == (if s.killed then s.asked else s.asked + 1)
  {
    if s.killed then Reaction(s, [Done])
    else if pred(s.asked) then Reaction(s.(asked := s.asked + 1), [InvokeChild(0)])
    else Reaction(s.(asked := s.asked + 1), [Done])
  }

  /** How a WhileP reacts to one event. Before the first invoke the body's
      handlers are not the loop's, so its reports reach nothing. */
  function Step(pred: nat -> bool, s: State, e: Event): (r: Reaction<State>)
    ensures r.next.killed == (s.killed || e.Kill?)
    ensures r.next.wired == (s.wired || e.Invoke?)
    ensures r.next.asked <= s.asked + 1
    ensures e.Kill? ==> r.out == [KillChild(0)]
  {
    match e
    case Invoke => Loop(pred, s.(wired := true))
    case ChildDone(_) => if s.wired then Loop(pred, s) else Reaction(s, [])
    case ChildThrow(_, err) => Reaction(s, if s.wired then [Throw(err)] else [])
    case Kill => Reaction(s.(killed := true), [KillChild(0)])
  }

  /** The state reached, and every signal emitted, when a fresh WhileP
      receives the events `evs` one at a time. The loop is wired from its
      first invoke on and killed from its first kill on. */
  function Run(pred: nat -> bool, evs: seq<Event>): (r: Reaction<State>)
    ensures r.next.wired <==> InvokeEvents(evs) > 0
    ensures r.next.killed <==> KillEvents(evs) > 0
    decreases |evs|
  {
    if evs == [] then Reaction(Init, [])
    else
      var before := Run(pred, evs[..|evs| - 1]);
      var last := Step(pred, before.next, evs[|evs| - 1]);
      Reaction(last.next, before.out + last.out)
  }

  /** If the predicate holds for its first K evaluations and fails at the
      next, then after j <= K completions of the body the body has been
      invoked j + 1 times, or the loop has exited once j reaches K. */
  lemma {:induction false} Iterates(pred: nat -> bool, k: nat, j: nat)
    requires forall i :: 0 <= i < k ==> pred(i)
    requires !pred(k) && j <= k
    ensures Run(pred, [Invoke] + Repeat(ChildDone(0), j)) ==
      Reaction(State(false, j + 1, true),
               Repeat(InvokeChild(0), j) + [if j < k then InvokeChild(0) else Done])
  {
    if j == 0 {
      assert [Invoke] + Repeat(ChildDone(0), 0) == [Invoke];
      assert [Invoke][..0] == [];
    } else {
      var evs := [Invoke] + Repeat(ChildDone(0), j);
      assert evs[..|evs| - 1] == [Invoke] + Repeat(ChildDone(0), j - 1);
      assert evs[|evs| - 1] == ChildDone(0);
      Iterates(pred, k, j - 1);
      assert pred(j - 1);
    }
  }

  lemma {:induction false} InvokedRepeat(j: nat)
    ensures Invoked(Repeat(InvokeChild(0), j)) == Repeat(0, j)
    ensures DoneCount(Repeat(InvokeChild(0), j)) == 0
  {
    if j > 0 {
      InvokedRepeat(j - 1);
      TraceAppend(Repeat(InvokeChild(0), j - 1), [InvokeChild(0)]);
    }
  }

  /** If the predicate returns true exactly K times and then false, the body
      is invoked exactly K times, then the loop's onDone fires once; the
      predicate is evaluated K + 1 times. */
  lemma LoopsExactly(pred: nat -> bool, k: nat)
    requires forall i :: 0 <= i < k ==> pred(i)
    requires !pred(k)
    ensures var r := Run(pred, [Invoke] + Repeat(ChildDone(0), k));
      && Invoked(r.out) == Repeat(0, k)
      && DoneCount(r.out) == 1
      && r.next.asked == k + 1
  {
    Iterates(pred, k, k);
    InvokedRepeat(k);
    TraceAppend(Repeat(InvokeChild(0), k), [Done]);
  }

  /** The loop checks that the events `evs` run, arriving at a loop that is
      wired (`wired`) or not yet: one per invoke, and one per completion of
      the body once an invoke has handed the body the loop check. */
  function Checks(wired: bool, evs: seq<Event>): nat
  {
    if evs == [] then 0
    else
      var p, e := evs[..|evs| - 1], evs[|evs| - 1];
      Checks(wired, p) + (if e.Invoke? || (e.ChildDone? && (wired || InvokeEvents(p) > 0)) then 1 else 0)
  }

  /** The body failures among `evs` that reach the loop's onThrow: those
      reported once an invoke has handed the body the loop's onThrow. */
  function Relays(wired: bool, evs: seq<Event>): seq<Error>
  {
    if evs == [] then []
    else
      var p, e := evs[..|evs| - 1], evs[|evs| - 1];
      Relays(wired, p) + (if e.ChildThrow? && (wired || InvokeEvents(p) > 0) then [e.error] else [])
  }

  /** What KillFreezes states about the run r that follows the run r0 by a
      kill and then events that run `checks` loop checks, forward `kills`
      more kills and relay the body failures `errs`; `wired` says whether an
      invoke has come by then. */
  ghost predicate Frozen(r: Reaction<State>, r0: Reaction<State>, wired: bool, checks: nat, kills: nat, errs: seq<Error>)
  {
    && r.next == State(true, r0.next.asked, wired)
    && Invoked(r.out) == Invoked(r0.out)
    && DoneCount(r.out) == DoneCount(r0.out) + checks
    && Thrown(r.out) == Thrown(r0.out) + errs
    && Killed(r.out) == Killed(r0.out) + Repeat(0, 1 + kills)
  }

  /** Once killed, before or after its invoke, a loop never evaluates its
      predicate again and never invokes its body again: each later loop
      check exits through onDone; failures that reach the loop are still
      relayed and every kill is still forwarded to the body. */
  lemma {:induction false} KillFreezes(pred: nat -> bool, pre: seq<Event>, post: seq<Event>)
    ensures var w := InvokeEvents(pre) > 0;
      Frozen(Run(pred, pre + [Kill] + post), Run(pred, pre), w || InvokeEvents(post) > 0,
             Checks(w, post), KillEvents(post), Relays(w, post))
    decreases |post|
  {
    var w := InvokeEvents(pre) > 0;
    var r0 := Run(pred, pre);
    if post == [] {
      assert pre + [Kill] + post == pre + [Kill];
      KilledOnce(pred, pre);
    } else {
      var q := post[..|post| - 1];
      var e := post[|post| - 1];
      KillFreezes(pred, pre, q);
      var before := Run(pred, pre + [Kill] + q);
      var wired := w || InvokeEvents(q) > 0;
      var checks, kills, errs := Checks(w, q), KillEvents(q), Relays(w, q);
      FrozenStep(pred, before, r0, wired, checks, kills, errs, e);
      var last := Step(pred, before.next, e);
      assert Run(pred, pre + [Kill] + post) == Reaction(last.next, before.out + last.out) by {
        var evs := pre + [Kill] + post;
        assert evs[..|evs| - 1] == pre + [Kill] + q;
        assert evs[|evs| - 1] == e;
      }
      assert (w || InvokeEvents(post) > 0) == (wired || e.Invoke?);
      assert Checks(w, post) == checks + (if e.Invoke? || (e.ChildDone? && wired) then 1 else 0);
      assert KillEvents(post) == kills + (if e.Kill? then 1 else 0);
      assert Relays(w, post) == errs + (if e.ChildThrow? && wired then [e.error] else []);
    }
  }

  /** The kill itself: it marks the loop killed and is forwarded to the body. */
  lemma KilledOnce(pred: nat -> bool, pre: seq<Event>)
    ensures Frozen(Run(pred, pre + [Kill]), Run(pred, pre), InvokeEvents(pre) > 0, 0, 0, [])
  {
    var r0 := Run(pred, pre);
    assert Run(pred, pre + [Kill]) == Reaction(r0.next.(killed := true), r0.out + [KillChild(0)]) by {
      var evs := pre + [Kill];
      assert evs[..|evs| - 1] == pre;
    }
    TraceAppend(r0.out, [KillChild(0)]);
    SingleTrace(KillChild(0));
  }

  lemma FrozenStep(pred: nat -> bool, before: Reaction<State>, r0: Reaction<State>,
                   wired: bool, checks: nat, kills: nat, errs: seq<Error>, e: Event)
    requires Frozen(before, r0, wired, checks, kills, errs)
    ensures var last := Step(pred, before.next, e);
      Frozen(Reaction(last.next, before.out + last.out), r0, wired || e.Invoke?,
             checks + (if e.Invoke? || (e.ChildDone? && wired) then 1 else 0),
             kills + (if e.Kill? then 1 else 0),
             errs + (if e.ChildThrow? && wired then [e.error] else []))
  {
    match e
    case Kill =>
      FrozenKill(before, r0, wired, checks, kills, errs);
    case ChildThrow(_, err) =>
      if wired {
        FrozenThrow(before, r0, checks, kills, errs, err);
      } else {
        assert before.out + [] == before.out;
      }
    case ChildDone(_) =>
      if wired {
        FrozenCheck(before, r0, wired, checks, kills, errs);
      } else {
        assert before.out + [] == before.out;
      }
    case Invoke =>
      FrozenCheck(before, r0, wired, checks, kills, errs);
  }

  lemma FrozenKill(before: Reaction<State>, r0: Reaction<State>, wired: bool, checks: nat, kills: nat, errs: seq<Error>)
    requires Frozen(before, r0, wired, checks, kills, errs)
    ensures Frozen(Reaction(before.next, before.out + [KillChild(0)]), r0, wired, checks, kills + 1, errs)
  {
    var out := before.out + [KillChild(0)];
    SingleTrace(KillChild(0));
    TraceAppend(before.out, [KillChild(0)]);
    assert Invoked(out) == Invoked(before.out) + [] == Invoked(before.out);
    assert Thrown(out) == Thrown(before.out) + [] == Thrown(before.out);
    assert DoneCount(out) == DoneCount(before.out);
    KilledGrows(Killed(r0.out), 1 + kills);
  }

  lemma KilledGrows(a: seq<nat>, k: nat)
    ensures (a + Repeat(0, k)) + [0] == a + Repeat(0, k + 1)
  {
    AppendAssoc(a, Repeat(0, k), [0]);
  }

  lemma FrozenThrow(before: Reaction<State>, r0: Reaction<State>, checks: nat, kills: nat, errs: seq<Error>, err: Error)
    requires Frozen(before, r0, true, checks, kills, errs)
    ensures Frozen(Reaction(before.next, before.out + [Throw(err)]), r0, true, checks, kills, errs + [err])
  {
    var out := before.out + [Throw(err)];
    SingleTrace(Throw(err));
    TraceAppend(before.out, [Throw(err)]);
    assert Invoked(out) == Invoked(before.out) + [] == Invoked(before.out);
    assert Killed(out) == Killed(before.out) + [] == Killed(before.out);
    assert DoneCount(out) == DoneCount(before.out);
    AppendAssoc(Thrown(r0.out), errs, [err]);
    assert Thrown(out) == Thrown(r0.out) + (errs + [err]);
  }

  /** A loop check of a killed loop: onDone, and the loop is wired after it. */
  lemma FrozenCheck(before: Reaction<State>, r0: Reaction<State>, wired: bool, checks: nat, kills: nat, errs: seq<Error>)
    requires Frozen(before, r0, wired, checks, kills, errs)
    ensures Frozen(Reaction(State(true, r0.next.asked, true), before.out + [Done]), r0, true, checks + 1, kills, errs)
  {
    var out := before.out + [Done];
    SingleTrace(Done);
    TraceAppend(before.out, [Done]);
    assert Invoked(out) == Invoked(before.out) + [] == Invoked(before.out);
    assert Killed(out) == Killed(before.out) + [] == Killed(before.out);
    assert Thrown(out) == Thrown(before.out) + [] == Thrown(before.out);
  }

  /** Before its invoke a loop evaluates nothing, invokes nothing and never
      fires onDone. */
  lemma {:induction false} Idle(pred: nat -> bool, pre: seq<Event>)
    requires InvokeEvents(pre) == 0
    ensures Run(pred, pre).next.asked == 0
    ensures Invoked(Run(pred, pre).out) == [] && DoneCount(Run(pred, pre).out) == 0
  {
    if pre != [] {
      var p := pre[..|pre| - 1];
      var e := pre[|pre| - 1];
      Idle(pred, p);
      var before := Run(pred, p);
      var last := Step(pred, before.next, e);
      assert Run(pred, pre) == Reaction(last.next, before.out + last.out);
      if e.Kill? {
        SingleTrace(KillChild(0));
        TraceAppend(before.out, [KillChild(0)]);
      } else {
        assert last.out == [];
        assert before.out + [] == before.out;
      }
    }
  }

  /** A kill that arrives before the invoke: the predicate is never
      evaluated and the body never invoked; every loop check, the invoke's
      included, exits through onDone at once. */
  lemma KilledBeforeInvokeExits(pred: nat -> bool, pre: seq<Event>, post: seq<Event>)
    requires InvokeEvents(pre) == 0
    ensures var r := Run(pred, pre + [Kill] + post);
      && r.next.asked == 0
      && Invoked(r.out) == []
      && DoneCount(r.out) == Checks(false, post)
  {
    Idle(pred, pre);
    KillFreezes(pred, pre, post);
  }

  /** What RelaysBody states about a run r with `checks` loop checks, `kills`
      kills and the relayed body failures `errs`. */
  ghost predicate Relayed(r: Reaction<State>, checks: nat, kills: nat, errs: seq<Error>)
  {
    && |Invoked(r.out)| + DoneCount(r.out) == checks
    && Invoked(r.out) == Repeat(0, |Invoked(r.out)|)
    && Killed(r.out) == Repeat(0, kills)
    && Thrown(r.out) == errs
  }

  /** Over any run, every loop check (one per invoke, and one per body
      completion once invoked) either invokes the body or fires onDone; the
      body is the only child ever invoked or killed; every kill is forwarded
      to it; every failure of the body after the invoke is relayed
      unchanged, and none before it. */
  lemma {:induction false} RelaysBody(pred: nat -> bool, evs: seq<Event>)
    ensures Relayed(Run(pred, evs), Checks(false, evs), KillEvents(evs), Relays(false, evs))
    decreases |evs|
  {
    if evs != [] {
      var p := evs[..|evs| - 1];
      var e := evs[|evs| - 1];
      RelaysBody(pred, p);
      var before := Run(pred, p);
      var checks, kills, errs := Checks(false, p), KillEvents(p), Relays(false, p);
      RelayedStep(pred, before, checks, kills, errs, e);
      var last := Step(pred, before.next, e);
      assert Run(pred, evs) == Reaction(last.next, before.out + last.out);
      assert Checks(false, evs) == checks + (if e.Invoke? || (e.ChildDone? && before.next.wired) then 1 else 0);
      assert KillEvents(evs) == kills + (if e.Kill? then 1 else 0);
      assert Relays(false, evs) == errs + (if e.ChildThrow? && before.next.wired then [e.error] else []);
    }
  }

  lemma RelayedStep(pred: nat -> bool, before: Reaction<State>, checks: nat, kills: nat, errs: seq<Error>, e: Event)
    requires Relayed(before, checks, kills, errs)
    ensures var last := Step(pred, before.next, e);
      Relayed(Reaction(last.next, before.out + last.out),
              checks + (if e.Invoke? || (e.ChildDone? && before.next.wired) then 1 else 0),
              kills + (if e.Kill? then 1 else 0),
              errs + (if e.ChildThrow? && before.next.wired then [e.error] else []))
  {
    var last := Step(pred, before.next, e);
    if !e.Invoke? && !e.Kill? && !before.next.wired {
      assert last.out == [];
      assert before.out + [] == before.out;
    } else {
      assert |last.out| == 1;
      var x := last.out[0];
      assert last.out == [x];
      match e
      case Invoke =>
        assert x == InvokeChild(0) || x == Done;
        RelayedCheck(before, checks, kills, errs, x);
      case ChildDone(_) =>
        assert x == InvokeChild(0) || x == Done;
        RelayedCheck(before, checks, kills, errs, x);
      case Kill =>
        RelayedKill(before, checks, kills, errs);
      case ChildThrow(_, err) =>
        RelayedThrow(before, checks, kills, errs, err);
    }
  }

  /** A loop check: it invokes the body or fires onDone. */
  lemma RelayedCheck(before: Reaction<State>, checks: nat, kills: nat, errs: seq<Error>, x: Signal)
    requires Relayed(before, checks, kills, errs)
    requires x == InvokeChild(0) || x == Done
    ensures forall s: State {:trigger Reaction(s, before.out + [x])} ::
      Relayed(Reaction(s, before.out + [x]), checks + 1, kills, errs)
  {
    var out := before.out + [x];
    SingleTrace(x);
    TraceAppend(before.out, [x]);
    assert Killed(out) == Killed(before.out) + [] == Killed(before.out);
    assert Thrown(out) == Thrown(before.out) + [] == Thrown(before.out);
    var m := |Invoked(before.out)|;
    if x == Done {
      assert Invoked(out) == Invoked(before.out) + [] == Invoked(before.out);
    } else {
      assert Repeat(0, m) + [0] == Repeat(0, m + 1);
    }
  }

  /** A kill: it is forwarded to the body. */
  lemma RelayedKill(before: Reaction<State>, checks: nat, kills: nat, errs: seq<Error>)
    requires Relayed(before, checks, kills, errs)
    ensures forall s: State {:trigger Reaction(s, before.out + [KillChild(0)])} ::
      Relayed(Reaction(s, before.out + [KillChild(0)]), checks, kills + 1, errs)
  {
    var out := before.out + [KillChild(0)];
    SingleTrace(KillChild(0));
    TraceAppend(before.out, [KillChild(0)]);
    assert Invoked(out) == Invoked(before.out) + [] == Invoked(before.out);
    assert Thrown(out) == Thrown(before.out) + [] == Thrown(before.out);
    assert Repeat(0, kills) + [0] == Repeat(0, kills + 1);
  }

  /** A failure of the body, once wired: it is relayed unchanged. */
  lemma RelayedThrow(before: Reaction<State>, checks: nat, kills: nat, errs: seq<Error>, err: Error)
    requires Relayed(before, checks, kills, errs)
    ensures forall s: State {:trigger Reaction(s, before.out + [Throw(err)])} ::
      Relayed(Reaction(s, before.out + [Throw(err)]), checks, kills, errs + [err])
  {
    var out := before.out + [Throw(err)];
    SingleTrace(Throw(err));
    TraceAppend(before.out, [Throw(err)]);
    assert Invoked(out) == Invoked(before.out) + [] == Invoked(before.out);
    assert Killed(out) == Killed(before.out) + [] == Killed(before.out);
  }

  // ---------------------------------------------------------------------
  // Runs in which the body keeps the process contract

  /** The body's reports: its onDone and onThrow calls. */
  function Reports(evs: seq<Event>): nat
  {
    DoneEvents(evs) + |Errors(evs)|
  }

  /** The body report e, arriving after the events `prior`, answers an invoke
      of the body that no earlier report answered. */
  ghost predicate AnswersInvoke(pred: nat -> bool, prior: seq<Event>, e: Event)
  {
    (e.ChildDone? || e.ChildThrow?) ==> Reports(prior) < |Invoked(Run(pred, prior).out)|
  }

  /** The body reports at most once per invoke, and only after being invoked. */
  ghost predicate BodyAnswers(pred: nat -> bool, evs: seq<Event>)
  {
    forall i | 0 <= i < |evs| :: AnswersInvoke(pred, evs[..i], evs[i])
  }

  /** Under that contract there are never more reports than body invokes. */
  lemma {:induction false} ReportsBounded(pred: nat -> bool, evs: seq<Event>)
    requires BodyAnswers(pred, evs)
    ensures Reports(evs) <= |Invoked(Run(pred, evs).out)|
    decreases |evs|
  {
    if evs != [] {
      var p := evs[..|evs| - 1];
      var e := evs[|evs| - 1];
      assert BodyAnswers(pred, p) by {
        forall i | 0 <= i < |p| ensures AnswersInvoke(pred, p[..i], p[i]) {
          assert p[..i] == evs[..i] && p[i] == evs[i];
        }
      }
      assert AnswersInvoke(pred, p, e);
      ReportsBounded(pred, p);
      var before := Run(pred, p);
      var last := Step(pred, before.next, e);
      assert Run(pred, evs) == Reaction(last.next, before.out + last.out);
      InvokedAppend(before.out, last.out);
      assert Reports(evs) == Reports(p) + (if e.ChildDone? || e.ChildThrow? then 1 else 0);
    }
  }

  /** Loop checks and relayed failures never outnumber the events that cause
      them. */
  lemma {:induction false} ChecksBounded(wired: bool, evs: seq<Event>)
    ensures Checks(wired, evs) <= InvokeEvents(evs) + DoneEvents(evs)
    ensures |Relays(wired, evs)| <= |Errors(evs)|
  {
    if evs != [] {
      ChecksBounded(wired, evs[..|evs| - 1]);
    }
  }

  /** A loop invoked at most once, whose body keeps the process contract,
      completes at most once, through onDone or onThrow. */
  lemma CompletesAtMostOnce(pred: nat -> bool, evs: seq<Event>)
    requires InvokeEvents(evs) <= 1 && BodyAnswers(pred, evs)
    ensures Completions(Run(pred, evs).out) <= 1
  {
    RelaysBody(pred, evs);
    ReportsBounded(pred, evs);
    ChecksBounded(false, evs);
  }

  // ---------------------------------------------------------------------
  // Re-invocation

  /** The predicate's answers from its (m + 1)-th evaluation on. */
  function Shift(pred: nat -> bool, m: nat): nat -> bool
  {
    (i: nat) => pred(i + m)
  }

  /** The state s is the state t of a loop that has evaluated its
      predicate m more times. */
  ghost predicate Ahead(s: State, t: State, m: nat)
  {
    s == t.(asked := t.asked + m)
  }

  /** A loop ahead by m evaluations reacts to every event as a loop whose
      predicate answers are shifted by m. */
  lemma StepAhead(pred: nat -> bool, m: nat, s: State, t: State, e: Event)
    requires Ahead(s, t, m)
    ensures Step(pred, s, e).out == Step(Shift(pred, m), t, e).out
    ensures Ahead(Step(pred, s, e).next, Step(Shift(pred, m), t, e).next, m)
  {
    assert Shift(pred, m)(t.asked) == pred(s.asked);
  }

  lemma RunSnoc(pred: nat -> bool, evs: seq<Event>, e: Event)
    ensures var before := Run(pred, evs);
      Run(pred, evs + [e]) == Reaction(Step(pred, before.next, e).next, before.out + Step(pred, before.next, e).out)
  {
    var x := evs + [e];
    assert x[..|x| - 1] == evs && x[|x| - 1] == e;
  }

  /** After an invoke a loop is m evaluations ahead of a fresh one that
      received the remembered kill and an invoke, m being the evaluations
      this one made before the invoke. */
  lemma AfterInvoke(pred: nat -> bool, pre: seq<Event>)
    ensures var m := Run(pred, pre).next.asked;
      Ahead(Run(pred, pre + [Invoke]).next, Run(Shift(pred, m), KilledPrefix(pre) + [Invoke]).next, m)
  {
    var m, k := Run(pred, pre).next.asked, KilledPrefix(pre);
    var f := Shift(pred, m);
    KillsCounted(k);
    Idle(f, k);
    RunSnoc(pred, pre, Invoke);
    RunSnoc(f, k, Invoke);
    var s, t := Run(pred, pre).next.(wired := true), Run(f, k).next.(wired := true);
    assert Ahead(s, t, m);
    assert f(t.asked) == pred(s.asked);
  }

  /** Two runs whose states are m evaluations apart go on alike: the same
      events keep them m apart and append the same signals. */
  lemma {:induction false} Continues(pred: nat -> bool, m: nat, a: seq<Event>, b: seq<Event>, post: seq<Event>)
    requires Ahead(Run(pred, a).next, Run(Shift(pred, m), b).next, m)
    ensures Ahead(Run(pred, a + post).next, Run(Shift(pred, m), b + post).next, m)
    ensures |Run(Shift(pred, m), b).out| <= |Run(Shift(pred, m), b + post).out|
    ensures Run(pred, a + post).out
            == Run(pred, a).out + Run(Shift(pred, m), b + post).out[|Run(Shift(pred, m), b).out|..]
    decreases |post|
  {
    if post == [] {
      assert a + post == a && b + post == b;
    } else {
      var f := Shift(pred, m);
      var q := post[..|post| - 1];
      var e := post[|post| - 1];
      Continues(pred, m, a, b, q);
      SnocSplit(a, post);
      SnocSplit(b, post);
      RunSnoc(pred, a + q, e);
      RunSnoc(f, b + q, e);
      TracksStep(pred, m, Run(pred, a + q), Run(f, b + q), Run(pred, a).out, |Run(f, b).out|, e);
    }
  }

  lemma TracksStep(pred: nat -> bool, m: nat, ra: Reaction<State>, rb: Reaction<State>,
                   prefix: seq<Signal>, k: nat, e: Event)
    requires Ahead(ra.next, rb.next, m) && k <= |rb.out| && ra.out == prefix + rb.out[k..]
    ensures var la, lb := Step(pred, ra.next, e), Step(Shift(pred, m), rb.next, e);
      && Ahead(la.next, lb.next, m)
      && k <= |rb.out + lb.out|
      && ra.out + la.out == prefix + (rb.out + lb.out)[k..]
  {
    StepAhead(pred, m, ra.next, rb.next, e);
    TailAppend(prefix, rb.out, Step(pred, ra.next, e).out, k);
  }

  /** Re-invoking a loop: whatever came before an invoke (earlier
      invocations, reports from a body not yet wired, kills), the signals
      after it are exactly those a fresh loop emits after the remembered
      kill and an invoke, when the fresh loop's predicate answers where
      this one's left off. So the single-invoke lemmas above describe
      everything after the latest invoke; in particular a loop killed once
      exits at once in every later invocation. */
  lemma Reinvoke(pred: nat -> bool, pre: seq<Event>, post: seq<Event>)
    ensures var m, b := Run(pred, pre).next.asked, KilledPrefix(pre) + [Invoke];
      && (InvokeEvents(post) == 0 ==> SingleInvoke(b + post))
      && Run(pred, pre + [Invoke] + post).next.asked == Run(Shift(pred, m), b + post).next.asked + m
      && |Run(Shift(pred, m), b).out| <= |Run(Shift(pred, m), b + post).out|
      && Run(pred, pre + [Invoke] + post).out
         == Run(pred, pre + [Invoke]).out + Run(Shift(pred, m), b + post).out[|Run(Shift(pred, m), b).out|..]
  {
    var m, b := Run(pred, pre).next.asked, KilledPrefix(pre) + [Invoke];
    if InvokeEvents(post) == 0 {
      FreshInvocation(pre, post);
    }
    AfterInvoke(pred, pre);
    Continues(pred, m, pre + [Invoke], b, post);
  }

  // ---------------------------------------------------------------------
  // The combinator as an object

  /** A WhileP over a predicate and a body; `trace` records every signal
      emitted. */
  class WhileP {
    const pred: nat -> bool
    var killed: bool
    var asked: nat
    var wired: bool
    var trace: seq<Signal>

    function Model(): State
      reads this
    {
      State(killed, asked, wired)
    }

    constructor(pred: nat -> bool)
      ensures this.pred == pred && Model() == Init && trace == []
    {
      this.pred := pred;
      killed := false;
      asked := 0;
      wired := false;
      trace := [];
    }

    /** The loop check. */
    method Check()
      modifies this
      ensures Model() == Loop(pred, old(Model())).next
      ensures trace == old(trace) + Loop(pred, old(Model())).out
    {
      if killed {
        trace := trace + [Done];
        return;
      }
      var holds := pred(asked);
      asked := asked + 1;
      if holds {
        trace := trace + [InvokeChild(0)];
      } else {
        trace := trace + [Done];
      }
    }

    method Invoke()
      modifies this
      ensures Model() == Step(pred, old(Model()), Event.Invoke).next
      ensures trace == old(trace) + Step(pred, old(Model()), Event.Invoke).out
    {
      wired := true;
      Check();
    }

    /** The body's onDone: the loop check once invoke has installed it. */
    method ChildDone(j: nat)
      modifies this
      ensures Model() == Step(pred, old(Model()), Event.ChildDone(j)).next
      ensures trace == old(trace) + Step(pred, old(Model()), Event.ChildDone(j)).out
    {
      if wired {
        Check();
      }
    }

    /** The body's onThrow: the loop's own onThrow once invoke has installed it. */
    method ChildThrow(j: nat, err: Error)
      modifies this
      ensures Model() == Step(pred, old(Model()), Event.ChildThrow(j, err)).next
      ensures trace == old(trace) + Step(pred, old(Model()), Event.ChildThrow(j, err)).out
    {
      if wired {
        trace := trace + [Throw(err)];
      }
    }

    method Kill()
      modifies this
      ensures Model() == Step(pred, old(Model()), Event.Kill).next
      ensures trace == old(trace) + Step(pred, old(Model()), Event.Kill).out
    {
      killed := true;
      trace := trace + [KillChild(0)];
    }
  }
}
