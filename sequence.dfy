/**
 * SequenceP: runs its children one at a time, in list order.
 *
 * Its bookkeeping is the cursor `invoking` and the `killed` flag. On invoke
 * an empty sequence completes at once; otherwise every child's onDone is
 * bound to one shared step continuation and every child's onThrow to the
 * sequence's own onThrow, and child 0 is invoked. The step continuation does
 * nothing once `killed` is set; otherwise it advances the cursor and invokes
 * the next child, or fires onDone when the cursor has reached the end. Kill
 * sets `killed` and forwards to the child under the cursor, if there is one.
 */
module Sequence {
  import opened Process

  /** The bookkeeping of a SequenceP with `size` children. `wired` records
      that invoke has rebound the children's onDone / onThrow to the
      sequence's relays; before that a child's handlers are the default
      no-ops. */
  datatype State = State(size: nat, cursor: nat, killed: bool, wired: bool)

  function Init(size: nat): State
  {
    State(size, 0, false, false)
  }

  /** How a SequenceP reacts to one event. The step continuation is shared by
      all children, so it cannot tell which child called it. */
  function Step(s: State, e: Event): (r: Reaction<State>)
    ensures r.next.size == s.size && |r.out| <= 1
    ensures r.next.killed == (s.killed || e.Kill?)
    ensures e.Kill? ==> r.next.cursor == s.cursor
    ensures s.killed && e.ChildDone? ==> r.out == []
    ensures r.out != [] && r.out[0].InvokeChild? ==> r.out[0].child == r.next.cursor < s.size
    ensures Done in r.out ==> (e.Invoke? && s.size == 0) || (e.ChildDone? && s.cursor + 1 >= s.size)
  {
    match e
    case Invoke =>
      if s.size == 0 then Reaction(s, [Done])
      else Reaction(s.(cursor := 0, wired := true), [InvokeChild(0)])
    case ChildDone(_) =>
      if !s.wired || s.killed then Reaction(s, [])
      else
        var c := s.cursor + 1;
        Reaction(s.(cursor := c), if c < s.size then [InvokeChild(c)] else [Done])
    case ChildThrow(_, err) =>
      Reaction(s, if s.wired then [Throw(err)] else [])
    case Kill =>
      Reaction(s.(killed := true), if s.cursor < s.size then [KillChild(s.cursor)] else [])
  }

  /** The state reached, and every signal emitted, when a fresh SequenceP
      with `size` children receives the events `evs` one at a time. */
  function Run(size: nat, evs: seq<Event>): (r: Reaction<State>)
    ensures r.next.size == size
    decreases |evs|
  {
    if evs == [] then Reaction(Init(size), [])
    else
      var before := Run(size, evs[..|evs| - 1]);
      var last := Step(before.next, evs[|evs| - 1]);
      Reaction(last.next, before.out + last.out)
  }

  /** The children's onDone calls that reached the step continuation before
      the first kill: the only ones that advance the cursor. */
  function Advances(evs: seq<Event>): nat
  {
    if evs == [] then 0
    else
      var p := evs[..|evs| - 1];
      Advances(p) + (if evs[|evs| - 1].ChildDone? && KillEvents(p) == 0 then 1 else 0)
  }

  /** An empty SequenceP completes at once on every invoke and does nothing
      else: it invokes no child and forwards no kill. */
  lemma {:induction false} EmptyCompletesAtOnce(evs: seq<Event>)
    ensures Run(0, evs).out == Repeat(Done, InvokeEvents(evs))
    ensures Run(0, evs).next == State(0, 0, KillEvents(evs) > 0, false)
  {
    if evs != [] {
      EmptyCompletesAtOnce(evs[..|evs| - 1]);
    }
  }

  /** The run of a sequence invoked once, kills before the invoke included.
      With d the number of onDone calls that arrived before the first kill:
      the cursor is d; children
      0 .. min(d + 1, n) - 1 have been invoked, in list order, and no other;
      onDone fired only once the cursor reached n; every child failure was
      relayed to onThrow unchanged; and every kill was forwarded to the child
      under the (by then frozen) cursor, or to nobody once it is out of range. */
  lemma {:induction false} RunInvariant(n: nat, evs: seq<Event>)
    requires n > 0 && SingleInvoke(evs)
    ensures Inv(n, Advances(evs), KillEvents(evs), Errors(evs), Run(n, evs))
    decreases |evs|
  {
    var p := evs[..|evs| - 1];
    var e := evs[|evs| - 1];
    assert evs == p + [e];
    if e.Invoke? {
      RunAtInvoke(n, p);
    } else {
      RunInvariant(n, p);
      RunStep(n, p, e);
    }
  }

  /** Before its invoke a sequence only forwards kills, to child 0. */
  lemma {:induction false} Idle(n: nat, p: seq<Event>)
    requires n > 0 && OnlyKills(p)
    ensures Run(n, p).next == State(n, 0, |p| > 0, false)
    ensures var out := Run(n, p).out;
      Invoked(out) == [] && Killed(out) == Repeat(0, |p|) && Thrown(out) == [] && DoneCount(out) == 0
    ensures Advances(p) == 0
  {
    if p != [] {
      var q := p[..|p| - 1];
      Idle(n, q);
      var before := Run(n, q);
      assert Run(n, p) == Reaction(State(n, 0, true, false), before.out + [KillChild(0)]);
      SingleTrace(KillChild(0));
      TraceAppend(before.out, [KillChild(0)]);
      assert Repeat(0, |q|) + [0] == Repeat(0, |p|);
    }
  }

  /** The invoke itself, after any number of kills: it invokes child 0. */
  lemma RunAtInvoke(n: nat, p: seq<Event>)
    requires n > 0 && OnlyKills(p)
    ensures var evs := p + [Invoke];
      Inv(n, Advances(evs), KillEvents(evs), Errors(evs), Run(n, evs))
  {
    var evs := p + [Invoke];
    Idle(n, p);
    KillsCounted(p);
    var before := Run(n, p);
    assert Run(n, evs) == Reaction(Step(before.next, Invoke).next, before.out + Step(before.next, Invoke).out)
        && Advances(evs) == 0 && KillEvents(evs) == |p| && Errors(evs) == [] by {
      assert evs[..|evs| - 1] == p && evs[|evs| - 1] == Invoke;
    }
    InvokedAfterKills(n, |p|, before);
  }

  lemma InvokedAfterKills(n: nat, k: nat, before: Reaction<State>)
    requires n > 0 && before.next == State(n, 0, k > 0, false)
    requires Invoked(before.out) == [] && Killed(before.out) == Repeat(0, k)
    requires Thrown(before.out) == [] && DoneCount(before.out) == 0
    ensures Inv(n, 0, k, [], Reaction(State(n, 0, k > 0, true), before.out + [InvokeChild(0)]))
  {
    SingleTrace(InvokeChild(0));
    TraceAppend(before.out, [InvokeChild(0)]);
    assert Iota(1) == [0];
  }

  /** A kill that arrives before the invoke sets the killed flag, which the
      invoke does not reset: the sequence invokes child 0 and never gets
      past it, and it never fires onDone. */
  lemma KilledBeforeInvokeStalls(n: nat, evs: seq<Event>)
    requires n > 0 && SingleInvoke(evs) && evs[0] == Kill
    ensures Invoked(Run(n, evs).out) == [0]
    ensures DoneCount(Run(n, evs).out) == 0
  {
    RunInvariant(n, evs);
    KilledFirst(evs);
    assert Iota(1) == [0];
  }

  /** After a kill, no onDone call advances the cursor. */
  lemma {:induction false} KilledFirst(evs: seq<Event>)
    requires |evs| > 0 && evs[0] == Kill
    ensures KillEvents(evs) > 0 && Advances(evs) == 0
  {
    var p := evs[..|evs| - 1];
    if |evs| == 1 {
      assert p == [];
    } else {
      assert p[0] == Kill;
      KilledFirst(p);
    }
  }

  /** One event after the invoke keeps RunInvariant's facts. */
  lemma RunStep(n: nat, p: seq<Event>, e: Event)
    requires n > 0 && !e.Invoke? && Inv(n, Advances(p), KillEvents(p), Errors(p), Run(n, p))
    ensures var evs := p + [e];
      Inv(n, Advances(evs), KillEvents(evs), Errors(evs), Run(n, evs))
  {
    var evs := p + [e];
    var before := Run(n, p);
    var last := Step(before.next, e);
    var d, k, errs := Advances(p), KillEvents(p), Errors(p);
    var d', k', errs' := d + (if e.ChildDone? && k == 0 then 1 else 0),
      k + (if e.Kill? then 1 else 0), errs + (if e.ChildThrow? then [e.error] else []);
    assert Run(n, evs) == Reaction(last.next, before.out + last.out)
        && Advances(evs) == d' && KillEvents(evs) == k' && Errors(evs) == errs' by {
      assert evs[..|evs| - 1] == p && evs[|evs| - 1] == e;
    }
    InvStep(n, d, k, errs, before, e);
  }

  /** The facts RunInvariant states, for a cursor d, a kill count and the
      errors relayed so far. */
  ghost predicate Inv(n: nat, d: nat, kills: nat, errs: seq<Error>, r: Reaction<State>)
  {
    && r.next == State(n, d, kills > 0, true)
    && Invoked(r.out) == Iota(Min(d + 1, n))
    && DoneCount(r.out) == (if d < n then 0 else d - n + 1)
    && Thrown(r.out) == errs
    && Killed(r.out) == (if d < n then Repeat(d, kills) else [])
  }

  lemma InvStep(n: nat, d: nat, kills: nat, errs: seq<Error>, r: Reaction<State>, e: Event)
    requires n > 0 && Inv(n, d, kills, errs, r) && !e.Invoke?
    ensures
      var last := Step(r.next, e);
      Inv(n, d + (if e.ChildDone? && kills == 0 then 1 else 0),
          kills + (if e.Kill? then 1 else 0),
          errs + (if e.ChildThrow? then [e.error] else []),
          Reaction(last.next, r.out + last.out))
  {
    match e
    case ChildDone(j) =>
      if kills == 0 {
        InvAdvance(n, d, errs, r, j);
      } else {
        assert Step(r.next, e) == Reaction(r.next, []);
        assert r.out + [] == r.out;
      }
    case ChildThrow(j, err) =>
      InvThrow(n, d, kills, errs, r, j, err);
    case Kill =>
      InvKill(n, d, kills, errs, r);
  }

  /** The step continuation before any kill: the cursor advances. */
  lemma InvAdvance(n: nat, d: nat, errs: seq<Error>, r: Reaction<State>, j: nat)
    requires n > 0 && Inv(n, d, 0, errs, r)
    ensures var last := Step(r.next, ChildDone(j));
      Inv(n, d + 1, 0, errs, Reaction(last.next, r.out + last.out))
  {
    var x := if d + 1 < n then InvokeChild(d + 1) else Done;
    assert Step(r.next, ChildDone(j)) == Reaction(State(n, d + 1, false, true), [x]);
    var out := r.out + [x];
    SingleTrace(x);
    TraceAppend(r.out, [x]);
    assert Killed(out) == Killed(r.out) + [] == [];
    assert Thrown(out) == Thrown(r.out) + [] == errs;
    if d + 1 < n {
      assert Iota(d + 1) + [d + 1] == Iota(d + 2);
    } else {
      assert Invoked(out) == Invoked(r.out) + [] == Invoked(r.out);
      assert Min(d + 2, n) == Min(d + 1, n) == n;
    }
  }

  /** A child's failure is relayed unchanged. */
  lemma InvThrow(n: nat, d: nat, kills: nat, errs: seq<Error>, r: Reaction<State>, j: nat, err: Error)
    requires n > 0 && Inv(n, d, kills, errs, r)
    ensures var last := Step(r.next, ChildThrow(j, err));
      Inv(n, d, kills, errs + [err], Reaction(last.next, r.out + last.out))
  {
    assert Step(r.next, ChildThrow(j, err)) == Reaction(r.next, [Throw(err)]);
    var out := r.out + [Throw(err)];
    SingleTrace(Throw(err));
    TraceAppend(r.out, [Throw(err)]);
    assert Invoked(out) == Invoked(r.out) + [] == Invoked(r.out);
    assert Killed(out) == Killed(r.out) + [] == Killed(r.out);
  }

  /** A kill goes to the child under the cursor, if there is one. */
  lemma InvKill(n: nat, d: nat, kills: nat, errs: seq<Error>, r: Reaction<State>)
    requires n > 0 && Inv(n, d, kills, errs, r)
    ensures var last := Step(r.next, Kill);
      Inv(n, d, kills + 1, errs, Reaction(last.next, r.out + last.out))
  {
    if d < n {
      assert Step(r.next, Kill) == Reaction(State(n, d, true, true), [KillChild(d)]);
      var out := r.out + [KillChild(d)];
      SingleTrace(KillChild(d));
      TraceAppend(r.out, [KillChild(d)]);
      assert Invoked(out) == Invoked(r.out) + [] == Invoked(r.out);
      assert Thrown(out) == Thrown(r.out) + [] == errs;
      assert Repeat(d, kills) + [d] == Repeat(d, kills + 1);
    } else {
      assert Step(r.next, Kill) == Reaction(State(n, d, true, true), []);
      assert r.out + [] == r.out;
    }
  }

  /** onDone calls from children 0 .. k - 1, in that order. */
  function Dones(k: nat): seq<Event>
  {
    if k == 0 then [] else Dones(k - 1) + [ChildDone(k - 1)]
  }

  /** When the first k children complete in turn, the sequence has invoked
      exactly children 0 .. min(k + 1, n) - 1 in order, and fires onDone
      exactly when all n have completed. */
  lemma {:induction false} InOrder(n: nat, k: nat)
    requires 0 < n && k <= n
    ensures Run(n, [Invoke] + Dones(k)).next == State(n, k, false, true)
    ensures Run(n, [Invoke] + Dones(k)).out
         == InvokeAll(Min(k + 1, n)) + (if k == n then [Done] else [])
  {
    if k > 0 {
      InOrder(n, k - 1);
      var evs := [Invoke] + Dones(k);
      assert evs[..|evs| - 1] == [Invoke] + Dones(k - 1);
      assert evs[|evs| - 1] == ChildDone(k - 1);
    } else {
      assert [Invoke] + Dones(0) == [Invoke];
      assert [Invoke][..0] == [];
    }
  }

  // ---------------------------------------------------------------------
  // Runs in which the children keep the process contract

  /** The child event e, arriving after the events `prior`, comes from a child
      that has been invoked and has not reported yet. */
  ghost predicate FromLiveChild(n: nat, prior: seq<Event>, e: Event)
  {
    (e.ChildDone? || e.ChildThrow?) ==>
      && e.child in Invoked(Run(n, prior).out)
      && DoneFrom(prior, e.child) == 0
      && ThrowFrom(prior, e.child) == 0
  }

  /** Every child reports at most once, and only after it was invoked. */
  ghost predicate Obeys(n: nat, evs: seq<Event>)
  {
    forall i | 0 <= i < |evs| :: FromLiveChild(n, evs[..i], evs[i])
  }

  lemma ObeysPrefix(n: nat, evs: seq<Event>)
    requires |evs| > 0 && Obeys(n, evs)
    ensures Obeys(n, evs[..|evs| - 1])
    ensures FromLiveChild(n, evs[..|evs| - 1], evs[|evs| - 1])
  {
    var p := evs[..|evs| - 1];
    forall i | 0 <= i < |p| ensures FromLiveChild(n, p[..i], p[i]) {
      assert p[..i] == evs[..i];
      assert p[i] == evs[i];
    }
    assert FromLiveChild(n, evs[..|evs| - 1], evs[|evs| - 1]);
  }

  /** Under the process contract, with d the cursor: children 0 .. d - 1 have
      each completed once and never failed; no child beyond the cursor (or
      beyond the list) has reported; the child under the cursor reported at
      most once; and every failure relayed so far came from that child. */
  ghost predicate Settled(n: nat, d: nat, evs: seq<Event>)
  {
    && d <= n
    && (forall j: nat :: j < d ==> DoneFrom(evs, j) == 1 && ThrowFrom(evs, j) == 0)
    && (forall j: nat :: d < j || n <= j ==> DoneFrom(evs, j) == 0 && ThrowFrom(evs, j) == 0)
    && DoneFrom(evs, d) + ThrowFrom(evs, d) <= 1
    && |Errors(evs)| <= ThrowFrom(evs, d)
  }

  lemma {:induction false} ProtocolInvariant(n: nat, evs: seq<Event>)
    requires n > 0 && SingleInvoke(evs) && Obeys(n, evs)
    ensures Settled(n, Advances(evs), evs)
    decreases |evs|
  {
    var p := evs[..|evs| - 1];
    var e := evs[|evs| - 1];
    if e.Invoke? {
      SettledAtInvoke(n, evs);
    } else {
      ObeysPrefix(n, evs);
      ProtocolInvariant(n, p);
      assert evs == p + [e];
      ProtocolStep(n, p, e);
    }
  }

  /** One report or kill from a child that keeps the process contract keeps
      ProtocolInvariant's facts. */
  lemma ProtocolStep(n: nat, p: seq<Event>, e: Event)
    requires n > 0 && SingleInvoke(p) && !e.Invoke?
    requires Settled(n, Advances(p), p) && FromLiveChild(n, p, e)
    ensures Settled(n, Advances(p + [e]), p + [e])
  {
    var evs := p + [e];
    var d, k := Advances(p), KillEvents(p);
    assert evs[..|evs| - 1] == p && evs[|evs| - 1] == e;
    assert e.ChildDone? || e.ChildThrow? ==>
        e.child < Min(d + 1, n) && DoneFrom(p, e.child) == 0 && ThrowFrom(p, e.child) == 0 by {
      if e.ChildDone? || e.ChildThrow? {
        InvokedBelowCursor(n, p, e.child);
      }
    }
    SettledStep(n, d, k, evs);
    assert Advances(evs) == d + (if e.ChildDone? && k == 0 then 1 else 0);
  }

  lemma SettledAtInvoke(n: nat, evs: seq<Event>)
    requires n > 0 && evs != [] && evs[|evs| - 1] == Invoke && OnlyKills(evs[..|evs| - 1])
    ensures Settled(n, Advances(evs), evs)
  {
    var p := evs[..|evs| - 1];
    Idle(n, p);
    KillsCounted(p);
    assert Advances(evs) == 0 && Errors(evs) == [];
    forall j: nat ensures DoneFrom(evs, j) == 0 && ThrowFrom(evs, j) == 0 {
      assert DoneFrom(p, j) == 0 && ThrowFrom(p, j) == 0;
    }
  }

  /** Only children up to the one under the cursor have been invoked. */
  lemma InvokedBelowCursor(n: nat, evs: seq<Event>, j: nat)
    requires n > 0 && SingleInvoke(evs) && j in Invoked(Run(n, evs).out)
    ensures j < Min(Advances(evs) + 1, n)
  {
    RunInvariant(n, evs);
  }

  lemma SettledStep(n: nat, d: nat, k: nat, evs: seq<Event>)
    requires |evs| > 0
    requires var p, e := evs[..|evs| - 1], evs[|evs| - 1];
      && Settled(n, d, p) && !e.Invoke?
      && (e.ChildDone? || e.ChildThrow? ==>
            e.child < Min(d + 1, n) && DoneFrom(p, e.child) == 0 && ThrowFrom(p, e.child) == 0)
    ensures Settled(n, d + (if evs[|evs| - 1].ChildDone? && k == 0 then 1 else 0), evs)
  {
    var p, e := evs[..|evs| - 1], evs[|evs| - 1];
    assert Errors(evs) == Errors(p) + (if e.ChildThrow? then [e.error] else []);
    forall j: nat
      ensures DoneFrom(evs, j) == DoneFrom(p, j) + (if e == ChildDone(j) then 1 else 0)
      ensures ThrowFrom(evs, j) == ThrowFrom(p, j) + (if e.ChildThrow? && e.child == j then 1 else 0)
    {
    }
    if e.ChildDone? || e.ChildThrow? {
      assert e.child == d;
    }
  }

  /** A sequence whose children keep the process contract completes at most
      once: never both onDone and onThrow, and neither twice. */
  lemma CompletesAtMostOnce(n: nat, evs: seq<Event>)
    requires n > 0 && SingleInvoke(evs) && Obeys(n, evs)
    ensures Completions(Run(n, evs).out) <= 1
  {
    RunInvariant(n, evs);
    ProtocolInvariant(n, evs);
  }

  /** If child k fails, the children after it are never invoked and the
      sequence never fires onDone: only onDone advances the cursor. */
  lemma FailureIsFinal(n: nat, evs: seq<Event>, k: nat, err: Error)
    requires n > 0 && SingleInvoke(evs) && Obeys(n, evs)
    requires ChildThrow(k, err) in evs
    ensures Invoked(Run(n, evs).out) == Iota(k + 1)
    ensures DoneCount(Run(n, evs).out) == 0
  {
    RunInvariant(n, evs);
    ProtocolInvariant(n, evs);
    ThrowCounted(evs, k, err);
  }

  // ---------------------------------------------------------------------
  // Re-invocation

  /** Only a kill sets the flag; an empty sequence never moves its cursor
      and is never wired. */
  lemma {:induction false} KilledFlag(n: nat, evs: seq<Event>)
    ensures Run(n, evs).next.killed == (KillEvents(evs) > 0)
    ensures n == 0 ==> Run(n, evs).next == State(0, 0, KillEvents(evs) > 0, false)
    decreases |evs|
  {
    if evs != [] {
      KilledFlag(n, evs[..|evs| - 1]);
    }
  }

  /** After an invoke a sequence is in the state a fresh one reaches by the
      remembered kill and an invoke. */
  lemma AfterInvoke(n: nat, pre: seq<Event>)
    ensures Run(n, pre + [Invoke]).next == Run(n, KilledPrefix(pre) + [Invoke]).next
  {
    var k := KilledPrefix(pre);
    KilledFlag(n, pre);
    KilledFlag(n, k);
    assert Run(n, pre + [Invoke]).next == Step(Run(n, pre).next, Invoke).next by {
      var evs := pre + [Invoke];
      assert evs[..|evs| - 1] == pre;
    }
    assert Run(n, k + [Invoke]).next == Step(Run(n, k).next, Invoke).next by {
      var evs := k + [Invoke];
      assert evs[..|evs| - 1] == k;
    }
  }

  /** Two runs that reach the same state go on alike: the same events then
      move both to the same state and append the same signals. */
  lemma {:induction false} Continues(n: nat, a: seq<Event>, b: seq<Event>, post: seq<Event>)
    requires Run(n, a).next == Run(n, b).next
    ensures Run(n, a + post).next == Run(n, b + post).next
    ensures |Run(n, b).out| <= |Run(n, b + post).out|
    ensures Run(n, a + post).out == Run(n, a).out + Run(n, b + post).out[|Run(n, b).out|..]
    decreases |post|
  {
    if post == [] {
      assert a + post == a && b + post == b;
    } else {
      var q := post[..|post| - 1];
      var e := post[|post| - 1];
      Continues(n, a, b, q);
      SnocSplit(a, post);
      SnocSplit(b, post);
      RunSnoc(n, a + q, e);
      RunSnoc(n, b + q, e);
      TailAppend(Run(n, a).out, Run(n, b + q).out, Step(Run(n, a + q).next, e).out, |Run(n, b).out|);
    }
  }

  lemma RunSnoc(n: nat, evs: seq<Event>, e: Event)
    ensures var before := Run(n, evs);
      Run(n, evs + [e]) == Reaction(Step(before.next, e).next, before.out + Step(before.next, e).out)
  {
    var x := evs + [e];
    assert x[..|x| - 1] == evs && x[|x| - 1] == e;
  }

  /** Re-invoking a sequence: whatever came before an invoke (earlier
      invocations, reports from children not yet wired, kills), the signals
      after it are exactly those a fresh sequence emits after the remembered
      kill and an invoke, and the two end in the same state. So the
      single-invoke lemmas above describe everything after the latest
      invoke; in particular a sequence killed once stalls at child 0 in
      every later invocation. */
  lemma Reinvoke(n: nat, pre: seq<Event>, post: seq<Event>)
    ensures var b := KilledPrefix(pre) + [Invoke];
      && (InvokeEvents(post) == 0 ==> SingleInvoke(b + post))
      && Run(n, pre + [Invoke] + post).next == Run(n, b + post).next
      && |Run(n, b).out| <= |Run(n, b + post).out|
      && Run(n, pre + [Invoke] + post).out == Run(n, pre + [Invoke]).out + Run(n, b + post).out[|Run(n, b).out|..]
  {
    var b := KilledPrefix(pre) + [Invoke];
    if InvokeEvents(post) == 0 {
      FreshInvocation(pre, post);
    }
    AfterInvoke(n, pre);
    Continues(n, pre + [Invoke], b, post);
  }

  // ---------------------------------------------------------------------
  // The combinator as an object

  /** A SequenceP over `size` children. `trace` records every signal it has
      emitted: children invoked or killed, its own onDone / onThrow fired. */
  class SequenceP {
    const size: nat
    var invoking: nat
    var killed: bool
    var wired: bool
    var trace: seq<Signal>

    function Model(): State
      reads this
    {
      State(size, invoking, killed, wired)
    }

    constructor(size: nat)
      ensures Model() == Init(size) && trace == []
    {
      this.size := size;
      invoking := 0;
      killed := false;
      wired := false;
      trace := [];
    }

    method Invoke()
      modifies this
      ensures Model() == Step(old(Model()), Event.Invoke).next
      ensures trace == old(trace) + Step(old(Model()), Event.Invoke).out
    {
      if size == 0 {
        trace := trace + [Done];
        return;
      }
      invoking := 0;
      wired := true;
      trace := trace + [InvokeChild(0)];
    }

    /** The shared step continuation, called through child j's onDone. */
    method ChildDone(j: nat)
      modifies this
      ensures Model() == Step(old(Model()), Event.ChildDone(j)).next
      ensures trace == old(trace) + Step(old(Model()), Event.ChildDone(j)).out
    {
      if !wired || killed {
        return;
      }
      invoking := invoking + 1;
      if invoking < size {
        trace := trace + [InvokeChild(invoking)];
      } else {
        trace := trace + [Done];
      }
    }

    /** Child j's onThrow, bound to the sequence's own onThrow. */
    method ChildThrow(j: nat, err: Error)
      modifies this
      ensures Model() == Step(old(Model()), Event.ChildThrow(j, err)).next
      ensures trace == old(trace) + Step(old(Model()), Event.ChildThrow(j, err)).out
    {
      if wired {
        trace := trace + [Throw(err)];
      }
    }

    method Kill()
      modifies this
      ensures Model() == Step(old(Model()), Event.Kill).next
      ensures trace == old(trace) + Step(old(Model()), Event.Kill).out
    {
      killed := true;
      if invoking < size {
        trace := trace + [KillChild(invoking)];
      }
    }
  }
}
