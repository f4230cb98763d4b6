/**
 * The vocabulary shared by every process combinator: the errors that travel
 * through onThrow, the events a combinator reacts to, the signals it emits,
 * and projections of a trace of signals (which children were invoked, which
 * were killed, how often the combinator's own onDone / onThrow fired).
 *
 * A combinator is modelled as a deterministic state machine: each event
 * yields a new state and a list of emitted signals. Children stay abstract;
 * they are indices whose completions arrive as events.
 */
module Process {

  datatype Option<T> = None | Some(value: T)

  /** A throwable handed to onThrow: the distinguished KilledException, or
      any other throwable, told apart by an identifier. */
  datatype Error = KilledError | Failure(id: nat)

  /** What a combinator does to the outside world: invoke or kill one of its
      children, or fire its own onDone or onThrow. */
  datatype Signal =
    | InvokeChild(child: nat)
    | KillChild(child: nat)
    | Done
    | Throw(error: Error)

  /** What a combinator reacts to: its own invoke(), a call of the onDone or
      onThrow handler it installed on a child (naming the child that called
      it), or its own onKill. */
  datatype Event =
    | Invoke
    | ChildDone(child: nat)
    | ChildThrow(child: nat, error: Error)
    | Kill

  /** The outcome of one event: the new bookkeeping and the signals emitted,
      in the order they are emitted. */
  datatype Reaction<S> = Reaction(next: S, out: seq<Signal>)

  function Min(a: int, b: int): int
  {
    if a < b then a else b
  }

  /** The indices 0, 1, ..., m - 1 in increasing order. */
  function Iota(m: nat): (r: seq<nat>)
    ensures |r| == m
    ensures forall i :: 0 <= i < m ==> r[i] == i
  {
    if m == 0 then [] else Iota(m - 1) + [m - 1]
  }

  /** k copies of x. */
  function Repeat<T>(x: T, k: nat): (r: seq<T>)
    ensures |r| == k
    ensures forall i :: 0 <= i < k ==> r[i] == x
  {
    if k == 0 then [] else Repeat(x, k - 1) + [x]
  }

  /** k copies of the sequence s, one after the other. */
  function Cycles<T>(s: seq<T>, k: nat): (r: seq<T>)
    ensures |r| == k * |s|
  {
    if k == 0 then [] else Cycles(s, k - 1) + s
  }

  /** Invoking children 0 .. m - 1 in list order, as a forEach loop does. */
  function InvokeAll(m: nat): seq<Signal>
  {
    if m == 0 then [] else InvokeAll(m - 1) + [InvokeChild(m - 1)]
  }

  /** Killing children 0 .. m - 1 in list order, as a forEach loop does. */
  function KillAll(m: nat): seq<Signal>
  {
    if m == 0 then [] else KillAll(m - 1) + [KillChild(m - 1)]
  }

  // ---------------------------------------------------------------------
  // Projections of a trace of signals

  /** The children invoked, in the order they were invoked. */
  function Invoked(tr: seq<Signal>): seq<nat>
  {
    if tr == [] then []
    else (if tr[0].InvokeChild? then [tr[0].child] else []) + Invoked(tr[1..])
  }

  /** The children killed, in the order the kills were forwarded. */
  function Killed(tr: seq<Signal>): seq<nat>
  {
    if tr == [] then []
    else (if tr[0].KillChild? then [tr[0].child] else []) + Killed(tr[1..])
  }

  /** The errors passed to the combinator's own onThrow, in order. */
  function Thrown(tr: seq<Signal>): seq<Error>
  {
    if tr == [] then []
    else (if tr[0].Throw? then [tr[0].error] else []) + Thrown(tr[1..])
  }

  /** How many times the combinator's own onDone fired. */
  function DoneCount(tr: seq<Signal>): nat
  {
    if tr == [] then 0
    else (if tr[0].Done? then 1 else 0) + DoneCount(tr[1..])
  }

  /** How many times the combinator completed, through onDone or onThrow. */
  function Completions(tr: seq<Signal>): nat
  {
    DoneCount(tr) + |Thrown(tr)|
  }

  /** Every projection distributes over the concatenation of two traces. */
  lemma TraceAppend(a: seq<Signal>, b: seq<Signal>)
    ensures Invoked(a + b) == Invoked(a) + Invoked(b)
    ensures Killed(a + b) == Killed(a) + Killed(b)
    ensures Thrown(a + b) == Thrown(a) + Thrown(b)
    ensures DoneCount(a + b) == DoneCount(a) + DoneCount(b)
  {
    InvokedAppend(a, b);
    KilledAppend(a, b);
    ThrownAppend(a, b);
    DoneCountAppend(a, b);
  }

  lemma {:induction false} InvokedAppend(a: seq<Signal>, b: seq<Signal>)
    ensures Invoked(a + b) == Invoked(a) + Invoked(b)
  {
    if a == [] {
      assert a + b == b;
    } else {
      assert (a + b)[0] == a[0] && (a + b)[1..] == a[1..] + b;
      InvokedAppend(a[1..], b);
    }
  }

  lemma {:induction false} KilledAppend(a: seq<Signal>, b: seq<Signal>)
    ensures Killed(a + b) == Killed(a) + Killed(b)
  {
    if a == [] {
      assert a + b == b;
    } else {
      assert (a + b)[0] == a[0] && (a + b)[1..] == a[1..] + b;
      KilledAppend(a[1..], b);
    }
  }

  lemma {:induction false} ThrownAppend(a: seq<Signal>, b: seq<Signal>)
    ensures Thrown(a + b) == Thrown(a) + Thrown(b)
  {
    if a == [] {
      assert a + b == b;
    } else {
      assert (a + b)[0] == a[0] && (a + b)[1..] == a[1..] + b;
      ThrownAppend(a[1..], b);
    }
  }

  lemma {:induction false} DoneCountAppend(a: seq<Signal>, b: seq<Signal>)
    ensures DoneCount(a + b) == DoneCount(a) + DoneCount(b)
  {
    if a == [] {
      assert a + b == b;
    } else {
      assert (a + b)[0] == a[0] && (a + b)[1..] == a[1..] + b;
      DoneCountAppend(a[1..], b);
    }
  }

  /** Concatenation is associative. */
  lemma AppendAssoc<T>(a: seq<T>, b: seq<T>, c: seq<T>)
    ensures (a + b) + c == a + (b + c)
  {
  }

  /** The projections of a one-signal trace. */
  lemma SingleTrace(x: Signal)
    ensures Invoked([x]) == (if x.InvokeChild? then [x.child] else [])
    ensures Killed([x]) == (if x.KillChild? then [x.child] else [])
    ensures Thrown([x]) == (if x.Throw? then [x.error] else [])
    ensures DoneCount([x]) == (if x.Done? then 1 else 0)
  {
    assert [x][1..] == [];
  }

  /** Invoking every child in list order invokes exactly 0 .. m - 1, in
      that order, and does nothing else. */
  lemma {:induction false} InvokeAllTrace(m: nat)
    ensures Invoked(InvokeAll(m)) == Iota(m)
    ensures Killed(InvokeAll(m)) == [] && Thrown(InvokeAll(m)) == [] && DoneCount(InvokeAll(m)) == 0
  {
    if m > 0 {
      InvokeAllTrace(m - 1);
      TraceAppend(InvokeAll(m - 1), [InvokeChild(m - 1)]);
    }
  }

  /** Killing every child in list order kills exactly 0 .. m - 1, in that
      order, and does nothing else. */
  lemma {:induction false} KillAllTrace(m: nat)
    ensures Killed(KillAll(m)) == Iota(m)
    ensures Invoked(KillAll(m)) == [] && Thrown(KillAll(m)) == [] && DoneCount(KillAll(m)) == 0
  {
    if m > 0 {
      KillAllTrace(m - 1);
      TraceAppend(KillAll(m - 1), [KillChild(m - 1)]);
    }
  }

  // ---------------------------------------------------------------------
  // Projections of a sequence of events (recursing from the end, as runs do)

  function InvokeEvents(evs: seq<Event>): nat
  {
    if evs == [] then 0
    else InvokeEvents(evs[..|evs| - 1]) + (if evs[|evs| - 1].Invoke? then 1 else 0)
  }

  function DoneEvents(evs: seq<Event>): nat
  {
    if evs == [] then 0
    else DoneEvents(evs[..|evs| - 1]) + (if evs[|evs| - 1].ChildDone? then 1 else 0)
  }

  function KillEvents(evs: seq<Event>): nat
  {
    if evs == [] then 0
    else KillEvents(evs[..|evs| - 1]) + (if evs[|evs| - 1].Kill? then 1 else 0)
  }

  /** The errors the children reported through onThrow, in order. */
  function Errors(evs: seq<Event>): seq<Error>
  {
    if evs == [] then []
    else Errors(evs[..|evs| - 1]) + (if evs[|evs| - 1].ChildThrow? then [evs[|evs| - 1].error] else [])
  }

  /** How many times child j called onDone. */
  function DoneFrom(evs: seq<Event>, j: nat): nat
  {
    if evs == [] then 0
    else DoneFrom(evs[..|evs| - 1], j) + (if evs[|evs| - 1] == ChildDone(j) then 1 else 0)
  }

  /** How many times child j called onThrow. */
  function ThrowFrom(evs: seq<Event>, j: nat): nat
  {
    if evs == [] then 0
    else ThrowFrom(evs[..|evs| - 1], j) + (if evs[|evs| - 1].ChildThrow? && evs[|evs| - 1].child == j then 1 else 0)
  }

  /** Events that are all kills: what may reach a process before its invoke. */
  predicate OnlyKills(evs: seq<Event>)
  {
    forall i :: 0 <= i < |evs| ==> evs[i].Kill?
  }

  /** The run of one invocation of a process: invoke() comes exactly once,
      and only kills arrive before it. A process can be invoked again; what
      follows a later invoke is related to such a run by each combinator's
      Reinvoke lemma. */
  predicate SingleInvoke(evs: seq<Event>)
    decreases |evs|
  {
    && evs != []
    && if evs[|evs| - 1].Invoke? then OnlyKills(evs[..|evs| - 1]) else SingleInvoke(evs[..|evs| - 1])
  }

  /** Kills alone: no invoke, no report from a child. */
  lemma {:induction false} KillsCounted(evs: seq<Event>)
    requires OnlyKills(evs)
    ensures KillEvents(evs) == |evs| && InvokeEvents(evs) == 0 && DoneEvents(evs) == 0 && Errors(evs) == []
    ensures forall j :: DoneFrom(evs, j) == 0 && ThrowFrom(evs, j) == 0
  {
    if evs != [] {
      var p := evs[..|evs| - 1];
      assert OnlyKills(p) by {
        forall i | 0 <= i < |p| ensures p[i].Kill? {
          assert p[i] == evs[i];
        }
      }
      KillsCounted(p);
      assert evs[|evs| - 1].Kill?;
      forall j ensures DoneFrom(evs, j) == 0 && ThrowFrom(evs, j) == 0 {
        assert DoneFrom(evs, j) == DoneFrom(p, j) && ThrowFrom(evs, j) == ThrowFrom(p, j);
      }
    }
  }

  /** A run invoked once has exactly one invoke. */
  lemma {:induction false} SingleInvokeCounted(evs: seq<Event>)
    requires SingleInvoke(evs)
    ensures InvokeEvents(evs) == 1
    decreases |evs|
  {
    var p := evs[..|evs| - 1];
    if evs[|evs| - 1].Invoke? {
      KillsCounted(p);
    } else {
      SingleInvokeCounted(p);
    }
  }

  /** What of the events `pre` a combinator remembers across a later
      invoke, as events for a fresh one: a kill, if there was one. */
  function KilledPrefix(pre: seq<Event>): (k: seq<Event>)
    ensures OnlyKills(k) && (KillEvents(k) > 0 <==> KillEvents(pre) > 0)
  {
    if KillEvents(pre) > 0 then [Kill] else []
  }

  /** A fresh process that receives the remembered kill, an invoke and then
      no other invoke is invoked once. */
  lemma {:induction false} FreshInvocation(pre: seq<Event>, post: seq<Event>)
    requires InvokeEvents(post) == 0
    ensures SingleInvoke(KilledPrefix(pre) + [Invoke] + post)
    decreases |post|
  {
    var b := KilledPrefix(pre) + [Invoke];
    if post == [] {
      assert b + post == b && b[..|b| - 1] == KilledPrefix(pre);
    } else {
      var q := post[..|post| - 1];
      assert post == q + [post[|post| - 1]];
      FreshInvocation(pre, q);
      var evs := b + post;
      assert evs[..|evs| - 1] == b + q;
    }
  }

  /** Events appended to a run, split into those before the last one and
      the last one. */
  lemma SnocSplit(a: seq<Event>, post: seq<Event>)
    requires post != []
    ensures a + post == (a + post[..|post| - 1]) + [post[|post| - 1]]
  {
    assert post == post[..|post| - 1] + [post[|post| - 1]];
  }

  /** Appending to two traces that agree after a prefix keeps them agreeing. */
  lemma TailAppend(a: seq<Signal>, b: seq<Signal>, last: seq<Signal>, m: nat)
    requires m <= |b|
    ensures (a + b[m..]) + last == a + (b + last)[m..]
  {
    assert (b + last)[m..] == b[m..] + last;
  }

  /** A child that reported a failure is counted by ThrowFrom. */
  lemma {:induction false} ThrowCounted(evs: seq<Event>, k: nat, err: Error)
    requires ChildThrow(k, err) in evs
    ensures ThrowFrom(evs, k) > 0
  {
    var p := evs[..|evs| - 1];
    assert evs == p + [evs[|evs| - 1]];
    if evs[|evs| - 1] != ChildThrow(k, err) {
      assert ChildThrow(k, err) in p;
      ThrowCounted(p, k, err);
    }
  }

  /** DoneFrom counts exactly the onDone calls of child k that occur. */
  lemma {:induction false} DoneCounted(evs: seq<Event>, k: nat)
    ensures DoneFrom(evs, k) > 0 <==> ChildDone(k) in evs
  {
    if evs != [] {
      var p := evs[..|evs| - 1];
      assert evs == p + [evs[|evs| - 1]];
      DoneCounted(p, k);
    }
  }
}
