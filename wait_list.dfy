/**
 * PList: a growable list with a queue of waiters.
 *
 * waitAvailable() returns a ClosureP whose factory runs at each invoke: when
 * the list is non-empty at that moment the product is EmptyP, which
 * completes at once; otherwise it is a fresh waiter process whose invoke
 * parks its onDone (the closure's onDone) at the back of the queue and
 * returns. add appends the element and, when a waiter is parked, removes the
 * oldest one and completes it. Killing the ClosureP forwards to its latest
 * product: EmptyP ignores the kill; a waiter process reports onThrow with a
 * KilledException but stays in the queue, so a later add still completes it.
 *
 * Each process returned by waitAvailable is identified by a number `w`.
 */
module WaitList {
  import opened Process

  /** What reaches a waitAvailable process's handlers: its onDone, or its
      onThrow with an error. */
  datatype Notice = Completed(waiter: nat) | Failed(waiter: nat, error: Error)

  class PList<T> {
    var items: seq<T>
    /** The parked onDone handlers, oldest first, by waiter. */
    var waiting: seq<nat>
    /** For each waitAvailable process invoked so far, whether its latest
        invoke produced a parked waiter process (true) or EmptyP (false). */
    var product: map<nat, bool>
    /** Every notice delivered, in order. */
    var notices: seq<Notice>
    /** Every waiter ever parked, and every waiter ever released, in order. */
    ghost var parked: seq<nat>
    ghost var released: seq<nat>

    /** The queue is first-in first-out: the waiters released so far, followed
        by those still waiting, are exactly the waiters parked, in order. */
    ghost predicate Valid()
      reads this
    {
      released + waiting == parked
    }

    constructor(initial: seq<T>)
      ensures Valid()
      ensures items == initial && waiting == [] && product == map[] && notices == []
    {
      items := initial;
      waiting := [];
      product := map[];
      notices := [];
      parked := [];
      released := [];
    }

    /** Invoking waitAvailable process w: it completes at once exactly when
        the list is non-empty, and otherwise joins the back of the queue. */
    method Await(w: nat) returns (immediate: bool)
      requires Valid()
      modifies this
      ensures Valid()
      ensures immediate <==> |old(items)| > 0
      ensures items == old(items) && released == old(released)
      ensures product == old(product)[w := !immediate]
      ensures immediate ==>
        waiting == old(waiting) && parked == old(parked) && notices == old(notices) + [Completed(w)]
      ensures !immediate ==>
        waiting == old(waiting) + [w] && parked == old(parked) + [w] && notices == old(notices)
    {
      immediate := |items| > 0;
      product := product[w := !immediate];
      if immediate {
        notices := notices + [Completed(w)];
      } else {
        waiting := waiting + [w];
        parked := parked + [w];
      }
    }

    /** add: appends the element, then completes the oldest parked waiter, if
        any; the list's add always reports a change. */
    method Add(x: T) returns (rv: bool)
      requires Valid()
      modifies this
      ensures Valid() && rv
      ensures items == old(items) + [x]
      ensures product == old(product) && parked == old(parked)
      ensures old(waiting) == [] ==>
        waiting == [] && released == old(released) && notices == old(notices)
      ensures old(waiting) != [] ==>
        && waiting == old(waiting)[1..]
        && released == old(released) + [old(waiting)[0]]
        && notices == old(notices) + [Completed(old(waiting)[0])]
    {
      items := items + [x];
      rv := true;
      if |waiting| > 0 {
        var w := waiting[0];
        assert released + [w] + waiting[1..] == released + waiting;
        waiting := waiting[1..];
        released := released + [w];
        notices := notices + [Completed(w)];
      }
    }

    /** Killing waitAvailable process w: only a parked waiter process reacts,
        by reporting a KilledException; the queue is left as it is. */
    method Kill(w: nat)
      modifies this
      ensures items == old(items) && waiting == old(waiting) && product == old(product)
      ensures parked == old(parked) && released == old(released)
      ensures notices == old(notices) + (if w in product && product[w] then [Failed(w, KilledError)] else [])
    {
      if w in product && product[w] {
        notices := notices + [Failed(w, KilledError)];
      }
    }
  }

  /** The oldest parked waiter, killed while parked (its process's latest
      invoke parked it), reports the kill and is still completed by the
      next add: its handlers fire twice, and it leaves the queue. */
  method KilledWaiterStillReleased<T>(list: PList<T>, x: T)
    requires list.Valid() && list.waiting != []
    requires list.waiting[0] in list.product && list.product[list.waiting[0]]
    modifies list
    ensures list.Valid()
    ensures var w := old(list.waiting[0]);
      && list.notices == old(list.notices) + [Failed(w, KilledError), Completed(w)]
      && list.waiting == old(list.waiting[1..])
  {
    var w := list.waiting[0];
    list.Kill(w);
    var rv := list.Add(x);
  }

  /** Waiters are completed in the order they parked: the two oldest
      waiters are completed by the next two adds, the older one first, and
      the rest stay queued in order. */
  method ReleasedInParkingOrder<T>(list: PList<T>, x: T, y: T)
    requires list.Valid() && |list.waiting| >= 2
    modifies list
    ensures list.Valid()
    ensures var a, b := old(list.waiting[0]), old(list.waiting[1]);
      && list.notices == old(list.notices) + [Completed(a), Completed(b)]
      && list.waiting == old(list.waiting[2..])
  {
    var rv := list.Add(x);
    rv := list.Add(y);
  }
}
