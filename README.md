# Process combinators of tiny_coroutine, modelled in Dafny

tiny_coroutine builds asynchronous programs from *processes* (`BaseP`).
A process is started with `invoke()`. It reports completion through its
`onDone` handler or failure through its `onThrow` handler, and can be
cancelled through `onKill`. The following combinators build larger
processes from smaller ones:

- `SequenceP` runs its children one after another.
- `ParallelP` runs all of its children at once.
- `FuncP` wraps a plain function, and `EmptyP` is the `FuncP` that does nothing.
- `ClosureP` builds its process afresh on every invoke.
- `WhileP` repeats a body while a predicate holds.
- `IfP` picks one of two branches.

`PList` is a list whose `waitAvailable()` process waits until the list
has an element. `invokeBlocking` runs a process to completion and turns
the outcome into a `PResult`.

Every combinator is modelled as a deterministic state machine:

- Its bookkeeping becomes a `State` datatype.
- It reacts to four events (`Event`): its own invoke, a child's onDone, a
  child's onThrow, and its own kill.
- Its reaction is a list of signals (`Signal`): invoke a child, kill a
  child, fire its own onDone, or fire its own onThrow.
- `Step` gives the reaction to one event, and `Run` folds `Step` over a
  sequence of events starting from a fresh combinator.
- The properties are lemmas about `Run`. They are stated with the
  projections of the signal trace in module `Process`: the children
  invoked, the children killed, the errors thrown, and the number of times
  onDone fired.

Children stay abstract: they are indices, and their reports arrive as
events. Predicates and factories are given as the answer of each
evaluation, so `pred(k)` is what the (k + 1)-th evaluation returns.

`SequenceP`, `ParallelP`, `ClosureP`, `WhileP` and `IfP` each also have a
class and one method per event. The class holds the source's state:
`SequenceP`'s `killed` and cursor, `WhileP`'s `killed`, `ClosureP`'s and `IfP`'s current
process, and `ParallelP`'s counter. In the source that counter is a local
of `invoke()` captured by the children's handlers, not a field. The class
also holds model bookkeeping with no field in the source: `wired`,
`asked`, `made`, `bound` and `trace`. `FuncP` and
`EmptyP` have no field that changes, so they are modelled by functions
only. Every method is proved to change its fields exactly as `Step`
says and to append exactly `Step`'s signals to a `trace` field. `PList` is
a class whose methods keep a first-in first-out invariant over its waiter
queue.

Modules, one file each:

| module | file | models |
|---|---|---|
| `Process` | process.dfy | the shared events, signals and trace projections |
| `Sequence` | sequence.dfy | `SequenceP` |
| `Parallel` | parallel.dfy | `ParallelP` |
| `Func` | func.dfy | `FuncP` and `EmptyP` |
| `Closure` | closure.dfy | `ClosureP` |
| `WhileLoop` | while_loop.dfy | `WhileP` |
| `IfElse` | if_else.dfy | `IfP` |
| `WaitList` | wait_list.dfy | `PList` |
| `Blocking` | blocking.dfy | `PResult` and the result handling of `invokeBlocking` |

The model follows the code as written, including these behaviours that
a reader of the combinators' names might not expect:

- `ParallelP` relays every failing child's onThrow. It does not fail just
  once, and a failure does not cancel the other children.
- A killed `WhileP` leaves its loop through onDone at the next loop check,
  not through onThrow. The TODO at P.kt line 148 records that onThrow is
  wanted there.
- `IfP`'s kill before any invoke dereferences a null reference. The model
  therefore makes "invoked at least once" a precondition of kill.
- A killed `PList` waiter reports the kill but stays in the queue, so a
  later `add` completes it as well.
- Re-invoking a `SequenceP` resets the cursor but not the `killed` flag.
- A kill that arrives before the first invoke is not remembered as
  "cancel before start" uniformly:
  - `SequenceP` forwards it to child 0 and keeps `killed` set, so after
    its invoke it runs child 0 and never gets past it.
  - `WhileP` forwards it to the body and keeps `killed` set, so its invoke
    exits through onDone at once without evaluating the predicate.
  - `ParallelP` forwards it to every child.
  - `ClosureP` does nothing.
  - `IfP` dereferences a null reference (see above).

## Model

| member | source | states |
|---|---|---|
| Process.InvokeAllTrace | src/main/kotlin/P.kt:100 | invoking every child in list order invokes exactly children 0 .. n-1, in that order, and does nothing else |
| Process.KillAllTrace | src/main/kotlin/P.kt:81 | forwarding a kill to every child kills exactly children 0 .. n-1, in that order, and does nothing else |
| Sequence.EmptyCompletesAtOnce | src/main/kotlin/P.kt:54-57 | an empty sequence fires onDone once per invoke, invokes no child and forwards no kill |
| Sequence.Step | src/main/kotlin/P.kt:47-75 | one event changes neither the number of children nor, except for a kill, the killed flag, and nothing clears it; it emits at most one signal; a kill keeps the cursor; a killed sequence ignores a child's onDone; a child is invoked only at the new cursor and only below n; onDone fires only for an empty list or once the cursor moves past the last child |
| Sequence.KilledBeforeInvokeStalls | src/main/kotlin/P.kt:47-62 | after a kill that arrives before the only invoke, child 0 is the only child ever invoked and onDone never fires, whatever the children report |
| Sequence.RunInvariant | src/main/kotlin/P.kt:47-75 | after one invoke, possibly preceded by kills, with d the onDone calls that came before the first kill: the cursor is d; exactly children 0 .. min(d+1, n)-1 were invoked, in order; onDone fired only once the cursor reached n; every failure was relayed unchanged; every kill went to the child under the frozen cursor, or to nobody when the cursor is past the end |
| Sequence.InOrder | src/main/kotlin/P.kt:58-74 | when children complete in turn, child i+1 is invoked only after child i's onDone, and onDone fires exactly when all n have completed |
| Sequence.ProtocolInvariant | src/main/kotlin/P.kt:58-74 | when children report at most once and only after being invoked: children before the cursor each completed once and never failed, no child past the cursor reported, and every relayed failure came from the child under the cursor |
| Sequence.CompletesAtMostOnce | src/main/kotlin/P.kt:59-73 | under the same child contract the sequence completes at most once, through onDone or onThrow |
| Sequence.FailureIsFinal | src/main/kotlin/P.kt:59-73 | if child k fails, exactly children 0 .. k were invoked (k+1 .. n-1 never are) and onDone never fires |
| Sequence.KilledFlag | src/main/kotlin/P.kt:44-51 | the killed flag is set exactly when a kill has arrived, and nothing clears it; an empty sequence never moves its cursor |
| Sequence.AfterInvoke | src/main/kotlin/P.kt:53-58 | an invoke resets the cursor and keeps the killed flag: afterwards the sequence is in the state a fresh one reaches by one kill (if there was any) and an invoke |
| Sequence.Reinvoke | src/main/kotlin/P.kt:47-75 | whatever came before an invoke (earlier invocations, reports from unwired children, kills), what follows it is signal for signal what follows the invoke of a fresh sequence that was killed beforehand if and only if this one was, and that fresh run is a single-invoke run when no further invoke comes |
| Sequence.SequenceP.constructor | src/main/kotlin/P.kt:41-45 | a new sequence has cursor 0, is not killed and has emitted nothing |
| Sequence.SequenceP.Invoke | src/main/kotlin/P.kt:53-75 | fires onDone for an empty list; otherwise resets the cursor, wires the children's handlers and invokes child 0 |
| Sequence.SequenceP.ChildDone | src/main/kotlin/P.kt:59-69 | the step continuation: does nothing once killed; otherwise advances the cursor and invokes the next child, or fires onDone at the end |
| Sequence.SequenceP.ChildThrow | src/main/kotlin/P.kt:72 | a child's failure goes to the sequence's onThrow once invoke has wired it |
| Sequence.SequenceP.Kill | src/main/kotlin/P.kt:47-51 | sets killed and forwards the kill to the child under the cursor, if there is one |
| Parallel.Step | src/main/kotlin/P.kt:81-101 | one event never changes the number of children; a kill changes no state; nothing is emitted for a child's report before the handlers are wired; an invoke of a non-empty parallel resets the counter and wires the handlers; onDone alone fires only for an empty list or once the counter reaches n |
| Parallel.EmptyCompletesAtOnce | src/main/kotlin/P.kt:84-87 | an empty parallel fires onDone once per invoke and invokes no child |
| Parallel.RunInvariant | src/main/kotlin/P.kt:81-101 | after one invoke, possibly preceded by kills, every child was invoked exactly once, in list order; onDone fired only once the counter reached n (once per onDone call after that); every failure was relayed unchanged; every kill was forwarded to all children in list order |
| Parallel.CounterCountsChildren | src/main/kotlin/P.kt:89-95 | when children report at most once and only after being invoked, the counter equals the number of distinct children that called onDone |
| Parallel.DoneIffAllReported | src/main/kotlin/P.kt:88-100 | under that contract the parallel fires onDone at most once, and it has fired if and only if every child has called onDone |
| Parallel.EmptyStaysInitial | src/main/kotlin/P.kt:81-87 | an empty parallel never leaves its initial state |
| Parallel.AfterInvoke | src/main/kotlin/P.kt:83-101 | an invoke remembers nothing of the earlier events: afterwards the parallel is in the state of a fresh one that was just invoked |
| Parallel.Reinvoke | src/main/kotlin/P.kt:81-101 | whatever came before an invoke, what follows it is signal for signal what follows the invoke of a fresh parallel, and that fresh run is a single-invoke run when no further invoke comes |
| Parallel.ParallelP.constructor | src/main/kotlin/P.kt:78-79 | a new parallel has emitted nothing |
| Parallel.ParallelP.Invoke | src/main/kotlin/P.kt:83-101 | fires onDone for an empty list; otherwise resets the counter, wires the handlers and invokes every child in list order, by a loop |
| Parallel.ParallelP.ChildDone | src/main/kotlin/P.kt:90-95 | increments the counter and fires onDone when it reaches the number of children |
| Parallel.ParallelP.ChildThrow | src/main/kotlin/P.kt:98 | a child's failure goes to the parallel's onThrow once invoke has wired it |
| Parallel.ParallelP.Kill | src/main/kotlin/P.kt:81 | forwards the kill to every child in list order, by a loop |
| Func.Step | src/main/kotlin/P.kt:104-116 | the function is called once per invoke and never otherwise; an invoke is answered by exactly one completion and touches no child; kill and reports emit nothing |
| Func.Invoke | src/main/kotlin/P.kt:107-115 | exactly one completion per call: onDone if and only if the function returned, onThrow with the thrown error if and only if it threw |
| Func.OneCompletionPerInvoke | src/main/kotlin/P.kt:104-116 | over any run, the function is called once per invoke and never otherwise; onDone fires once per returning call and onThrow once per raising call, with the raised errors in order; kill does nothing |
| Func.EmptyCompletesEveryInvoke | src/main/kotlin/P.kt:5 | EmptyP fires onDone once per invoke and nothing else |
| Closure.Step | src/main/kotlin/P.kt:118-132 | only an invoke calls the factory; it invokes the new product, which is numbered after every earlier one, and makes it the one being run; a report is relayed if and only if it comes from a product already made; a kill before any invoke emits nothing |
| Closure.FactoryOncePerInvoke | src/main/kotlin/P.kt:126-132 | the factory is called exactly once per invoke; each product is invoked once, in creation order; the product being run is the latest one |
| Closure.IdleUntilInvoked | src/main/kotlin/P.kt:118-124 | before the first invoke nothing happens: construction does not call the factory and kill is a no-op |
| Closure.KillForwardsToLatest | src/main/kotlin/P.kt:121-124 | a kill goes to the most recent product, and to nothing before the first invoke |
| Closure.RelaysProducts | src/main/kotlin/P.kt:128-129 | when reports come only from products already created, every onDone and every failure is relayed unchanged and in order |
| Closure.ClosureP.constructor | src/main/kotlin/P.kt:118-119 | a new closure has made nothing and runs nothing |
| Closure.ClosureP.Invoke | src/main/kotlin/P.kt:126-132 | calls the factory, makes the product the one being run, and invokes it |
| Closure.ClosureP.ChildDone | src/main/kotlin/P.kt:128 | a product's onDone is the closure's onDone |
| Closure.ClosureP.ChildThrow | src/main/kotlin/P.kt:129 | a product's onThrow is the closure's onThrow |
| Closure.ClosureP.Kill | src/main/kotlin/P.kt:121-124 | forwards the kill to the product being run, if there is one |
| WhileLoop.Loop | src/main/kotlin/P.kt:147-155 | a loop check emits exactly one signal; it invokes the body if and only if the loop is not killed and the predicate holds, and fires onDone if and only if the loop is killed or the predicate fails; the predicate is evaluated, once, exactly when the loop is not killed |
| WhileLoop.Step | src/main/kotlin/P.kt:141-158 | the loop is killed from a kill on and wired from an invoke on, and nothing resets either flag; an event evaluates the predicate at most once; a kill is forwarded to the body |
| WhileLoop.Run | src/main/kotlin/P.kt:139-158 | the loop is wired from its first invoke on and killed from its first kill on; nothing resets the flag |
| WhileLoop.Iterates | src/main/kotlin/P.kt:146-158 | if the predicate holds for its first K evaluations and then fails, then after j <= K body completions the body has been invoked j+1 times, or onDone has fired once j = K |
| WhileLoop.LoopsExactly | src/main/kotlin/P.kt:146-158 | if the predicate returns true exactly K times and then false, the body is invoked exactly K times and then onDone fires once, after K+1 evaluations |
| WhileLoop.KillFreezes | src/main/kotlin/P.kt:141-158 | once killed, whether before or after its invoke, the loop never evaluates its predicate or invokes its body again; each later loop check, including a later invoke, exits through onDone; failures that reach the loop are still relayed and kills still forwarded |
| WhileLoop.KilledBeforeInvokeExits | src/main/kotlin/P.kt:141-158 | after a kill that arrives before any invoke, the predicate is never evaluated and the body never invoked; every loop check, the invoke's included, fires onDone |
| WhileLoop.RelaysBody | src/main/kotlin/P.kt:146-158 | over any run: each loop check (one per invoke, and one per body onDone once invoked) either invokes the body or fires onDone; the body is the only child; every kill is forwarded to it; every body failure after the invoke is relayed unchanged and none before it |
| WhileLoop.ChecksBounded | src/main/kotlin/P.kt:146-158 | there are never more loop checks than invokes plus body onDone calls, nor more relayed failures than body failures |
| WhileLoop.ReportsBounded | src/main/kotlin/P.kt:153-157 | when the body reports at most once per invoke, its reports never outnumber its invokes |
| WhileLoop.CompletesAtMostOnce | src/main/kotlin/P.kt:146-158 | a loop invoked at most once, whose body reports at most once per invoke, completes at most once, through onDone or onThrow |
| WhileLoop.StepAhead | src/main/kotlin/P.kt:141-158 | a loop that has evaluated its predicate m more times reacts to every event as one whose predicate answers are shifted by m |
| WhileLoop.AfterInvoke | src/main/kotlin/P.kt:141-158 | after an invoke the loop is, up to its evaluation count, in the state of a fresh loop that received one kill (if there was any) and an invoke |
| WhileLoop.Reinvoke | src/main/kotlin/P.kt:141-158 | whatever came before an invoke, what follows it is signal for signal what follows the invoke of a fresh loop that was killed beforehand if and only if this one was, with the predicate answering where this one left off; that fresh run is a single-invoke run when no further invoke comes |
| WhileLoop.WhileP.constructor | src/main/kotlin/P.kt:135-139 | a new loop is not killed and has evaluated nothing |
| WhileLoop.WhileP.Check | src/main/kotlin/P.kt:147-155 | the loop check: onDone if killed (predicate not evaluated) or if the predicate is false; otherwise invokes the body |
| WhileLoop.WhileP.Invoke | src/main/kotlin/P.kt:146-158 | wires the body's handlers and runs one loop check |
| WhileLoop.WhileP.ChildDone | src/main/kotlin/P.kt:156 | the body's onDone is the loop check once invoke has wired it |
| WhileLoop.WhileP.ChildThrow | src/main/kotlin/P.kt:157 | the body's onThrow is the loop's onThrow once invoke has wired it |
| WhileLoop.WhileP.Kill | src/main/kotlin/P.kt:141-144 | sets killed and forwards the kill to the body |
| IfElse.Step | src/main/kotlin/P.kt:163-181 | chosen branches are never forgotten; only an invoke changes state: it evaluates the predicate once, invokes exactly the branch it chose, and makes it the one being run; a report is relayed if and only if it comes from a chosen branch |
| IfElse.Run | src/main/kotlin/P.kt:163-181 | when no kill comes before the first invoke, the predicate has been evaluated once per invoke and a branch is being run exactly from the first invoke on |
| IfElse.ChoosesByPredicate | src/main/kotlin/P.kt:169-181 | the branches invoked are exactly the predicate's choices, in order; the branch being run is the latest choice; only chosen branches carry the if's handlers |
| IfElse.OneBranchPerInvoke | src/main/kotlin/P.kt:169-181 | each invoke runs exactly one branch: the (i+1)-th runs the then-branch if and only if the predicate's (i+1)-th evaluation is true, and the else-branch otherwise |
| IfElse.KillForwardsToActive | src/main/kotlin/P.kt:163-165 | a kill goes to the branch the latest invoke chose |
| IfElse.RelaysBranches | src/main/kotlin/P.kt:169-181 | when reports come only from branches already chosen, every onDone and every failure is relayed unchanged and in order |
| IfElse.IfP.constructor | src/main/kotlin/P.kt:162-167 | a new if runs no branch and has evaluated nothing |
| IfElse.IfP.Invoke | src/main/kotlin/P.kt:169-181 | evaluates the predicate once, wires and invokes the chosen branch, and makes it the one being run |
| IfElse.IfP.ChildDone | src/main/kotlin/P.kt:171 | a chosen branch's onDone is the if's onDone |
| IfElse.IfP.ChildThrow | src/main/kotlin/P.kt:172 | a chosen branch's onThrow is the if's onThrow |
| IfElse.IfP.Kill | src/main/kotlin/P.kt:163-165 | forwards the kill to the branch being run; requires that one exists |
| WaitList.PList.constructor | src/main/kotlin/P.kt:184-185 | a new list holds the given elements and no waiter |
| WaitList.PList.Await | src/main/kotlin/P.kt:187-202 | the waitAvailable process completes at once exactly when the list is non-empty, and otherwise parks at the back of the queue; the queue stays first-in first-out |
| WaitList.PList.Add | src/main/kotlin/P.kt:204-210 | appends the element and, when a waiter is parked, removes and completes exactly the oldest one; returns true; the queue stays first-in first-out |
| WaitList.PList.Kill | src/main/kotlin/P.kt:193-195 | a parked waiter reports a KilledException and stays queued; an immediate one ignores the kill |
| WaitList.KilledWaiterStillReleased | src/main/kotlin/P.kt:187-210 | on any list, the oldest parked waiter, killed while parked, reports the kill and is then still completed by the next add, which removes it from the queue (a killed waiter behind older ones is reached only after them, as Add states) |
| WaitList.ReleasedInParkingOrder | src/main/kotlin/P.kt:204-210 | on any list with at least two parked waiters, the next two adds complete the two oldest, older first, and leave the rest queued in order |
| Blocking.DoneResult | src/main/kotlin/P.kt:215 | the onDone result is Done and carries no throwable |
| Blocking.Classify | src/main/kotlin/P.kt:235-242 | the onThrow result is Killed if and only if the throwable is a KilledException, Exception if and only if it is any other throwable, never Done, and carries the throwable |
| Blocking.Record | src/main/kotlin/P.kt:231-242 | the recorded result is Done if and only if the process fired onDone; after onThrow it carries the very throwable |
| Blocking.Rethrown | src/main/kotlin/P.kt:247-252 | a Done result makes invokeBlocking return; any other result makes it throw the carried throwable |
| Blocking.BlockingAsWritten | src/main/kotlin/P.kt:243-252 | invokeBlocking as written: it returns whenever the process completed before its invoke() returned, and otherwise agrees with the corrected version |
| Blocking.RecordRoundTrip | src/main/kotlin/P.kt:231-252 | recording a completion and acting on the record loses nothing: onDone makes invokeBlocking return and onThrow makes it throw that very throwable |
| Blocking.Blocking | src/main/kotlin/P.kt:247-252 | the corrected invokeBlocking returns for a Done result and throws the carried throwable otherwise |
| Blocking.BlockingReportsCompletion | src/main/kotlin/P.kt:227-253 | the corrected invokeBlocking throws exactly what the process reported, whether or not it completed synchronously |
| Blocking.SynchronousFailureSwallowed | src/main/kotlin/P.kt:245-246 | a FuncP that throws reports the failure during its own invoke, and invokeBlocking as written then returns normally |

## Left out

- `DelayP` (P.kt lines 22-36) runs on a background timer thread, and the timer can race with kill. It is not modelled.
- The blocking wait in `invokeBlocking` is not modelled: a future is joined across threads. Whether the process completed before its invoke() returned is a parameter.
- Concurrency is not modelled. Events arrive one at a time, so the unsynchronised `doneNum++` of `ParallelP` under concurrent completions is out of scope.
- Kotlin closures and handler rebinding are replaced by explicit events. In the model, a child's report reaches the combinator's relay exactly when the combinator has wired that child's handlers. Handlers that a combinator installs on a child it shares with another combinator are not modelled.
- Products, branches and children are distinct indices. Aliasing is not modelled, such as `EmptyP` being one shared object or the same process being both branches of an `IfP`.
- An exception that escapes a factory, a predicate, or a handler called from inside a combinator is not modelled. It propagates out of `invoke()` in the source.
- Sequence.RunInvariant, Sequence.ProtocolInvariant, Sequence.CompletesAtMostOnce, Sequence.FailureIsFinal, Sequence.KilledBeforeInvokeStalls, Parallel.RunInvariant, Parallel.CounterCountsChildren, Parallel.DoneIffAllReported and WhileLoop.CompletesAtMostOnce describe one invocation only: a run with a single invoke before which only kills arrive. The source also re-invokes combinators. A `WhileP` invokes its body on every iteration (P.kt line 153), and the vararg constructor makes that body a `SequenceP` (P.kt lines 136-137). A child can also report before the invoke, for example when a forwarded kill (P.kt lines 49 and 81) meets `BaseP`'s default kill handler (P.kt line 18). These runs are reached through Sequence.Reinvoke, Parallel.Reinvoke and WhileLoop.Reinvoke: the signals after the latest invoke are those of a single-invoke run. No lemma states how the signals of an earlier invocation interleave with those of a later one.
- Synchronous re-entrancy is not modelled. In the source a child may report inside the call that invokes or kills it: a `FuncP` or `EmptyP` child answers inside its own `invoke()`, and `BaseP`'s default kill handler fires onThrow inside the kill. Such a report then reaches the combinator before the rest of its loop over the children. For example, `ParallelP(FuncP { throw e }, q)` fires onThrow(e) before `q` is invoked. In the model every combinator emits its whole reaction to one event first, and the next event comes after it. The traces therefore list those signals in a different order from the source.
- Call-stack depth is not modelled. In `SequenceP` and `WhileP`, each synchronous child completion runs the next step inside the previous one (P.kt lines 65 and 153). A long enough synchronous `WhileP` loop ends in a `StackOverflowError`. `WhileLoop.LoopsExactly` holds for every iteration count because the model has no stack.
- `BaseP`'s default kill handler (fire onThrow with a KilledException) belongs to the abstract children. The model leaves it to them.
- `PList` delegates every other `MutableList` operation to the wrapped list. Only `add` is overridden, and only `add` is modelled. The re-entrant calls a released waiter's continuation can make into the list are not modelled.
- `src/main/kotlin/main.kt` is not part of this model. It holds the demo entry point, the builder wrappers and an executor-based starter.

## Findings

| source | as written | input that shows it | evidently intended | confidence | as-written member | corrected member |
|---|---|---|---|---|---|---|
| src/main/kotlin/P.kt:245-246 | `invokeBlocking` returns at once when the process completed before `invoke()` returned, without looking at the result. A failure reported synchronously through onThrow is swallowed. | `FuncP { throw RuntimeException() }.invokeBlocking()` returns normally. | Act on the recorded result in every case: return for Done, and rethrow the carried throwable for Killed or Exception. | high; not executed | Blocking.SynchronousFailureSwallowed | Blocking.BlockingReportsCompletion |
