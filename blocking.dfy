/**
 * PResult and the result handling of invokeBlocking.
 *
 * invokeBlocking installs handlers that record how the process completed: a
 * Done result from onDone; from onThrow, a Killed result carrying the
 * throwable when it is a KilledException and an Exception result carrying
 * it otherwise. It then invokes the process and, once a result is there,
 * returns for Done and rethrows the carried throwable for Killed and
 * Exception. The waiting itself (a future joined across threads) is not
 * modelled: whether the process completed before its invoke() returned is
 * a parameter.
 */
module Blocking {
  import Process
  import Func

  /** The three kinds of result. */
  datatype ResultType = Done | Killed | Exception

  /** A result and the throwable it carries, if any. */
  datatype PResult = PResult(kind: ResultType, exception: Process.Option<Process.Error>)

  /** PResult.done(): the result recorded by onDone. */
  function DoneResult(): (r: PResult)
    ensures r.kind == Done && r.exception.None?
  {
    PResult(Done, Process.None)
  }

  /** The result recorded by onThrow: Killed exactly for a KilledException,
      Exception for any other throwable, never Done; either way it carries
      the throwable. */
  function Classify(t: Process.Error): (r: PResult)
    ensures r.kind == Killed <==> t == Process.KilledError
    ensures r.kind == Exception <==> t.Failure?
    ensures r.kind != Done
    ensures r.exception == Process.Some(t)
  {
    if t.KilledError? then PResult(Killed, Process.Some(t)) else PResult(Exception, Process.Some(t))
  }

  /** What the handlers record when the process fires `sig`. */
  function Record(sig: Process.Signal): (r: PResult)
    requires sig.Done? || sig.Throw?
    ensures r.kind == Done <==> sig.Done?
    ensures sig.Throw? ==> r.exception == Process.Some(sig.error)
  {
    if sig.Done? then DoneResult() else Classify(sig.error)
  }

  /** What invokeBlocking does with a result once it has one: returns
      normally (None) for Done, and throws the carried throwable otherwise. */
  function Rethrown(r: PResult): (thrown: Process.Option<Process.Error>)
    ensures r.kind == Done ==> thrown.None?
    ensures r.kind != Done ==> thrown == r.exception
  {
    match r.kind
    case Done => Process.None
    case Killed => r.exception
    case Exception => r.exception
  }

  /** Recording a completion and acting on the record loses nothing: a
      process that fired onDone makes invokeBlocking return, and one that
      fired onThrow makes it throw that very throwable. */
  lemma RecordRoundTrip(sig: Process.Signal)
    requires sig.Done? || sig.Throw?
    ensures Rethrown(Record(sig)) == (if sig.Done? then Process.None else Process.Some(sig.error))
  {
  }

  /** invokeBlocking as written: when the process completed before its
      invoke() returned, it returns at once, whatever the result. */
  function BlockingAsWritten(r: PResult, synchronous: bool): (thrown: Process.Option<Process.Error>)
    ensures synchronous ==> thrown.None?
    ensures !synchronous ==> thrown == Blocking(r, false)
  {
    if synchronous then Process.None else Rethrown(r)
  }

  /** invokeBlocking as evidently intended: it acts on the result whether or
      not the process completed synchronously, so it throws exactly what the
      process reported. */
  function Blocking(r: PResult, synchronous: bool): (thrown: Process.Option<Process.Error>)
    ensures r.kind == Done ==> thrown.None?
    ensures r.kind != Done ==> thrown == r.exception
  {
    Rethrown(r)
  }

  /** The corrected invokeBlocking throws exactly the throwable the process
      reported through onThrow, and returns normally exactly when it reported
      onDone, synchronously or not. */
  lemma BlockingReportsCompletion(sig: Process.Signal, synchronous: bool)
    requires sig.Done? || sig.Throw?
    ensures Blocking(Record(sig), synchronous) == (if sig.Done? then Process.None else Process.Some(sig.error))
  {
    RecordRoundTrip(sig);
  }

  /** As written, a FuncP whose function throws reports the failure during
      its own invoke(), so invokeBlocking returns normally and the failure
      is lost; the corrected version throws it. */
  lemma SynchronousFailureSwallowed()
    ensures var out := Func.Invoke(Func.Raised(Process.Failure(1)));
      && out == [Process.Throw(Process.Failure(1))]
      && BlockingAsWritten(Record(out[0]), true) == Process.None
      && Blocking(Record(out[0]), true) == Process.Some(Process.Failure(1))
  {
  }
}
