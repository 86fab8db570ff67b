/** One invocation of a service, through the layers `inherited` prepends
    (lib/services/base.rb:18): the call logger outermost, then the exception
    wrapper, then the uniqueness checker, then the service's own `call`. */
module Pipeline {
  import opened Values
  import opened Errors
  import opened KeyValue
  import CallLogger
  import ExceptionWrapper
  import UniquenessChecker
  import ServiceBase

  /** What the environment supplies to one invocation: the rendered
      arguments and caller for the log, the backtrace a freshly raised wrapper
      error gets, and the rendered duration for the END line. */
  datatype Context = Context(argsText: string, callerText: string, raiseSite: seq<string>, duration: string)

  /** The caller's view of one invocation: the log lines written, the
      outcome, the store afterwards and the reschedulings requested. */
  datatype Invocation = Invocation(logged: CallLogger.Logged<Arg>, store: Store, scheduled: seq<UniquenessChecker.Rescheduled>)

  /** `S.call(*args)`: a new instance with id `id` is called through the three
      layers, innermost first. */
  function Invoke(env: UniquenessChecker.Env, ctx: Context, id: string, store: Store, args: seq<Arg>, work: UniquenessChecker.Work)
    : (r: Invocation)
    // the log starts with START and CALLED BY and ends with END, on every outcome
    ensures |r.logged.log| >= 3
    ensures r.logged.log[0] == CallLogger.StartLine(ctx.argsText)
    ensures r.logged.log[1] == CallLogger.CalledByLine(ctx.callerText)
    ensures r.logged.log[|r.logged.log| - 1] == CallLogger.EndLine(ctx.duration)
    // a value comes back exactly when the service's own layers returned one
    ensures r.logged.outcome.Returned? <==> UniquenessChecker.CallAsWritten(env, id, store, args, work).outcome.Returned?
    ensures r.logged.outcome.Returned? ==> r.logged.outcome == UniquenessChecker.CallAsWritten(env, id, store, args, work).outcome
    // the only StandardErrors a caller sees are the service's own
    ensures r.logged.outcome.Raised? && IsStandard(r.logged.outcome.error.cls) ==>
              InServiceFamily(r.logged.outcome.error.cls, env.service)
    // what escapes as a StandardError is what gets logged, header first
    ensures r.logged.outcome.Raised? && IsStandard(r.logged.outcome.error.cls) ==>
              r.logged.log[2] == CallLogger.Header(r.logged.outcome.error, false)
    // the store and the reschedulings are the uniqueness checker's, released as written
    ensures r.store == UniquenessChecker.CallAsWritten(env, id, store, args, work).state.store
    ensures r.scheduled == UniquenessChecker.CallAsWritten(env, id, store, args, work).state.scheduled
  {
    var checked := UniquenessChecker.CallAsWritten(env, id, store, args, work);
    var wrapped := ExceptionWrapper.Wrap(env.service, checked.outcome, ctx.raiseSite);
    var logged := CallLogger.LogCall(ctx.argsText, ctx.callerText, CallLogger.Logged([], wrapped), ctx.duration);
    Invocation(logged, checked.state.store, checked.state.scheduled)
  }

  /** The order `Invoke` composes the layers in is the order `inherited`
      prepends them in: the first three ancestors of every service class. */
  lemma LayersInAncestorOrder(name: string, ownAncestors: seq<ServiceBase.Ancestor>)
    ensures ServiceBase.Inherited(name, ownAncestors).ancestors[..3]
              == [ServiceBase.Prepended(ServiceBase.CallLoggerLayer),
                  ServiceBase.Prepended(ServiceBase.ExceptionWrapperLayer),
                  ServiceBase.Prepended(ServiceBase.UniquenessCheckerLayer)]
  {
  }

  /** A `NotUniqueError` raised by a failing uniqueness check reaches the caller
      as that very error: the wrapper passes it through since it is a subclass
      of the service's `Error`, and the logger re-raises it after logging it. */
  lemma NotUniqueReachesCaller(env: UniquenessChecker.Env, ctx: Context, id: string, store: Store, args: seq<Arg>, work: UniquenessChecker.Work)
    requires UniquenessChecker.CallAsWritten(env, id, store, args, work).outcome.Raised?
    requires UniquenessChecker.CallAsWritten(env, id, store, args, work).outcome.error.cls == NotUniqueError(env.service)
    ensures Invoke(env, ctx, id, store, args, work).logged.outcome == UniquenessChecker.CallAsWritten(env, id, store, args, work).outcome
    ensures Invoke(env, ctx, id, store, args, work).logged.log[2]
              == CallLogger.Header(UniquenessChecker.CallAsWritten(env, id, store, args, work).outcome.error, false)
  {
    var e := UniquenessChecker.CallAsWritten(env, id, store, args, work).outcome.error;
    assert IsA(ServiceError(env.service), ServiceError(env.service));
    assert InServiceFamily(e.cls, env.service);
    FamilyIsStandard(e.cls, env.service);
  }

  /** Any other StandardError from inside the service reaches the caller as
      the service's `Error`, with the same message, caused by the original. */
  lemma ForeignErrorIsWrapped(env: UniquenessChecker.Env, ctx: Context, id: string, store: Store, args: seq<Arg>, work: UniquenessChecker.Work)
    requires UniquenessChecker.CallAsWritten(env, id, store, args, work).outcome.Raised?
    requires IsStandard(UniquenessChecker.CallAsWritten(env, id, store, args, work).outcome.error.cls)
    requires !InServiceFamily(UniquenessChecker.CallAsWritten(env, id, store, args, work).outcome.error.cls, env.service)
    ensures var inner := UniquenessChecker.CallAsWritten(env, id, store, args, work).outcome.error;
            var out := Invoke(env, ctx, id, store, args, work).logged.outcome;
            out.Raised? && out.error.cls == ServiceError(env.service)
            && out.error.message == inner.message && out.error.cause == Some(inner)
  {
  }

  /** The base class's own `call` raises NotImplementedError
      (lib/services/base.rb:28-30): a service that declares nothing. */
  function Unimplemented(): UniquenessChecker.Work
  {
    UniquenessChecker.Work([], Raised(Exception(NonStandard("NotImplementedError"), "NotImplementedError", [], None)))
  }

  /** NotImplementedError is not a StandardError: no layer rescues it, so it
      reaches the caller unchanged and the log holds only START, CALLED BY and
      END. */
  lemma UnimplementedPassesThrough(env: UniquenessChecker.Env, ctx: Context, id: string, store: Store, args: seq<Arg>)
    ensures Invoke(env, ctx, id, store, args, Unimplemented()).logged.outcome == Unimplemented().finish
    ensures Invoke(env, ctx, id, store, args, Unimplemented()).logged.log
              == [CallLogger.StartLine(ctx.argsText), CallLogger.CalledByLine(ctx.callerText), CallLogger.EndLine(ctx.duration)]
  {
    assert !IsA(ExceptionRoot, StandardError);
    assert !IsStandard(NonStandard("NotImplementedError"));
  }

  /** However the invocation ends, even when it rescheduled itself, the store
      is the one it started from less the error counter: every uniqueness key
      it took is free again, and the counter reads 0. */
  lemma InvokeReleasesKeys(env: UniquenessChecker.Env, ctx: Context, id: string, store: Store, args: seq<Arg>, work: UniquenessChecker.Work)
    requires UniquenessChecker.DigestWellFormed(env.digest) && UniquenessChecker.ValidClassName(env.service)
    ensures var r := Invoke(env, ctx, id, store, args, work);
            && r.store == store - {UniquenessChecker.ErrorCountKey(env, args)}
            && UniquenessChecker.ErrorCount(env, args, r.store) == 0
  {
    UniquenessChecker.CallAsWrittenForgetsErrorCount(env, id, store, args, work);
  }

  /** Two invocations one after the other with the same arguments, whatever
      each did, leave the store as the first found it, less the error counter. */
  lemma SequentialInvocationsLeaveNoTrace(env: UniquenessChecker.Env, ctx1: Context, ctx2: Context, id1: string, id2: string,
                                          store: Store, args: seq<Arg>, work1: UniquenessChecker.Work, work2: UniquenessChecker.Work)
    requires UniquenessChecker.DigestWellFormed(env.digest) && UniquenessChecker.ValidClassName(env.service)
    ensures Invoke(env, ctx2, id2, Invoke(env, ctx1, id1, store, args, work1).store, args, work2).store
              == store - {UniquenessChecker.ErrorCountKey(env, args)}
  {
    var errKey := UniquenessChecker.ErrorCountKey(env, args);
    var s1 := Invoke(env, ctx1, id1, store, args, work1).store;
    InvokeReleasesKeys(env, ctx1, id1, store, args, work1);
    InvokeReleasesKeys(env, ctx2, id2, s1, args, work2);
    assert store - {errKey} - {errKey} == store - {errKey};
  }
}
