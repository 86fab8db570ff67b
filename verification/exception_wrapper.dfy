/** The exception-normalisation layer every service is prepended with: errors
    of the service's own family pass through, every other StandardError is
    wrapped into the service's `Error`, everything else is not caught. */
module ExceptionWrapper {
  import opened Values
  import opened Errors

  /** Apply the rescue clause to the outcome of the inner layers.  `raiseSite`
      is the backtrace a freshly raised wrapper error gets (stack introspection
      is not modelled). */
  function Wrap<T>(service: string, inner: Outcome<T>, raiseSite: seq<string>): (r: Outcome<T>)
    // a normal return value passes through
    ensures inner.Returned? ==> r == inner
    // exceptions outside StandardError are not rescued
    ensures inner.Raised? && !IsStandard(inner.error.cls) ==> r == inner
    // the service's Error or a subclass is re-raised as the very same object
    ensures inner.Raised? && InServiceFamily(inner.error.cls, service) ==> r == inner
    // any other StandardError becomes S::Error with the same message, caused by the original
    ensures inner.Raised? && IsStandard(inner.error.cls) && !InServiceFamily(inner.error.cls, service) ==>
              r.Raised? && r.error.cls == ServiceError(service) && r.error.message == inner.error.message
              && r.error.cause == Some(inner.error)
    // only the service's own error family escapes as a StandardError
    ensures r.Raised? && IsStandard(r.error.cls) ==> InServiceFamily(r.error.cls, service)
    // the wrapper never turns a return into an error or an error into a return
    ensures r.Returned? <==> inner.Returned?
  {
    match inner
    case Returned(_) => inner
    case Raised(e) =>
      if !IsStandard(e.cls) || InServiceFamily(e.cls, service) then inner
      else Raised(Exception(ServiceError(service), e.message, raiseSite, Some(e)))
  }

  /** Wrapping twice is wrapping once: what escapes is already normalised. */
  lemma WrapIdempotent<T>(service: string, inner: Outcome<T>, site1: seq<string>, site2: seq<string>)
    ensures Wrap(service, Wrap(service, inner, site1), site2) == Wrap(service, inner, site1)
  {
  }

  /** A wrapped error extends the cause chain by exactly one link, so the
      original error and all of its causes are still reachable. */
  lemma WrapExtendsChain<T>(service: string, inner: Outcome<T>, site: seq<string>)
    requires inner.Raised? && IsStandard(inner.error.cls) && !InServiceFamily(inner.error.cls, service)
    ensures Wrap(service, inner, site).Raised?
    ensures Chain(Wrap(service, inner, site).error) == [Wrap(service, inner, site).error] + Chain(inner.error)
  {
  }
}
