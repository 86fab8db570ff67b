/** The Ruby exception classes the services library raises or rescues, their
    inheritance, and raised exception objects with their cause chain. */
module Errors {
  import opened Values

  /** An exception class.  Each service class `S` gets its own `S::Error`
      (a direct subclass of StandardError) and `S::NotUniqueError` (a subclass
      of `S::Error`); user code may define further subclasses of any class. */
  datatype ErrorClass =
    | ExceptionRoot                      // Ruby's `Exception`
    | StandardError
    | RuntimeError                       // what `raise "message"` raises
    | ArgumentError
    | NoMethodError
    | InvalidMetaError                   // Services::Logger::Redis::InvalidMetaError
    | ServiceError(service: string)      // S::Error
    | NotUniqueError(service: string)    // S::NotUniqueError
    | Subclass(name: string, parent: ErrorClass)
    | NonStandard(name: string)          // an Exception outside StandardError (Interrupt, ...)

  /** Distance from `Exception` in the inheritance tree. */
  function Depth(c: ErrorClass): nat
  {
    match c
    case ExceptionRoot => 0
    case StandardError => 1
    case NonStandard(_) => 1
    case NotUniqueError(_) => 3
    case Subclass(_, p) => Depth(p) + 1
    case _ => 2
  }

  /** The direct superclass; `None` for `Exception` itself. */
  function Parent(c: ErrorClass): (p: Option<ErrorClass>)
    ensures p.Some? ==> Depth(p.value) < Depth(c)
    ensures p.None? <==> c == ExceptionRoot
  {
    match c
    case ExceptionRoot => None
    case StandardError => Some(ExceptionRoot)
    case NonStandard(_) => Some(ExceptionRoot)
    case ServiceError(_) => Some(StandardError)
    case NotUniqueError(s) => Some(ServiceError(s))
    case Subclass(_, p) => Some(p)
    case _ => Some(StandardError)
  }

  /** Ruby's `c <= a`: `c` is `a` or inherits from it. */
  predicate IsA(c: ErrorClass, a: ErrorClass)
    decreases Depth(c)
  {
    c == a || (Parent(c).Some? && IsA(Parent(c).value, a))
  }

  /** What `rescue StandardError` catches. */
  predicate IsStandard(c: ErrorClass)
  {
    IsA(c, StandardError)
  }

  /** `S::Error` or one of its subclasses. */
  predicate InServiceFamily(c: ErrorClass, service: string)
  {
    IsA(c, ServiceError(service))
  }

  /** `Class#to_s`. */
  function ClassName(c: ErrorClass): string
  {
    match c
    case ExceptionRoot => "Exception"
    case StandardError => "StandardError"
    case RuntimeError => "RuntimeError"
    case ArgumentError => "ArgumentError"
    case NoMethodError => "NoMethodError"
    case InvalidMetaError => "Services::Logger::Redis::InvalidMetaError"
    case ServiceError(s) => s + "::Error"
    case NotUniqueError(s) => s + "::NotUniqueError"
    case Subclass(n, _) => n
    case NonStandard(n) => n
  }

  /** A raised exception: class, message, backtrace lines and the exception
      that was being handled when it was raised (`Exception#cause`). */
  datatype Exception = Exception(cls: ErrorClass, message: string, backtrace: seq<string>, cause: Option<Exception>)

  /** `raise "message"` outside any rescue clause. */
  function Runtime(message: string): Exception
  {
    Exception(RuntimeError, message, [], None)
  }

  /** The outcome of a Ruby call: a return value or a raised exception. */
  datatype Outcome<+T> = Returned(value: T) | Raised(error: Exception)

  /** The exception and its causes, outermost first. */
  function Chain(e: Exception): (r: seq<Exception>)
    ensures |r| >= 1 && r[0] == e
    decreases e
  {
    match e.cause
    case None => [e]
    case Some(c) => [e] + Chain(c)
  }

  /** Every service's NotUniqueError is in that service's error family and in no other's. */
  lemma NotUniqueErrorFamily(s: string, t: string)
    ensures InServiceFamily(NotUniqueError(s), s)
    ensures IsStandard(NotUniqueError(s))
    ensures s != t ==> !InServiceFamily(NotUniqueError(s), t)
  {
    assert IsA(StandardError, StandardError);
    assert IsA(ServiceError(s), StandardError);
    assert !IsA(ExceptionRoot, ServiceError(t));
    assert !IsA(StandardError, ServiceError(t));
    assert s != t ==> !IsA(ServiceError(s), ServiceError(t));
  }

  /** A family member is always a StandardError, so `rescue StandardError` sees it. */
  lemma {:induction false} FamilyIsStandard(c: ErrorClass, s: string)
    requires InServiceFamily(c, s)
    ensures IsStandard(c)
    decreases Depth(c)
  {
    if c == ServiceError(s) {
      assert IsA(StandardError, StandardError);
    } else {
      FamilyIsStandard(Parent(c).value, s);
    }
  }
}
