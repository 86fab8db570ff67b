/** The uniqueness checker every service is prepended with (current variant,
    lib/services/modules/uniqueness_checker.rb).  A service's `call` may declare
    `check_uniqueness!` any number of times; each declaration derives a key
    from the service class and some arguments, looks it up in Redis and either
    takes it (recording the key for release when `call` ends) or resolves the
    conflict by the `on_error` policy: fail, ignore, or reschedule with cubic
    back-off and a bounded error counter.

    The lookup (`GET`) and the write (`SETEX`) are two separate commands, so
    the model is a sequential state machine over the store; it does not claim
    mutual exclusion between concurrent invocations. */
module UniquenessChecker {
  import opened Values
  import opened Text
  import opened Errors
  import opened KeyValue

  /** `%w(services uniqueness).join(':')` */
  const KeyPrefix: string := "services:uniqueness"
  const MaxRetries: nat := 10
  const OneHour: nat := 60 * 60

  datatype OnError = Fail | Ignore | Reschedule

  /** `ON_ERROR.include?(on_error.to_sym)`, returning the policy. */
  function ParseOnError(name: string): (r: Option<OnError>)
    ensures r.Some? <==> name in ["fail", "ignore", "reschedule"]
    ensures r == Some(Fail) <==> name == "fail"
    ensures r == Some(Ignore) <==> name == "ignore"
    ensures r == Some(Reschedule) <==> name == "reschedule"
  {
    if name == "fail" then Some(Fail)
    else if name == "ignore" then Some(Ignore)
    else if name == "reschedule" then Some(Reschedule)
    else None
  }

  /** The service class being checked and the opaque helpers the key derivation
      uses: `Digest::MD5.hexdigest` and `#inspect`/`#to_s` of a Ruby value. */
  datatype Env = Env(service: string, objectClass: string, digest: string -> string, inspect: Arg -> string)

  /** What the model assumes of the digest: an MD5 hex digest is never empty
      and never contains a colon. */
  ghost predicate DigestWellFormed(digest: string -> string)
  {
    forall s :: |digest(s)| > 0 && ':' !in digest(s)
  }

  /** A Ruby class name (`Foo::Bar`) starts with an upper-case letter. */
  predicate ValidClassName(name: string)
  {
    |name| > 0 && 'A' <= name[0] <= 'Z'
  }

  /** `self.class.to_s.gsub(':', '_')` */
  function EscapeClassName(name: string): (r: string)
    ensures |r| == |name| && ':' !in r
    ensures forall i :: 0 <= i < |name| && name[i] != ':' ==> r[i] == name[i]
  {
    seq(|name|, i requires 0 <= i < |name| => if name[i] == ':' then '_' else name[i])
  }

  /** `args.to_s` of an argument list. */
  function ArgsText(env: Env, args: seq<Arg>): string
  {
    env.inspect(ArrayArg(args))
  }

  /** The digest segment, present only for a non-empty argument list. */
  function DigestSegment(env: Env, args: seq<Arg>): seq<string>
  {
    if |args| == 0 then [] else [env.digest(ArgsText(env, args))]
  }

  /** `uniqueness_key(args)` */
  function UniquenessKey(env: Env, args: seq<Arg>): string
  {
    Join([KeyPrefix, EscapeClassName(env.service)] + DigestSegment(env, args), ":")
  }

  /** `error_count_key`, derived from the service's call arguments. */
  function ErrorCountKey(env: Env, serviceArgs: seq<Arg>): string
  {
    Join([KeyPrefix, "errors", EscapeClassName(env.service)] + DigestSegment(env, serviceArgs), ":")
  }

  /** The colon-separated segments of a key built from `KeyPrefix` and `rest`. */
  lemma PrefixedKeySegments(rest: seq<string>)
    requires |rest| >= 1
    ensures Join([KeyPrefix] + rest, ":") == Join(["services", "uniqueness"] + rest, ":")
  {
    KeyPrefixSegments();
    JoinRegroup("services", "uniqueness", KeyPrefix, ":", rest);
  }

  lemma KeyPrefixSegments()
    ensures KeyPrefix == "services" + ":" + "uniqueness"
  {
  }

  /** Reading a uniqueness key back: the escaped class name and, when present, the digest. */
  function ParseUniquenessKey(key: string): Option<(string, Option<string>)>
  {
    var parts := SplitOn(key, ':');
    if |parts| == 3 && parts[0] == "services" && parts[1] == "uniqueness" then Some((parts[2], None))
    else if |parts| == 4 && parts[0] == "services" && parts[1] == "uniqueness" then Some((parts[2], Some(parts[3])))
    else None
  }

  /** Key derivation loses nothing but what the class-name escaping and the
      digest lose: the key determines the escaped class name and whether,
      and with which digest, arguments were hashed into it. */
  lemma UniquenessKeyRoundTrip(env: Env, args: seq<Arg>)
    requires DigestWellFormed(env.digest)
    ensures ParseUniquenessKey(UniquenessKey(env, args))
            == Some((EscapeClassName(env.service),
                     if |args| == 0 then None else Some(env.digest(ArgsText(env, args)))))
  {
    var segments := ["services", "uniqueness", EscapeClassName(env.service)] + DigestSegment(env, args);
    PrefixedKeySegments([EscapeClassName(env.service)] + DigestSegment(env, args));
    assert [KeyPrefix, EscapeClassName(env.service)] + DigestSegment(env, args)
           == [KeyPrefix] + ([EscapeClassName(env.service)] + DigestSegment(env, args));
    assert ["services", "uniqueness"] + ([EscapeClassName(env.service)] + DigestSegment(env, args)) == segments;
    SplitOnJoin(segments, ':');
  }

  /** Equal keys come from the same escaped class name and either both from
      empty arguments or both from arguments with the same digest; in
      particular the no-argument key of a class never equals one of its
      keys with arguments. */
  lemma UniquenessKeyDetermines(env1: Env, args1: seq<Arg>, env2: Env, args2: seq<Arg>)
    requires DigestWellFormed(env1.digest) && DigestWellFormed(env2.digest)
    requires UniquenessKey(env1, args1) == UniquenessKey(env2, args2)
    ensures EscapeClassName(env1.service) == EscapeClassName(env2.service)
    ensures |args1| == 0 <==> |args2| == 0
    ensures |args1| > 0 ==> env1.digest(ArgsText(env1, args1)) == env2.digest(ArgsText(env2, args2))
  {
    UniquenessKeyRoundTrip(env1, args1);
    UniquenessKeyRoundTrip(env2, args2);
  }

  /** The escaping maps distinct class names to one key namespace: `A::B` and
      `A__B` share their uniqueness keys. */
  lemma EscapingMergesClassNames(env1: Env, env2: Env, args: seq<Arg>)
    requires env1.service == "A::B" && env2.service == "A__B"
    requires env1.digest == env2.digest && env1.inspect == env2.inspect
    ensures env1.service != env2.service
    ensures UniquenessKey(env1, args) == UniquenessKey(env2, args)
  {
    assert EscapeClassName("A::B") == "A__B";
    assert EscapeClassName("A__B") == "A__B";
  }

  /** A uniqueness key is never the error-count key of the same class, so
      taking a lock never overwrites the retry counter. */
  lemma UniquenessAndErrorKeysDisjoint(env: Env, args: seq<Arg>, serviceArgs: seq<Arg>)
    requires DigestWellFormed(env.digest) && ValidClassName(env.service)
    ensures UniquenessKey(env, args) != ErrorCountKey(env, serviceArgs)
  {
    var esc := EscapeClassName(env.service);
    var errSegments := ["services", "uniqueness", "errors", esc] + DigestSegment(env, serviceArgs);
    PrefixedKeySegments(["errors", esc] + DigestSegment(env, serviceArgs));
    assert [KeyPrefix, "errors", esc] + DigestSegment(env, serviceArgs)
           == [KeyPrefix] + (["errors", esc] + DigestSegment(env, serviceArgs));
    assert ["services", "uniqueness"] + (["errors", esc] + DigestSegment(env, serviceArgs)) == errSegments;
    SplitOnJoin(errSegments, ':');
    UniquenessKeyRoundTrip(env, args);
    assert esc[0] == env.service[0];
    assert SplitOn(ErrorCountKey(env, serviceArgs), ':')[2] == "errors";
    assert SplitOn(UniquenessKey(env, args), ':')[2] == esc != "errors";
  }

  // ---------------------------------------------------------------------------
  // Retry bookkeeping

  /** `retry_delay` for a given error count: cubic back-off with a 5 second floor. */
  function Backoff(count: nat): nat
  {
    count * count * count + 5
  }

  /** The back-off grows strictly with the error count. */
  lemma {:induction false} BackoffIncreasing(m: nat, n: nat)
    requires m < n
    ensures Backoff(m) < Backoff(n)
  {
    assert m * m <= n * m <= n * n;
    assert m * m * m <= n * n * m <= n * n * n;
    assert m * m * m < n * n * n by {
      assert n * n * m < n * n * n;
    }
  }

  /** `error_count`: the stored counter, 0 when absent. */
  function ErrorCount(env: Env, serviceArgs: seq<Arg>, store: Store): nat
  {
    match Get(store, ErrorCountKey(env, serviceArgs))
    case None => 0
    case Some(v) => ToI(v)
  }

  /** `retry_delay`: re-reads the counter from the store every time. */
  function RetryDelay(env: Env, serviceArgs: seq<Arg>, store: Store): nat
  {
    Backoff(ErrorCount(env, serviceArgs, store))
  }

  /** `increase_error_count`: counter + 1, kept for the current delay plus an hour. */
  function IncreaseErrorCount(env: Env, serviceArgs: seq<Arg>, store: Store): (r: Store)
    ensures ErrorCount(env, serviceArgs, r) == ErrorCount(env, serviceArgs, store) + 1
    ensures r[ErrorCountKey(env, serviceArgs)].ttl == Backoff(ErrorCount(env, serviceArgs, store)) + OneHour
    ensures forall k :: k != ErrorCountKey(env, serviceArgs) ==> (k in r <==> k in store)
    ensures forall k :: k != ErrorCountKey(env, serviceArgs) && k in store ==> r[k] == store[k]
  {
    var n := ErrorCount(env, serviceArgs, store);
    ToIOfNatToString(n + 1);
    SetEx(store, ErrorCountKey(env, serviceArgs), RetryDelay(env, serviceArgs, store) + OneHour, NatToString(n + 1))
  }

  // ---------------------------------------------------------------------------
  // Conversion for rescheduling

  /** What `convert_for_rescheduling` lets through: integers, strings, booleans,
      nil, instances of the object class, and arrays of those. */
  predicate Reschedulable(objectClass: string, a: Arg)
    decreases a
  {
    match a
    case ArrayArg(items) => forall i :: 0 <= i < |items| ==> Reschedulable(objectClass, items[i])
    case IntArg(_) => true
    case StrArg(_) => true
    case BoolArg(_) => true
    case NilArg => true
    case ObjectArg(rec) => rec.cls == objectClass
    case _ => false
  }

  /** A value a background job can carry as is: no records left. */
  predicate Plain(a: Arg)
    decreases a
  {
    match a
    case ArrayArg(items) => forall i :: 0 <= i < |items| ==> Plain(items[i])
    case IntArg(_) => true
    case StrArg(_) => true
    case BoolArg(_) => true
    case NilArg => true
    case _ => false
  }

  function ConversionError(env: Env, a: Arg): Exception
  {
    Runtime("Don't know how to convert arg " + env.inspect(a) + " for rescheduling.")
  }

  /** `convert_for_rescheduling(arg)` */
  function Convert(env: Env, a: Arg): (r: Result<Arg, Exception>)
    // it succeeds exactly on the values it knows, and what it returns is plain
    ensures r.Success? <==> Reschedulable(env.objectClass, a)
    ensures r.Success? ==> Plain(r.value)
    // arrays keep their shape, records become their id, primitives are untouched
    ensures r.Success? && a.ArrayArg? ==> r.value.ArrayArg? && |r.value.items| == |a.items|
    ensures r.Success? && a.ObjectArg? ==> r.value == IntArg(a.rec.id)
    ensures !a.ArrayArg? && !a.ObjectArg? && r.Success? ==> r.value == a
    ensures r.Failure? ==> r.error.cls == RuntimeError
    decreases a
  {
    match a
    case ArrayArg(items) =>
      (match ConvertAll(env, items)
       case Success(xs) => Success(ArrayArg(xs))
       case Failure(e) => Failure(e))
    case IntArg(_) => Success(a)
    case StrArg(_) => Success(a)
    case BoolArg(_) => Success(a)
    case NilArg => Success(a)
    case ObjectArg(rec) =>
      if rec.cls == env.objectClass then Success(IntArg(rec.id)) else Failure(ConversionError(env, a))
    case _ => Failure(ConversionError(env, a))
  }

  /** `args.map { |arg| convert_for_rescheduling arg }`, stopping at the first failure. */
  function ConvertAll(env: Env, items: seq<Arg>): (r: Result<seq<Arg>, Exception>)
    ensures r.Success? <==> forall i :: 0 <= i < |items| ==> Reschedulable(env.objectClass, items[i])
    ensures r.Success? ==> |r.value| == |items|
    ensures r.Success? ==> forall i :: 0 <= i < |items| ==> Convert(env, items[i]) == Success(r.value[i])
    ensures r.Failure? ==> r.error.cls == RuntimeError
    decreases items
  {
    if items == [] then Success([])
    else
      match Convert(env, items[0])
      case Failure(e) => Failure(e)
      case Success(x) =>
        match ConvertAll(env, items[1..])
        case Failure(e) => Failure(e)
        case Success(xs) =>
          assert forall i :: 1 <= i < |items| ==> items[i] == items[1..][i - 1];
          Success([x] + xs)
  }

  /** Converting an already converted value changes nothing. */
  lemma {:induction false} ConvertPlainIsIdentity(env: Env, a: Arg)
    requires Plain(a)
    ensures Convert(env, a) == Success(a)
    decreases a
  {
    match a
    case ArrayArg(items) =>
      forall i | 0 <= i < |items| ensures Convert(env, items[i]) == Success(items[i]) {
        ConvertPlainIsIdentity(env, items[i]);
      }
      ConvertAllPlainIsIdentity(env, items);
    case _ =>
  }

  lemma {:induction false} ConvertAllPlainIsIdentity(env: Env, items: seq<Arg>)
    requires forall i :: 0 <= i < |items| ==> Convert(env, items[i]) == Success(items[i])
    ensures ConvertAll(env, items) == Success(items)
    decreases |items|
  {
    if items != [] {
      ConvertAllPlainIsIdentity(env, items[1..]);
      assert [items[0]] + items[1..] == items;
    }
  }

  // ---------------------------------------------------------------------------
  // The invocation and one declaration

  /** The per-invocation state the Ruby code keeps in instance variables:
      the id (`@id`), the call arguments (`@service_args`, unset before `call`)
      and the keys taken so far (`@uniqueness_keys`). */
  datatype Invocation = Invocation(id: string, serviceArgs: Option<seq<Arg>>, uniquenessKeys: seq<string>)

  /** The rescheduler (`perform_in`) is an output: the delay and the converted arguments. */
  datatype Rescheduled = PerformIn(delay: nat, args: seq<Arg>)

  datatype State = State(inv: Invocation, store: Store, scheduled: seq<Rescheduled>)

  datatype Step<+T> = Step(outcome: Outcome<T>, state: State)

  const RetriedSentence: string := " The service has been retried " + NatToString(MaxRetries) + " times."

  function NotUniqueBase(env: Env, id: string, uniquenessArgs: seq<Arg>, similarId: string): string
  {
    "Service " + env.service + " " + id + " with uniqueness args " + ArgsText(env, uniquenessArgs)
    + " is not unique, a similar service is already running: " + similarId + "."
  }

  /** `raise_non_unique_error` as written: the retries sentence is appended
      whatever `retried` says. */
  function NotUniqueMessageAsWritten(env: Env, id: string, uniquenessArgs: seq<Arg>, similarId: string, retried: bool): string
  {
    NotUniqueBase(env, id, uniquenessArgs, similarId) + RetriedSentence
  }

  /** The message as written claims ten retries for a plain `fail` conflict
      that was never retried. */
  lemma NotUniqueMessageAsWrittenClaimsRetries(env: Env, id: string, uniquenessArgs: seq<Arg>, similarId: string)
    ensures EndsWith(NotUniqueMessageAsWritten(env, id, uniquenessArgs, similarId, false), RetriedSentence)
    ensures NotUniqueMessageAsWritten(env, id, uniquenessArgs, similarId, false)
            != NotUniqueMessage(env, id, uniquenessArgs, similarId, false)
  {
  }

  /** `raise_non_unique_error(retried)` as intended: the retries sentence only
      when the retries are exhausted. */
  function NotUniqueMessage(env: Env, id: string, uniquenessArgs: seq<Arg>, similarId: string, retried: bool): (r: string)
    ensures StartsWith(r, NotUniqueBase(env, id, uniquenessArgs, similarId))
    ensures retried <==> |r| > |NotUniqueBase(env, id, uniquenessArgs, similarId)|
    ensures retried ==> EndsWith(r, RetriedSentence)
  {
    NotUniqueBase(env, id, uniquenessArgs, similarId) + (if retried then RetriedSentence else "")
  }

  /** The error `raise_non_unique_error` raises, with its message as written. */
  function NotUnique(env: Env, id: string, uniquenessArgs: seq<Arg>, similarId: string, retried: bool): Exception
  {
    Exception(NotUniqueError(env.service), NotUniqueMessageAsWritten(env, id, uniquenessArgs, similarId, retried), [], None)
  }

  /** `@uniqueness_args`: the declared arguments, or the call arguments when none are given. */
  function UniquenessArgs(args: seq<Arg>, serviceArgs: seq<Arg>): seq<Arg>
  {
    if |args| == 0 then serviceArgs else args
  }

  /** The key one declaration with `args` derives, given the call arguments. */
  function DeclaredKey(env: Env, args: seq<Arg>, serviceArgs: seq<Arg>): string
  {
    UniquenessKey(env, UniquenessArgs(args, serviceArgs))
  }

  /** The branch of `check_uniqueness!` where another invocation, `similarId`,
      holds the key: what happens depends on `on_error`. */
  function KeyHeld(env: Env, st: State, serviceArgs: seq<Arg>, uniquenessArgs: seq<Arg>, similarId: string, policy: OnError)
    : (r: Step<bool>)
    // `fail` raises NotUniqueError and touches nothing; its message names the
    // invocation, the arguments and the holder, and (as written) claims ten retries
    ensures policy == Fail ==>
              r.outcome.Raised? && r.outcome.error.cls == NotUniqueError(env.service) && r.state == st
              && r.outcome.error.message == NotUniqueBase(env, st.inv.id, uniquenessArgs, similarId) + RetriedSentence
    // `ignore` returns false and touches nothing
    ensures policy == Ignore ==> r == Step(Returned(false), st)
    // `reschedule` with an exhausted counter raises NotUniqueError and touches nothing
    ensures policy == Reschedule && ErrorCount(env, serviceArgs, st.store) >= MaxRetries ==>
              r.outcome.Raised? && r.outcome.error.cls == NotUniqueError(env.service) && r.state == st
              && r.outcome.error.message == NotUniqueBase(env, st.inv.id, uniquenessArgs, similarId) + RetriedSentence
    // otherwise `reschedule` bumps the counter (TTL count^3 + 5 + one hour), schedules the
    // converted call arguments after (count + 1)^3 + 5 seconds, and returns false
    ensures policy == Reschedule && ErrorCount(env, serviceArgs, st.store) < MaxRetries ==>
              var n := ErrorCount(env, serviceArgs, st.store);
              r.state.inv == st.inv
              && r.state.store == st.store[ErrorCountKey(env, serviceArgs) := Entry(NatToString(n + 1), Backoff(n) + OneHour)]
              && ErrorCount(env, serviceArgs, r.state.store) == n + 1
              && (ConvertAll(env, serviceArgs).Success? ==>
                    r.outcome == Returned(false)
                    && r.state.scheduled == st.scheduled + [PerformIn(Backoff(n + 1), ConvertAll(env, serviceArgs).value)])
              && (ConvertAll(env, serviceArgs).Failure? ==>
                    r.outcome == Raised(ConvertAll(env, serviceArgs).error) && r.state.scheduled == st.scheduled)
  {
    match policy
    case Fail => Step(Raised(NotUnique(env, st.inv.id, uniquenessArgs, similarId, false)), st)
    case Ignore => Step(Returned(false), st)
    case Reschedule =>
      if ErrorCount(env, serviceArgs, st.store) >= MaxRetries then
        Step(Raised(NotUnique(env, st.inv.id, uniquenessArgs, similarId, true)), st)
      else
        var store' := IncreaseErrorCount(env, serviceArgs, st.store);
        match ConvertAll(env, serviceArgs)
        case Failure(e) => Step(Raised(e), st.(store := store'))
        case Success(rescheduleArgs) =>
          var event := PerformIn(RetryDelay(env, serviceArgs, store'), rescheduleArgs);
          Step(Returned(false), State(st.inv, store', st.scheduled + [event]))
  }

  /** `check_uniqueness!(*args, on_error:)` */
  function CheckUniqueness(env: Env, st: State, args: seq<Arg>, onError: string): (r: Step<bool>)
    // the id and call arguments never change
    ensures r.state.inv.id == st.inv.id && r.state.inv.serviceArgs == st.inv.serviceArgs
    // an unknown on_error raises before the store is read or written
    ensures ParseOnError(onError).None? ==> r.outcome.Raised? && r.outcome.error.cls == RuntimeError && r.state == st
    // outside `call` there are no service args to fall back on
    ensures st.inv.serviceArgs.None? ==> r.outcome.Raised? && r.outcome.error.cls == RuntimeError && r.state == st
    // declaring the same key twice in one invocation is a declaration error, not a conflict
    ensures ParseOnError(onError).Some? && st.inv.serviceArgs.Some?
            && DeclaredKey(env, args, st.inv.serviceArgs.value) in st.inv.uniquenessKeys ==>
              r.outcome.Raised? && r.outcome.error.cls == RuntimeError && r.state == st
    // a free key is taken: recorded, stored with the invocation id for an hour, and true is returned
    ensures ParseOnError(onError).Some? && st.inv.serviceArgs.Some?
            && DeclaredKey(env, args, st.inv.serviceArgs.value) !in st.inv.uniquenessKeys
            && DeclaredKey(env, args, st.inv.serviceArgs.value) !in st.store ==>
              var key := DeclaredKey(env, args, st.inv.serviceArgs.value);
              r.outcome == Returned(true)
              && r.state.inv.uniquenessKeys == st.inv.uniquenessKeys + [key]
              && r.state.store == st.store[key := Entry(st.inv.id, OneHour)]
              && r.state.scheduled == st.scheduled
    // a key another invocation holds is handled by the `on_error` policy, with that holder's id
    ensures ParseOnError(onError).Some? && st.inv.serviceArgs.Some?
            && DeclaredKey(env, args, st.inv.serviceArgs.value) !in st.inv.uniquenessKeys
            && DeclaredKey(env, args, st.inv.serviceArgs.value) in st.store ==>
              var sargs := st.inv.serviceArgs.value;
              var key := DeclaredKey(env, args, sargs);
              r == KeyHeld(env, st, sargs, UniquenessArgs(args, sargs), st.store[key].value, ParseOnError(onError).value)
  {
    match ParseOnError(onError)
    case None =>
      Step(Raised(Runtime("on_error must be one of fail, ignore, reschedule, but was " + onError)), st)
    case Some(policy) =>
      match st.inv.serviceArgs
      case None => Step(Raised(Runtime("Service args not found.")), st)
      case Some(serviceArgs) =>
        var uniquenessArgs := UniquenessArgs(args, serviceArgs);
        var key := UniquenessKey(env, uniquenessArgs);
        if key in st.inv.uniquenessKeys then
          Step(Raised(Runtime("A uniqueness key with args " + ArgsText(env, uniquenessArgs) + " already exists.")), st)
        else
          match Get(st.store, key)
          case Some(similarId) => KeyHeld(env, st, serviceArgs, uniquenessArgs, similarId, policy)
          case None =>
            var inv' := st.inv.(uniquenessKeys := st.inv.uniquenessKeys + [key]);
            Step(Returned(true), State(inv', SetEx(st.store, key, OneHour, st.inv.id), st.scheduled))
  }

  /** `get` then `setex` is not an atomic set-if-absent: two invocations whose
      lookups both run before either write both take the same free key. */
  lemma CheckThenSetAdmitsTwoOwners(env: Env, st1: State, st2: State, args: seq<Arg>)
    requires st1.store == st2.store && st1.inv.id != st2.inv.id
    requires st1.inv.serviceArgs == st2.inv.serviceArgs == Some(args) && |args| > 0
    requires st1.inv.uniquenessKeys == st2.inv.uniquenessKeys == []
    requires UniquenessKey(env, args) !in st1.store
    ensures CheckUniqueness(env, st1, [], "fail").outcome == Returned(true)
    ensures CheckUniqueness(env, st2, [], "fail").outcome == Returned(true)
  {
  }

  // ---------------------------------------------------------------------------
  // `call` and the release of everything taken

  /** One `check_uniqueness!` statement of a service's `call`; with `guard` the
      service returns early when the check answers false
      (`return unless check_uniqueness!(...)`). */
  datatype CheckCall = CheckCall(args: seq<Arg>, onError: string, guard: bool)

  /** A service's own `call`: its declarations in order, then its result. */
  datatype Work = Work(checks: seq<CheckCall>, finish: Outcome<Arg>)

  /** Run the declarations in order, stopping at the first exception or guarded false. */
  function RunChecks(env: Env, st: State, checks: seq<CheckCall>): (r: Step<bool>)
    ensures r.state.inv.id == st.inv.id && r.state.inv.serviceArgs == st.inv.serviceArgs
    decreases |checks|
  {
    if checks == [] then Step(Returned(true), st)
    else
      var c := checks[0];
      var s := CheckUniqueness(env, st, c.args, c.onError);
      match s.outcome
      case Raised(e) => Step(Raised(e), s.state)
      case Returned(ok) =>
        if !ok && c.guard then Step(Returned(false), s.state) else RunChecks(env, s.state, checks[1..])
  }

  /** The service's `call`: the declarations, then the result (nil after an early return). */
  function RunWork(env: Env, st: State, work: Work): (r: Step<Arg>)
    ensures r.state.inv.id == st.inv.id && r.state.inv.serviceArgs == st.inv.serviceArgs
  {
    var s := RunChecks(env, st, work.checks);
    match s.outcome
    case Raised(e) => Step(Raised(e), s.state)
    case Returned(completed) => Step(if completed then work.finish else Returned(NilArg), s.state)
  }

  /** The `ensure` clause of `call` as written: the recorded keys and the
      error-count key are deleted on every outcome. */
  function FinishAsWritten(env: Env, serviceArgs: seq<Arg>, st: State): Store
  {
    var afterKeys := if |st.inv.uniquenessKeys| == 0 then st.store else Del(st.store, st.inv.uniquenessKeys);
    Del(afterKeys, [ErrorCountKey(env, serviceArgs)])
  }

  /** The `ensure` clause as intended: the recorded keys are deleted on every
      outcome; the error counter is cleared only by an invocation that did not
      reschedule itself, so retries accumulate until they are exhausted. */
  function FinishCorrected(env: Env, serviceArgs: seq<Arg>, st: State): Store
  {
    var afterKeys := if |st.inv.uniquenessKeys| == 0 then st.store else Del(st.store, st.inv.uniquenessKeys);
    if |st.scheduled| == 0 then Del(afterKeys, [ErrorCountKey(env, serviceArgs)]) else afterKeys
  }

  /** A fresh invocation with id `id` (nothing recorded yet). */
  function Fresh(id: string): Invocation
  {
    Invocation(id, None, [])
  }

  /** `call(*args)` as written: record the arguments, run the service, release. */
  function CallAsWritten(env: Env, id: string, store: Store, args: seq<Arg>, work: Work): Step<Arg>
  {
    var s := RunWork(env, State(Fresh(id).(serviceArgs := Some(args)), store, []), work);
    Step(s.outcome, s.state.(store := FinishAsWritten(env, args, s.state)))
  }

  /** `call(*args)` with the intended release of the error counter. */
  function CallCorrected(env: Env, id: string, store: Store, args: seq<Arg>, work: Work): Step<Arg>
  {
    var s := RunWork(env, State(Fresh(id).(serviceArgs := Some(args)), store, []), work);
    Step(s.outcome, s.state.(store := FinishCorrected(env, args, s.state)))
  }

  /** What running the declarations keeps true, relative to the store `store0`
      the invocation started from: every recorded key was free in `store0` and
      is not the counter; every other key except the counter is as it was; the
      counter never decreases and has grown once the invocation rescheduled. */
  ghost predicate Tracks(env: Env, serviceArgs: seq<Arg>, store0: Store, st: State)
  {
    var errKey := ErrorCountKey(env, serviceArgs);
    && st.inv.serviceArgs == Some(serviceArgs)
    && (forall k :: k in st.inv.uniquenessKeys ==> k !in store0 && k != errKey)
    && (forall k :: k != errKey && k !in st.inv.uniquenessKeys ==> (k in st.store <==> k in store0))
    && (forall k :: k != errKey && k !in st.inv.uniquenessKeys && k in store0 ==> st.store[k] == store0[k])
    && ErrorCount(env, serviceArgs, st.store) >= ErrorCount(env, serviceArgs, store0)
    && (|st.scheduled| > 0 ==> ErrorCount(env, serviceArgs, st.store) > ErrorCount(env, serviceArgs, store0))
  }

  lemma CheckKeepsTracks(env: Env, serviceArgs: seq<Arg>, store0: Store, st: State, c: CheckCall)
    requires DigestWellFormed(env.digest) && ValidClassName(env.service)
    requires Tracks(env, serviceArgs, store0, st)
    ensures Tracks(env, serviceArgs, store0, CheckUniqueness(env, st, c.args, c.onError).state)
    ensures |CheckUniqueness(env, st, c.args, c.onError).state.scheduled| >= |st.scheduled|
  {
    UniquenessAndErrorKeysDisjoint(env, UniquenessArgs(c.args, serviceArgs), serviceArgs);
  }

  lemma {:induction false} RunChecksKeepsTracks(env: Env, serviceArgs: seq<Arg>, store0: Store, st: State, checks: seq<CheckCall>)
    requires DigestWellFormed(env.digest) && ValidClassName(env.service)
    requires Tracks(env, serviceArgs, store0, st)
    ensures Tracks(env, serviceArgs, store0, RunChecks(env, st, checks).state)
    decreases |checks|
  {
    if checks != [] {
      var c := checks[0];
      CheckKeepsTracks(env, serviceArgs, store0, st, c);
      var s := CheckUniqueness(env, st, c.args, c.onError);
      if s.outcome.Returned? && !(!s.outcome.value && c.guard) {
        RunChecksKeepsTracks(env, serviceArgs, store0, s.state, checks[1..]);
      }
    }
  }

  lemma RunWorkKeepsTracks(env: Env, args: seq<Arg>, id: string, store: Store, work: Work)
    requires DigestWellFormed(env.digest) && ValidClassName(env.service)
    ensures Tracks(env, args, store, RunWork(env, State(Fresh(id).(serviceArgs := Some(args)), store, []), work).state)
  {
    RunChecksKeepsTracks(env, args, store, State(Fresh(id).(serviceArgs := Some(args)), store, []), work.checks);
  }

  /** The intended release applied to a state that `Tracks` the start store. */
  lemma FinishReleases(env: Env, args: seq<Arg>, store0: Store, st: State)
    requires Tracks(env, args, store0, st)
    ensures var errKey := ErrorCountKey(env, args);
            var r := FinishCorrected(env, args, st);
            && (forall k :: k in st.inv.uniquenessKeys ==> k !in r)
            && r - {errKey} == store0 - {errKey}
            && (|st.scheduled| == 0 ==> errKey !in r)
            && (|st.scheduled| > 0 ==> ErrorCount(env, args, r) > ErrorCount(env, args, store0))
  {
    var errKey := ErrorCountKey(env, args);
    var r := FinishCorrected(env, args, st);
    var afterKeys := if |st.inv.uniquenessKeys| == 0 then st.store else Del(st.store, st.inv.uniquenessKeys);
    assert forall k :: k in afterKeys <==> k in st.store && k !in st.inv.uniquenessKeys;
    assert forall k :: k in afterKeys ==> afterKeys[k] == st.store[k];
    forall k | k != errKey
      ensures k in r <==> k in store0
      ensures k in store0 ==> r[k] == store0[k]
    {
    }
    assert r - {errKey} == store0 - {errKey};
    if |st.scheduled| > 0 {
      assert Get(r, errKey) == Get(st.store, errKey);
    }
  }

  /** With the corrected release: when `call` ends, on a return or an
      exception, no key it took is left and no key other than the error
      counter differs from the store it started from; an invocation that did
      not reschedule itself also clears the counter, and one that did leaves
      it higher than it found it. */
  lemma CallReleasesEverything(env: Env, id: string, store: Store, args: seq<Arg>, work: Work)
    requires DigestWellFormed(env.digest) && ValidClassName(env.service)
    ensures var r := CallCorrected(env, id, store, args, work);
            var errKey := ErrorCountKey(env, args);
            && (forall k :: k in r.state.inv.uniquenessKeys ==> k !in r.state.store)
            && r.state.store - {errKey} == store - {errKey}
            && (|r.state.scheduled| == 0 ==> errKey !in r.state.store)
            && (|r.state.scheduled| > 0 ==> ErrorCount(env, args, r.state.store) > ErrorCount(env, args, store))
  {
    RunWorkKeepsTracks(env, args, id, store, work);
    var s := RunWork(env, State(Fresh(id).(serviceArgs := Some(args)), store, []), work);
    FinishReleases(env, args, store, s.state);
  }

  /** The same release as written: the store ends exactly as it started minus the
      error counter, so a rescheduled invocation wipes the counter it has just
      increased and the next attempt reads 0 again. */
  lemma CallAsWrittenForgetsErrorCount(env: Env, id: string, store: Store, args: seq<Arg>, work: Work)
    requires DigestWellFormed(env.digest) && ValidClassName(env.service)
    ensures var r := CallAsWritten(env, id, store, args, work);
            && r.state.store == store - {ErrorCountKey(env, args)}
            && ErrorCount(env, args, r.state.store) == 0
  {
    RunWorkKeepsTracks(env, args, id, store, work);
    var r := CallAsWritten(env, id, store, args, work);
    var errKey := ErrorCountKey(env, args);
    forall k
      ensures k in r.state.store <==> k in store - {errKey}
      ensures k in r.state.store ==> r.state.store[k] == store[k]
    {
    }
  }

  // ---------------------------------------------------------------------------
  // Retrying a conflicting invocation

  /** A service whose `call` declares one rescheduling check on its call arguments. */
  function RescheduleWork(): Work
  {
    Work([CheckCall([], "reschedule", false)], Returned(NilArg))
  }

  /** One attempt of that service while another invocation holds its key. */
  lemma RetryAttempt(env: Env, id: string, store: Store, args: seq<Arg>)
    requires DigestWellFormed(env.digest) && ValidClassName(env.service)
    requires UniquenessKey(env, args) in store
    requires ConvertAll(env, args).Success?
    ensures var n := ErrorCount(env, args, store);
            var r := CallCorrected(env, id, store, args, RescheduleWork());
            && (n < MaxRetries ==>
                  && r.outcome == Returned(NilArg)
                  && r.state.scheduled == [PerformIn(Backoff(n + 1), ConvertAll(env, args).value)]
                  && ErrorCount(env, args, r.state.store) == n + 1
                  && UniquenessKey(env, args) in r.state.store)
            && (n >= MaxRetries ==> r.outcome.Raised? && r.outcome.error.cls == NotUniqueError(env.service))
    ensures ErrorCount(env, args, CallAsWritten(env, id, store, args, RescheduleWork()).state.store) == 0
  {
    var st0 := State(Fresh(id).(serviceArgs := Some(args)), store, []);
    var c := RescheduleWork().checks[0];
    assert DeclaredKey(env, c.args, args) == UniquenessKey(env, args);
    var s := CheckUniqueness(env, st0, c.args, c.onError);
    assert RunChecks(env, st0, RescheduleWork().checks) == (if s.outcome.Raised? then Step(Raised(s.outcome.error), s.state) else RunChecks(env, s.state, []));
    UniquenessAndErrorKeysDisjoint(env, args, args);
    CallAsWrittenForgetsErrorCount(env, id, store, args, RescheduleWork());
  }

  /** Attempts of the rescheduling service, one per id, while its key stays
      held, each released with the corrected `ensure`. */
  function Attempts(env: Env, ids: seq<string>, store: Store, args: seq<Arg>): Store
    decreases |ids|
  {
    if ids == [] then store
    else Attempts(env, ids[1..], CallCorrected(env, ids[0], store, args, RescheduleWork()).state.store, args)
  }

  /** With the intended release, every rescheduled attempt raises the counter by
      one, so after ten attempts from a clean counter the next one fails with
      NotUniqueError instead of rescheduling again. */
  lemma {:induction false} RetriesAccumulate(env: Env, ids: seq<string>, store: Store, args: seq<Arg>)
    requires DigestWellFormed(env.digest) && ValidClassName(env.service)
    requires UniquenessKey(env, args) in store
    requires ConvertAll(env, args).Success?
    requires ErrorCount(env, args, store) + |ids| <= MaxRetries
    ensures ErrorCount(env, args, Attempts(env, ids, store, args)) == ErrorCount(env, args, store) + |ids|
    ensures UniquenessKey(env, args) in Attempts(env, ids, store, args)
    decreases |ids|
  {
    if ids != [] {
      RetryAttempt(env, ids[0], store, args);
      RetriesAccumulate(env, ids[1..], CallCorrected(env, ids[0], store, args, RescheduleWork()).state.store, args);
    }
  }

  lemma RetriesExhaust(env: Env, ids: seq<string>, id: string, store: Store, args: seq<Arg>)
    requires DigestWellFormed(env.digest) && ValidClassName(env.service)
    requires UniquenessKey(env, args) in store
    requires ConvertAll(env, args).Success?
    requires ErrorCount(env, args, store) == 0 && |ids| == MaxRetries
    ensures CallCorrected(env, id, Attempts(env, ids, store, args), args, RescheduleWork()).outcome.Raised?
  {
    RetriesAccumulate(env, ids, store, args);
    RetryAttempt(env, id, Attempts(env, ids, store, args), args);
  }
}
