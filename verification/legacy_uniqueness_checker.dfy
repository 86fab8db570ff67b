/** The older uniqueness checker (lib/services/base/uniqueness_checker.rb).
    A service calls `check_uniqueness!` at most once per invocation; the key is
    derived from the unescaped class name and the MD5 digest of the arguments'
    `to_s`.  A key already present in Redis raises the service's
    `NotUniqueError`; a free key is written with a one-hour TTL and the
    current time as its value; `call` deletes the recorded key when it ends.

    As written, the key is recorded before the lookup, so an invocation that
    is refused deletes the key of the invocation that holds it.  The model
    keeps that behaviour (`CheckUniquenessAsWritten`) and a corrected
    `CheckUniqueness` that records the key only once it has been taken. */
module LegacyUniquenessChecker {
  import opened Values
  import opened Text
  import opened Errors
  import opened KeyValue

  const OneHour: nat := 60 * 60

  const AlreadyDefinedMessage: string :=
    "A variable named @uniqueness_key is already defined. Have you called `check_uniqueness!` twice?"

  /** The service's class name and the two functions of the environment the
      key depends on: `Digest::MD5.hexdigest` and `Array#to_s`. */
  datatype Env = Env(service: string, digest: string -> string, inspect: Arg -> string)

  /** What the model assumes of the digest: an MD5 hex digest is never empty
      and never contains a colon. */
  ghost predicate DigestWellFormed(digest: string -> string)
  {
    forall s :: |digest(s)| > 0 && ':' !in digest(s)
  }

  /** Without arguments, `method(__method__).parameters` names the one rest
      parameter, and evaluating it yields the empty argument list itself: the
      arguments become `[[]]`. */
  function KeyArgs(args: seq<Arg>): (r: seq<Arg>)
    ensures |r| >= 1
    ensures args != [] ==> r == args
  {
    if args == [] then [ArrayArg([])] else args
  }

  function DigestOf(env: Env, args: seq<Arg>): string
  {
    env.digest(env.inspect(ArrayArg(args)))
  }

  /** `['services', 'uniqueness', self.class.to_s, digest].join(':')`; the class
      name is not escaped. */
  function UniquenessKey(env: Env, args: seq<Arg>): string
  {
    Join(["services", "uniqueness", env.service, DigestOf(env, args)], ":")
  }

  // ---------------------------------------------------------------------------
  // Reading a key back

  /** The text after the last colon (all of `s` when it has none). */
  function AfterLastColon(s: string): (r: string)
    ensures |r| <= |s| && ':' !in r
    decreases |s|
  {
    if s == [] then []
    else if s[|s| - 1] == ':' then []
    else AfterLastColon(s[..|s| - 1]) + [s[|s| - 1]]
  }

  lemma {:induction false} AfterLastColonOf(s: string, d: string)
    requires ':' !in d
    ensures AfterLastColon(s + ":" + d) == d
    decreases |d|
  {
    var x := s + ":" + d;
    if d == [] {
      assert x[|x| - 1] == ':';
    } else {
      var d' := d[..|d| - 1];
      assert x[..|x| - 1] == s + ":" + d';
      assert x[|x| - 1] == d[|d| - 1];
      AfterLastColonOf(s, d');
      assert d' + [d[|d| - 1]] == d;
    }
  }

  const KeyPrefix: string := "services:uniqueness:"

  /** The class name and digest a key was built from: what follows the fixed
      prefix, split at the last colon. */
  function ParseUniquenessKey(key: string): Option<(string, string)>
  {
    var d := AfterLastColon(key);
    if StartsWith(key, KeyPrefix) && |KeyPrefix| + |d| + 1 <= |key| then
      Some((key[|KeyPrefix|..|key| - |d| - 1], d))
    else None
  }

  lemma UniquenessKeyText(env: Env, args: seq<Arg>)
    ensures UniquenessKey(env, args) == KeyPrefix + env.service + ":" + DigestOf(env, args)
  {
    var c, d := env.service, DigestOf(env, args);
    assert ["services", "uniqueness", c, d] == ["services"] + ["uniqueness", c, d];
    assert ["uniqueness", c, d] == ["uniqueness"] + [c, d];
    assert [c, d] == [c] + [d];
    JoinCons("services", ["uniqueness", c, d], ":");
    JoinCons("uniqueness", [c, d], ":");
    JoinCons(c, [d], ":");
  }

  /** The class name and the digest can be read back from a key. */
  lemma UniquenessKeyRoundTrip(env: Env, args: seq<Arg>)
    requires DigestWellFormed(env.digest)
    ensures ParseUniquenessKey(UniquenessKey(env, args)) == Some((env.service, DigestOf(env, args)))
  {
    var c, d := env.service, DigestOf(env, args);
    var key := UniquenessKey(env, args);
    UniquenessKeyText(env, args);
    assert key == KeyPrefix + c + ":" + d;
    assert KeyPrefix + c + ":" + d == (KeyPrefix + c) + ":" + d;
    AfterLastColonOf(KeyPrefix + c, d);
    assert key[..|KeyPrefix|] == KeyPrefix;
    assert key[|KeyPrefix|..|key| - |d| - 1] == c;
  }

  /** Two keys are equal only when the class names and the digests are: unlike
      the current checker, `A::B` and `A__B` get different keys. */
  lemma UniquenessKeyDetermines(env1: Env, args1: seq<Arg>, env2: Env, args2: seq<Arg>)
    requires DigestWellFormed(env1.digest) && DigestWellFormed(env2.digest)
    requires UniquenessKey(env1, args1) == UniquenessKey(env2, args2)
    ensures env1.service == env2.service && DigestOf(env1, args1) == DigestOf(env2, args2)
  {
    UniquenessKeyRoundTrip(env1, args1);
    UniquenessKeyRoundTrip(env2, args2);
  }

  // ---------------------------------------------------------------------------
  // `check_uniqueness!`

  /** The outcome of a step, the recorded `@uniqueness_key`, and Redis. */
  datatype Step<+T> = Step(outcome: Outcome<T>, key: Option<string>, store: Store)

  /** `raise self.class::NotUniqueError`: raising the class uses its name as the message. */
  function NotUnique(env: Env): Exception
  {
    Exception(NotUniqueError(env.service), ClassName(NotUniqueError(env.service)), [], None)
  }

  /** `check_uniqueness!(*args)` as written: `now` is `Time.now` rendered as a
      string, and the value returned is the reply to `SETEX`. */
  function CheckUniquenessAsWritten(env: Env, key: Option<string>, store: Store, args: seq<Arg>, now: string): (r: Step<string>)
    // a second call in the same invocation raises and changes nothing
    ensures key.Some? ==> r == Step(Raised(Runtime(AlreadyDefinedMessage)), key, store)
    // otherwise the key is recorded whatever happens next
    ensures key.None? ==> r.key == Some(UniquenessKey(env, KeyArgs(args)))
    // a taken key raises the service's NotUniqueError and writes nothing
    ensures key.None? ==> (r.outcome.Raised? <==> UniquenessKey(env, KeyArgs(args)) in store)
    ensures key.None? && r.outcome.Raised? ==> r.outcome.error == NotUnique(env) && r.store == store
    // a free key is taken for an hour, holding the time it was taken
    ensures key.None? && r.outcome.Returned? ==>
              r.store == store[UniquenessKey(env, KeyArgs(args)) := Entry(now, OneHour)]
  {
    if key.Some? then Step(Raised(Runtime(AlreadyDefinedMessage)), key, store)
    else
      var k := UniquenessKey(env, KeyArgs(args));
      if k in store then Step(Raised(NotUnique(env)), Some(k), store)
      else Step(Returned("OK"), Some(k), SetEx(store, k, OneHour, now))
  }

  /** `check_uniqueness!` with the key recorded only once it has been taken,
      so that `call` releases only what this invocation holds. */
  function CheckUniqueness(env: Env, key: Option<string>, store: Store, args: seq<Arg>, now: string): (r: Step<string>)
    ensures key.Some? ==> r == Step(Raised(Runtime(AlreadyDefinedMessage)), key, store)
    ensures key.None? ==> (r.outcome.Raised? <==> UniquenessKey(env, KeyArgs(args)) in store)
    // a refused invocation records nothing
    ensures key.None? && r.outcome.Raised? ==> r == Step(Raised(NotUnique(env)), None, store)
    ensures key.None? && r.outcome.Returned? ==>
              r.key == Some(UniquenessKey(env, KeyArgs(args)))
              && r.store == store[UniquenessKey(env, KeyArgs(args)) := Entry(now, OneHour)]
  {
    if key.Some? then Step(Raised(Runtime(AlreadyDefinedMessage)), key, store)
    else
      var k := UniquenessKey(env, KeyArgs(args));
      if k in store then Step(Raised(NotUnique(env)), None, store)
      else Step(Returned("OK"), Some(k), SetEx(store, k, OneHour, now))
  }

  /** Calling without arguments is calling with one empty array. */
  lemma NoArgumentsIsOneEmptyArray(env: Env, store: Store, now: string)
    ensures CheckUniqueness(env, None, store, [], now) == CheckUniqueness(env, None, store, [ArrayArg([])], now)
    ensures CheckUniquenessAsWritten(env, None, store, [], now) == CheckUniquenessAsWritten(env, None, store, [ArrayArg([])], now)
  {
  }

  /** The two variants differ only in what a refused invocation records. */
  lemma VariantsAgreeExceptOnConflict(env: Env, key: Option<string>, store: Store, args: seq<Arg>, now: string)
    ensures CheckUniquenessAsWritten(env, key, store, args, now).outcome == CheckUniqueness(env, key, store, args, now).outcome
    ensures CheckUniquenessAsWritten(env, key, store, args, now).store == CheckUniqueness(env, key, store, args, now).store
    ensures CheckUniqueness(env, key, store, args, now).outcome.Returned? ==>
              CheckUniquenessAsWritten(env, key, store, args, now) == CheckUniqueness(env, key, store, args, now)
  {
  }

  // ---------------------------------------------------------------------------
  // `call` and its `ensure`

  /** A service's own `call`: the argument lists of its `check_uniqueness!`
      statements in order, then its result. */
  datatype Work = Work(checks: seq<seq<Arg>>, finish: Outcome<Arg>)

  function Check(asWritten: bool, env: Env, key: Option<string>, store: Store, args: seq<Arg>, now: string): Step<string>
  {
    if asWritten then CheckUniquenessAsWritten(env, key, store, args, now) else CheckUniqueness(env, key, store, args, now)
  }

  /** Run the statements in order, stopping at the first exception. */
  function RunWork(asWritten: bool, env: Env, key: Option<string>, store: Store, work: Work, now: string): (r: Step<Arg>)
    // a key once recorded stays recorded
    ensures key.Some? ==> r.key == key
    decreases |work.checks|
  {
    if work.checks == [] then Step(work.finish, key, store)
    else
      var s := Check(asWritten, env, key, store, work.checks[0], now);
      match s.outcome
      case Raised(e) => Step(Raised(e), s.key, s.store)
      case Returned(_) => RunWork(asWritten, env, s.key, s.store, work.(checks := work.checks[1..]), now)
  }

  /** `call(*args)`: run the service, then delete the recorded key if any. */
  function Call(asWritten: bool, env: Env, store: Store, work: Work, now: string): (r: Step<Arg>)
    // nothing stays recorded once the invocation is over
    ensures r.key.Some? ==> r.key.value !in r.store
  {
    var s := RunWork(asWritten, env, None, store, work, now);
    var released := match s.key
      case Some(k) => Del(s.store, [k])
      case None => s.store;
    Step(s.outcome, s.key, released)
  }

  /** What the corrected checker guarantees: every statement that takes a key
      records it, and every key it records was free and is now held. */
  lemma RunWorkHoldsOnlyItsOwnKey(env: Env, store: Store, work: Work, now: string)
    ensures var r := RunWork(false, env, None, store, work, now);
            (r.key.None? ==> r.store == store)
            && (r.key.Some? ==> r.key.value !in store && r.store == store[r.key.value := Entry(now, OneHour)])
  {
    if work.checks != [] {
      var s := CheckUniqueness(env, None, store, work.checks[0], now);
      if s.outcome.Returned? {
        RunWorkAfterTaking(env, s.key.value, s.store, work.(checks := work.checks[1..]), now);
      }
    }
  }

  /** Once a key is recorded, every further statement raises and changes nothing. */
  lemma {:induction false} RunWorkAfterTaking(env: Env, k: string, store: Store, work: Work, now: string)
    ensures RunWork(false, env, Some(k), store, work, now).store == store
    ensures RunWork(false, env, Some(k), store, work, now).key == Some(k)
    ensures work.checks != [] ==> RunWork(false, env, Some(k), store, work, now).outcome == Raised(Runtime(AlreadyDefinedMessage))
  {
  }

  /** With the correction, a sequential invocation leaves Redis exactly as it
      found it: the key it took, if any, is the key it deletes. */
  lemma CallRestoresStore(env: Env, store: Store, work: Work, now: string)
    ensures Call(false, env, store, work, now).store == store
  {
    RunWorkHoldsOnlyItsOwnKey(env, store, work, now);
  }

  /** While one invocation holds the key, another one with the same class and
      arguments is refused. */
  lemma HeldKeyRefusesSecond(env: Env, store: Store, args: seq<Arg>, now1: string, now2: string)
    requires UniquenessKey(env, KeyArgs(args)) !in store
    ensures var first := CheckUniqueness(env, None, store, args, now1);
            first.outcome.Returned?
            && CheckUniqueness(env, None, first.store, args, now2).outcome == Raised(NotUnique(env))
  {
  }

  /** As written, an invocation refused because another one holds the key
      deletes that key when it ends: a third invocation then gets in while the
      first is still running. */
  lemma ConflictDeletesOthersLock(env: Env, store: Store, args: seq<Arg>, now: string)
    requires UniquenessKey(env, KeyArgs(args)) in store
    ensures var r := Call(true, env, store, Work([args], Returned(NilArg)), now);
            r.outcome == Raised(NotUnique(env))
            && UniquenessKey(env, KeyArgs(args)) !in r.store
            && CheckUniqueness(env, None, r.store, args, now).outcome.Returned?
  {
  }

  /** With the correction, a refused invocation leaves the holder's key alone,
      so a third invocation is refused too. */
  lemma ConflictKeepsOthersLock(env: Env, store: Store, args: seq<Arg>, now: string)
    requires UniquenessKey(env, KeyArgs(args)) in store
    ensures var r := Call(false, env, store, Work([args], Returned(NilArg)), now);
            r.outcome == Raised(NotUnique(env))
            && r.store == store
            && CheckUniqueness(env, None, r.store, args, now).outcome == Raised(NotUnique(env))
  {
  }
}
