# services: a Dafny model of the service-invocation pipeline

The Ruby `services` gem wraps every service object in three prepended layers:

- a call logger (`START` / `CALLED BY` / `END`, plus the exception and its cause chain);
- an exception wrapper, which turns foreign StandardErrors into the service's own `Error`;
- a uniqueness checker, which takes Redis keys derived from the service class and its arguments and resolves conflicts by a `fail`, `ignore` or `reschedule` policy.

Around this pipeline the gem offers:

- id/record helpers on `Services::Base`;
- a Redis-backed log list;
- `Services::Query`, which normalises arguments and conditions into an ActiveRecord scope.

The model states these as pure functions over immutable data:

- **Arguments.** Ruby argument values are the `Values.Arg` datatype.
- **Exceptions.** They are `Errors.Exception` records with a class from a small inheritance tree (`Errors.ErrorClass`) and a cause chain. A call's outcome is `Returned(value)` or `Raised(exception)`.
- **Redis.** A map from key to `(value, ttl)` stands for Redis (`KeyValue.Store`). A TTL is recorded, never counted down. The log list is a sequence, head first.
- **Environment.** MD5, `#inspect`/`#to_s`, `String#pluralize`, the find service and a query subclass's `process` hook are function-valued parameters. The digest is assumed to be non-empty and colon-free (`DigestWellFormed`).
- **The invocation.** The uniqueness checker's instance variables are an `Invocation` record threaded through a `State`, together with the store and the `perform_in` requests it emitted.
- **Query scopes.** A query scope is the list of operations applied to a base relation, not SQL.

One module per source component:

| module | models |
|---|---|
| `UniquenessChecker` | lib/services/modules/uniqueness_checker.rb |
| `LegacyUniquenessChecker` | lib/services/base/uniqueness_checker.rb |
| `ExceptionWrapper` | lib/services/modules/exception_wrapper.rb |
| `CallLogger` | lib/services/modules/call_logger.rb |
| `LegacyCallLogger` | lib/services/base/call_logger.rb |
| `ServiceBase` | lib/services/base.rb |
| `RedisLogger` | lib/services/logger/redis.rb |
| `Query` | lib/services/query.rb |
| `Pipeline` | the three layers composed as lib/services/base.rb:18 prepends them |

`Values`, `Text`, `Errors` and `KeyValue` are shared foundations. `Text` holds:

- decimal rendering with `to_i`;
- hex rendering;
- `join`;
- a split that keeps empty fields.

The model follows the code as written. Where the code looks wrong (see "## Findings"), the as-written behaviour is what the rest of the model uses, including `Pipeline.Invoke`. Beside it stands a corrected variant whose intended property is proved: `UniquenessChecker.CallCorrected`, `UniquenessChecker.NotUniqueMessage`, `ServiceBase.MissingMessage` and the corrected mode of `LegacyUniquenessChecker.Call`.

Where the code and the gem's description disagree, the model follows the code:

- **Retry timing.** The description gives the retry delay as `n³+5` for error count `n`, with a TTL of that delay plus one day. The code writes the counter with TTL `n³+5+3600` and then schedules after `(n+1)³+5`, because `retry_delay` re-reads the counter it has just increased.
- **Acquiring a key.** The description calls acquisition an atomic set-if-absent. The code does a `GET` followed by a `SETEX`; `UniquenessChecker.CheckThenSetAdmitsTwoOwners` shows two interleaved invocations both taking the same key.

## Model

| member | source | states |
|---|---|---|
| Text.ToIOfNatToString | lib/services/modules/uniqueness_checker.rb:89-95 | the error counter written as decimal text reads back through `to_i` as the same number |
| Errors.NotUniqueErrorFamily | lib/services/modules/uniqueness_checker.rb:18-20 | `S::NotUniqueError` is a StandardError in `S`'s error family and in no other service's |
| Errors.FamilyIsStandard | lib/services/modules/exception_wrapper.rb:6-8 | every class in a service's error family is a StandardError, so the `rescue StandardError` clause sees it |
| ExceptionWrapper.Wrap | lib/services/modules/exception_wrapper.rb:4-12 | values pass through; non-StandardErrors and the service's own error family are re-raised unchanged; any other StandardError becomes `S::Error` with the same message and the original as cause; only the service's family escapes as a StandardError |
| ExceptionWrapper.WrapIdempotent | lib/services/modules/exception_wrapper.rb:4-12 | wrapping an already wrapped outcome changes nothing |
| ExceptionWrapper.WrapExtendsChain | lib/services/modules/exception_wrapper.rb:10 | a wrapped error's cause chain is the new error followed by the original's whole chain |
| CallLogger.LogCall | lib/services/modules/call_logger.rb:4-17 | the outcome passes unchanged; START then CALLED BY come first; the inner lines follow in order; a StandardError's log comes next, header first; END is last on every outcome; nothing else is logged |
| CallLogger.ExceptionLog | lib/services/modules/call_logger.rb:26-38 | the exception log starts with the header `Class: message` (prefixed `caused by: ` for a cause) |
| CallLogger.ExceptionLogFollowsChain | lib/services/modules/call_logger.rb:26-38 | the log is one block per exception of the cause chain; every header after the first says `caused by: `; an exception with a cause logs at most five backtrace lines; the last one logs all of them |
| CallLogger.CallerText | lib/services/modules/call_logger.rb:40-45 | the caller is `path:lineno`; with Rails defined, a leading `<Rails.root>/` and nothing else is removed |
| LegacyCallLogger.ErrorLines | lib/services/base/call_logger.rb:9-12 | an error logs `Class: message` and then every backtrace line in order |
| LegacyCallLogger.LogCall | lib/services/base/call_logger.rb:4-19 | `START with args:` comes first and END last; the outcome passes unchanged; a StandardError's lines sit between the inner lines and END |
| UniquenessChecker.ParseOnError | lib/services/modules/uniqueness_checker.rb:9-13 | exactly `fail`, `ignore` and `reschedule` are accepted, each as its own policy |
| UniquenessChecker.EscapeClassName | lib/services/modules/uniqueness_checker.rb:100 | the escaped class name has no colon, the same length, and every other character in place |
| UniquenessChecker.UniquenessKeyRoundTrip | lib/services/modules/uniqueness_checker.rb:97-104 | the key reads back as the escaped class name plus the digest of the arguments; there is no digest segment exactly when the arguments are empty |
| UniquenessChecker.UniquenessKeyDetermines | lib/services/modules/uniqueness_checker.rb:97-104 | equal keys mean equal escaped class names and equal digests; an empty-argument key never equals a key with arguments |
| UniquenessChecker.EscapingMergesClassNames | lib/services/modules/uniqueness_checker.rb:100 | `A::B` and `A__B` are different classes with the same uniqueness keys |
| UniquenessChecker.UniquenessAndErrorKeysDisjoint | lib/services/modules/uniqueness_checker.rb:97-114 | a uniqueness key is never the error-count key of the same class |
| UniquenessChecker.BackoffIncreasing | lib/services/modules/uniqueness_checker.rb:116-118 | the retry delay grows strictly with the error count |
| UniquenessChecker.IncreaseErrorCount | lib/services/modules/uniqueness_checker.rb:93-95 | the counter goes up by exactly one; its TTL is the delay for the old count plus an hour; no other key changes |
| UniquenessChecker.Convert | lib/services/modules/uniqueness_checker.rb:65-78 | conversion succeeds exactly on integers, strings, booleans, nil, object-class records and arrays of these; the result is plain; arrays keep their length; records become their id; primitives are unchanged; anything else raises a RuntimeError |
| UniquenessChecker.ConvertAll | lib/services/modules/uniqueness_checker.rb:82-84 | the arguments are converted element by element, keeping length and order; it fails exactly when some argument cannot be converted |
| UniquenessChecker.ConvertPlainIsIdentity | lib/services/modules/uniqueness_checker.rb:65-78 | converting an already converted value returns it unchanged |
| UniquenessChecker.NotUniqueMessageAsWrittenClaimsRetries | lib/services/modules/uniqueness_checker.rb:59-63 | as written, the message of a plain `fail` conflict claims ten retries |
| UniquenessChecker.NotUniqueMessage | lib/services/modules/uniqueness_checker.rb:59-63 | the corrected message carries the retries sentence exactly when `retried` is set |
| UniquenessChecker.CheckUniqueness | lib/services/modules/uniqueness_checker.rb:22-47 | a bad `on_error`, missing service args or a key declared twice raise a RuntimeError and touch nothing; a free key is recorded, stored for an hour with the invocation id, and answers true; a key another invocation holds is handled by `KeyHeld`, with the holder's id |
| UniquenessChecker.KeyHeld | lib/services/modules/uniqueness_checker.rb:28-40 | `fail` raises NotUniqueError, changes nothing, and (as written) its message names the invocation, arguments and holder and then claims ten retries; `ignore` answers false and changes nothing; `reschedule` with ten errors counted raises NotUniqueError with the same message; below ten it raises the counter to `n+1` with a TTL of `n³+5` seconds plus an hour, schedules the converted call arguments after `(n+1)³+5` seconds and answers false, or raises the conversion error with the counter already raised |
| UniquenessChecker.CheckThenSetAdmitsTwoOwners | lib/services/modules/uniqueness_checker.rb:28-44 | two invocations whose lookups both precede either write both take the same free key |
| UniquenessChecker.CallReleasesEverything | lib/services/modules/uniqueness_checker.rb:49-55 | with the corrected release (`CallCorrected`, not the program's): on every outcome the keys taken are gone and no other key except the counter differs from the start; the counter is cleared unless the invocation rescheduled itself, and then it is higher than before |
| UniquenessChecker.CallAsWrittenForgetsErrorCount | lib/services/modules/uniqueness_checker.rb:52-55 | as written, the store ends as it started minus the error counter, so the counter always reads 0 afterwards |
| UniquenessChecker.RetryAttempt | lib/services/modules/uniqueness_checker.rb:32-38 | with the corrected release, an attempt against a held key reschedules with delay `(n+1)³+5` and raises the counter to `n+1` while `n < 10`, and raises NotUniqueError once `n >= 10`; as written the counter is 0 again afterwards |
| UniquenessChecker.RetriesAccumulate | lib/services/modules/uniqueness_checker.rb:33-36 | with the corrected release, k rescheduled attempts raise the counter by exactly k |
| UniquenessChecker.RetriesExhaust | lib/services/modules/uniqueness_checker.rb:33-34 | with the corrected release, after ten rescheduled attempts from a clean counter the next attempt raises |
| LegacyUniquenessChecker.KeyArgs | lib/services/base/uniqueness_checker.rb:10 | explicit arguments are used as given; no arguments become one empty array |
| LegacyUniquenessChecker.UniquenessKeyText | lib/services/base/uniqueness_checker.rb:27-34 | the key is `services:uniqueness:<class>:<digest>`, with the digest present even for empty arguments and the class name unescaped |
| LegacyUniquenessChecker.UniquenessKeyRoundTrip | lib/services/base/uniqueness_checker.rb:27-34 | class name and digest read back from the key |
| LegacyUniquenessChecker.UniquenessKeyDetermines | lib/services/base/uniqueness_checker.rb:27-34 | equal keys mean the same class name and the same digest |
| LegacyUniquenessChecker.CheckUniquenessAsWritten | lib/services/base/uniqueness_checker.rb:8-17 | a second check raises and changes nothing; otherwise the key is recorded in every case; a held key raises NotUniqueError and writes nothing; a free key is written for an hour with the time |
| LegacyUniquenessChecker.CheckUniqueness | lib/services/base/uniqueness_checker.rb:8-17 | the same, except that a refused check records no key |
| LegacyUniquenessChecker.NoArgumentsIsOneEmptyArray | lib/services/base/uniqueness_checker.rb:10 | checking with no arguments is checking with one empty array |
| LegacyUniquenessChecker.VariantsAgreeExceptOnConflict | lib/services/base/uniqueness_checker.rb:11-16 | both variants give the same outcome and store, and agree entirely whenever the check succeeds |
| LegacyUniquenessChecker.RunWork | lib/services/base/uniqueness_checker.rb:9 | a recorded key stays recorded for the rest of the invocation |
| LegacyUniquenessChecker.Call | lib/services/base/uniqueness_checker.rb:19-23 | when `call` ends, the recorded key is absent from the store |
| LegacyUniquenessChecker.RunWorkHoldsOnlyItsOwnKey | lib/services/base/uniqueness_checker.rb:8-17 | with the correction, the store changes only by the one key taken, which was free |
| LegacyUniquenessChecker.RunWorkAfterTaking | lib/services/base/uniqueness_checker.rb:9 | after a key is recorded, any further check raises and changes nothing |
| LegacyUniquenessChecker.CallRestoresStore | lib/services/base/uniqueness_checker.rb:19-23 | with the correction, a sequential invocation leaves the store exactly as it found it |
| LegacyUniquenessChecker.HeldKeyRefusesSecond | lib/services/base/uniqueness_checker.rb:12-13 | while one invocation holds the key, a second with the same class and arguments raises NotUniqueError |
| LegacyUniquenessChecker.ConflictDeletesOthersLock | lib/services/base/uniqueness_checker.rb:19-23 | as written, a refused invocation deletes the holder's key, so a third invocation gets in |
| LegacyUniquenessChecker.ConflictKeepsOthersLock | lib/services/base/uniqueness_checker.rb:19-23 | with the correction, the holder's key survives and a third invocation is refused too |
| ServiceBase.PrependKeepsArgumentOrder | lib/services/base.rb:18 | `prepend A, B, C` puts A, B, C in argument order in front of the ancestors |
| ServiceBase.Inherited | lib/services/base.rb:11-19 | `call` resolves through CallLogger, ExceptionWrapper, UniquenessChecker, then the class; `S::Error` is a StandardError of the service's own family; `S::NotUniqueError` is a distinct subclass of it |
| ServiceBase.ErrorsAreOwnedByOneService | lib/services/base.rb:12 | two services never share an `Error` class, and neither's errors are in the other's family |
| ServiceBase.NewId | lib/services/base.rb:24-26 | the id is 12 hex digits, and it decodes to exactly the six random bytes |
| ServiceBase.PartitionCount | lib/services/base.rb:38-45 | the integers and records together are never more than the elements, and equal them exactly when every element is one or the other |
| ServiceBase.SplitIdsAndObjects | lib/services/base.rb:38-45 | it succeeds exactly when every element is an Integer or a record of the class; each element then lands in exactly one list, order kept; otherwise it raises the listing message |
| ServiceBase.FindIds | lib/services/base.rb:47-51 | the integer ids, then the ids of the given records, each group in order; the split's error otherwise |
| ServiceBase.Minus | lib/services/base.rb:72 | the result holds exactly the ids of the first list that are not in the second |
| ServiceBase.MinusEmpty | lib/services/base.rb:72-73 | nothing is missing exactly when every id was found |
| ServiceBase.MissingMessageAsWrittenPluralizesOne | lib/services/base.rb:73 | as written, one missing id is reported under the plural class name, so for any class whose plural is not its own name the message differs from the singular one |
| ServiceBase.MissingMessage | lib/services/base.rb:73 | corrected: singular class name for one missing id, plural otherwise |
| ServiceBase.FindObjects | lib/services/base.rb:63-77 | records alone come back in order without consulting the finder; with ids, it raises the service's Error exactly when some id was not found, naming the missing ids under the plural class name as written; otherwise it returns the given records followed by the found ones |
| ServiceBase.FinderOnlyConsultedForIds | lib/services/base.rb:65-66 | without ids the finder is irrelevant to the result |
| ServiceBase.ExactlyOne | lib/services/base.rb:79-85 | it returns a value exactly when there is one result, and that result is the value; otherwise it raises with the count |
| ServiceBase.FindIdOfOne | lib/services/base.rb:79-85 | a single id, or a single record of the class, is found as its id |
| RedisLogger.AnyInvalidMeans | lib/services/logger/redis.rb:55-63 | the search finds an offender exactly when some element is not a nil, boolean, Symbol, String or Numeric |
| RedisLogger.MetaIncludesInvalidValuesMeans | lib/services/logger/redis.rb:55-63 | meta is rejected exactly when some key or some value is not a simple value |
| RedisLogger.Log | lib/services/logger/redis.rb:19-30 | invalid meta raises InvalidMetaError and pushes nothing; otherwise exactly one entry, with message and severity as strings, goes in front and the answer is the new length |
| RedisLogger.Clear | lib/services/logger/redis.rb:40-45 | it answers what `fetch` would answer and leaves the list empty |
| RedisLogger.FetchIsNewestFirst | lib/services/logger/redis.rb:36-38 | after any history of calls, `fetch` is the reverse of the entries successfully logged since the last `clear` |
| RedisLogger.SizeCountsLogsSinceClear | lib/services/logger/redis.rb:32-34 | `size` is the number of successful `log` calls since the last `clear` |
| RedisLogger.NewestEntryFirst | lib/services/logger/redis.rb:23-29 | the first entry fetched is the one logged last |
| Query.SplitArguments | lib/services/query.rb:21-32 | conditions in both arguments, or nil ids, raise ArgumentError; a Hash first gives no ids; anything else becomes `Array(ids)` with the second argument as the conditions |
| Query.WithDefaultOrder | lib/services/query.rb:34-38 | without `:order`, it is added last as `<table>.id`; an existing order, even nil, is kept |
| Query.IdsOf | lib/services/query.rb:48-55 | arrays of records give their ids in order; a record gives its id; anything else raises NoMethodError |
| Query.IdCondition | lib/services/query.rb:56 | one id is stored as a scalar, any other number of ids as the list |
| Query.ConvertObjects | lib/services/query.rb:45-58 | conditions under keys the conversion does not touch are kept |
| Query.OneRecordBecomesScalarId | lib/services/query.rb:46-57 | a single record under a converted name becomes `<name>_id` holding its id |
| Query.TableNameOfPrefixed | lib/services/query.rb:84 | a part that starts with a table name and a dot names that table |
| Query.FindReflection | lib/services/query.rb:87 | it finds a reflection on that table exactly when one exists, and what it finds is the first one |
| Query.RewritePart | lib/services/query.rb:84-103 | an unprefixed part gets `<table>.`; the own table is kept; another table is kept and joined through the first reflection on it, and raises exactly when there is none |
| Query.RewriteParts | lib/services/query.rb:83-104 | when the rewrite succeeds there is one rewritten part per split part, each the rewrite of the part at the same position |
| Query.RewritePartsRaises | lib/services/query.rb:83-104 | a rewrite fails exactly when one of its parts names a foreign table with no reflection |
| Query.SplitOrderShaped | lib/services/query.rb:83 | split parts contain no comma, and no part before a comma ends in whitespace |
| Query.SplitOrderJoin | lib/services/query.rb:83-104 | splitting a `, `-join of rewritten parts gives the parts back |
| Query.RewriteOrderIdempotent | lib/services/query.rb:83-104 | rewriting an already rewritten order clause gives the same clause and the same joins |
| Query.ApplyCondition | lib/services/query.rb:73-116 | unknown keys raise ArgumentError; `created_before`/`created_after` compare `<table>.created_at` with `<`/`>`; a nil or false order adds nothing; a string order adds its joins and then `ORDER BY` the rewritten clause; earlier operations are kept |
| Query.UnknownConditionRaises | lib/services/query.rb:113-114 | a query succeeds only if every remaining condition is one it knows |
| Query.RunProcess | lib/services/query.rb:60-65 | conditions the hook handled are removed and no new ones appear |
| Query.RunProcessDeclined | lib/services/query.rb:60-65 | a hook that declines every condition leaves the scope and the conditions as they were |
| Query.Call | lib/services/query.rb:21-32 | argument errors are raised before anything else, and a query succeeds only when its arguments are valid |
| Query.CallStartsFromScopeAndIds | lib/services/query.rb:34-43 | when the `process` hook declines every condition, a successful query starts from the truthy `:scope` condition or else all records, and restricts it to the ids first exactly when some id is truthy |
| Query.CallRejectsUnknownConditions | lib/services/query.rb:45-116 | when the `process` hook declines every condition, a query succeeds only if every condition given, other than `:scope` and the converted record names, is one the query knows |
| Query.ApplyConditionsExtends | lib/services/query.rb:73-118 | the final dispatch keeps the starting relation and only appends operations to it |
| Query.OwnIdOrderKept | lib/services/query.rb:83-104 | the default order `<table>.id` is rewritten to itself, with no joins |
| Query.IdsAloneOrderedById | lib/services/query.rb:34-43 | ids alone give the records with those ids, ordered by `<table>.id` |
| Pipeline.Invoke | lib/services/base.rb:18 | the composed layers log START and CALLED BY first and END last; a value returns exactly when the inner layers returned it; only the service's own error family escapes as a StandardError, and it is logged first; the store and reschedulings are those of the checker's `call` with its `ensure` as written |
| Pipeline.NotUniqueReachesCaller | lib/services/modules/exception_wrapper.rb:7-8 | a NotUniqueError from the checker reaches the caller as the very same error, and is logged |
| Pipeline.ForeignErrorIsWrapped | lib/services/modules/exception_wrapper.rb:10 | any other StandardError reaches the caller as `S::Error` with the same message, caused by the original |
| Pipeline.UnimplementedPassesThrough | lib/services/base.rb:28-30 | `NotImplementedError` from the base `call` passes every layer unchanged; the log holds only START, CALLED BY and END |
| Pipeline.InvokeReleasesKeys | lib/services/modules/uniqueness_checker.rb:49-55 | every invocation, even one that rescheduled itself, ends with the store it started from less the error counter, which then reads 0 |
| Pipeline.SequentialInvocationsLeaveNoTrace | lib/services/modules/uniqueness_checker.rb:49-55 | any two consecutive invocations with the same arguments leave the store as it was, less the counter |

## Left out

- `lib/services/asyncable.rb` (the Sidekiq adapter) is not part of this model. Rescheduling appears only as the `PerformIn` event the checker emits.
- `lib/services/base_finder.rb`, `lib/services/logger.rb`, `lib/services/logger/file.rb` and `lib/services/railtie.rb` are not part of this model. They wrap ActiveRecord, TaggedLogging and Rails configuration.
- `lib/services/modules/object_class.rb` is not part of this model. The object class (and its table and reflections) is a parameter.
- Clocks and randomness are inputs:
  - `Time.now` and the rounded duration in END lines are strings or integers supplied by the caller.
  - `SecureRandom.hex(6)` takes its six bytes as a parameter.
  - TTLs never expire.
- MD5, `#inspect`/`#to_s`, JSON encoding and `String#pluralize` are opaque. The digest is only assumed non-empty and free of colons. Log entries are stored as values rather than JSON text.
- Concurrency is out of scope. The store is sequential; the one interleaving that matters is shown by `UniquenessChecker.CheckThenSetAdmitsTwoOwners`.
- Stack introspection is out of scope:
  - `caller_locations` becomes the path and line passed to `CallLogger.CallerText`.
  - The backtrace of a freshly raised wrapper error is a parameter.
  - The old checker's `eval` of method parameters is replaced by its result (one empty array).
- `reschedule` writes no log line. `log` is private in both `Base` and `CallLogger`, so `respond_to?(:log)` is false.
- Query is modelled without SQL:
  - The JOIN detection and DISTINCT subquery at lib/services/query.rb:67-70 are left out.
  - So is the ActiveRecord < 5 join branch at lib/services/query.rb:93-99.
  - So are `ActiveRecord::Relation` condition values at lib/services/query.rb:51-52.
  - The subclass `process` hook is a function parameter.
  - `symbolize_keys` is the identity, because keys are already names.
- Class membership and messages are simplified:
  - `grep(klass)` and `when object_class` compare class names exactly, so subclasses of the object class are not recognised.
  - NoMethodError messages are fixed strings.
  - Float arguments are not in the rescheduling whitelist, because the code lists `Fixnum`.
- Text.ToI: reads only leading ASCII decimal digits. Ruby's `String#to_i` also skips leading whitespace, accepts a sign and reads underscores. The model only reads the error counter, which `increase_error_count` always writes as a plain decimal; a counter written by some other client could be read differently.
- ServiceBase.FindObjects: a Relation returned by the find service (`pluck(:id)`) is treated like an array of records.
- CallLogger.LogCall: the inner layers are taken to write no log lines of their own in `Pipeline.Invoke`, because `reschedule` logs nothing.

## Findings

| source | as written | input that shows it | evidently intended | confidence | as-written member | corrected member |
|---|---|---|---|---|---|---|
| lib/services/modules/uniqueness_checker.rb:59-62 | `raise_non_unique_error(retried = false)` ignores `retried` and always appends "The service has been retried 10 times." | a `fail` conflict on the first attempt | the sentence only on the exhausted-retries path at line 34 | medium, not executed | UniquenessChecker.NotUniqueMessageAsWrittenClaimsRetries | UniquenessChecker.NotUniqueMessage |
| lib/services/modules/uniqueness_checker.rb:52-55 | the `ensure` clause deletes `error_count_key` on every outcome, including right after `increase_error_count` | a conflict with `on_error: :reschedule`: the counter is 1 during the call and 0 after it, forever | retries accumulate up to `MAX_RETRIES` across rescheduled invocations | high, not executed | UniquenessChecker.CallAsWrittenForgetsErrorCount | UniquenessChecker.RetriesExhaust |
| lib/services/base/uniqueness_checker.rb:11-13 | `@uniqueness_key` is assigned before the `exists` test, so the `ensure` at line 22 deletes it even when the check was refused | invocation A holds the key; B is refused and deletes A's key; C then gets in while A runs | a refused invocation releases nothing | high, not executed | LegacyUniquenessChecker.ConflictDeletesOthersLock | LegacyUniquenessChecker.ConflictKeepsOthersLock |
| lib/services/base.rb:73 | `pluralize(missing_ids)` passes an array where ActiveSupport expects a count, and the count is never `1` | one missing id 7 of class `Post`: "Posts 7 not found." | "Post 7 not found." for a single id | medium, not executed | ServiceBase.MissingMessageAsWrittenPluralizesOne | ServiceBase.MissingMessage |
