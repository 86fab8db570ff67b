/** The Redis-backed log (lib/services/logger/redis.rb): `log` validates the
    meta hash and pushes one entry onto the head of a Redis list; `size`,
    `fetch` and `clear` read (and for `clear`, empty) that list.  The list is
    a sequence, head first; entries are kept as values rather than JSON text,
    and the time is the integer `Time.now.to_i` passed in. */
module RedisLogger {
  import opened Values
  import opened Text
  import opened Errors

  /** `META_CLASSES`, by name. */
  const MetaClasses: seq<string> := ["NilClass", "TrueClass", "FalseClass", "Symbol", "String", "Numeric"]

  const InvalidMetaMessage: string :=
    "Meta keys and values must be of one of the following classes: " + Join(MetaClasses, ", ")

  /** `element.class <= klass` for some class of `META_CLASSES`: nil, true,
      false, a Symbol, a String, or a Numeric (an Integer or a Float). */
  predicate MetaElement(a: Arg)
  {
    a.NilArg? || a.BoolArg? || a.SymArg? || a.StrArg? || a.IntArg? || a.FloatArg?
  }

  /** A meta hash, as its key/value pairs in insertion order. */
  type Meta = seq<(Arg, Arg)>

  /** `meta_includes_invalid_values?(meta)`: the values are searched first,
      then the keys, each from the front, stopping at the first offender. */
  function MetaIncludesInvalidValues(meta: Meta): bool
  {
    AnyInvalid(seq(|meta|, i requires 0 <= i < |meta| => meta[i].1))
    || AnyInvalid(seq(|meta|, i requires 0 <= i < |meta| => meta[i].0))
  }

  /** `elements.any? { |e| META_CLASSES.none? { |k| e.class <= k } }` */
  function AnyInvalid(elements: seq<Arg>): bool
    decreases |elements|
  {
    if elements == [] then false
    else !MetaElement(elements[0]) || AnyInvalid(elements[1..])
  }

  lemma {:induction false} AnyInvalidMeans(elements: seq<Arg>)
    ensures AnyInvalid(elements) <==> exists i :: 0 <= i < |elements| && !MetaElement(elements[i])
    decreases |elements|
  {
    if elements != [] {
      AnyInvalidMeans(elements[1..]);
      assert forall i :: 0 < i < |elements| ==> elements[i] == elements[1..][i - 1];
      if AnyInvalid(elements[1..]) {
        var i :| 0 <= i < |elements[1..]| && !MetaElement(elements[1..][i]);
        assert !MetaElement(elements[i + 1]);
      }
    }
  }

  /** The meta hash is rejected exactly when some key or some value is not a
      simple value. */
  lemma MetaIncludesInvalidValuesMeans(meta: Meta)
    ensures MetaIncludesInvalidValues(meta) <==>
              exists i :: 0 <= i < |meta| && (!MetaElement(meta[i].0) || !MetaElement(meta[i].1))
  {
    var values := seq(|meta|, i requires 0 <= i < |meta| => meta[i].1);
    var keys := seq(|meta|, i requires 0 <= i < |meta| => meta[i].0);
    AnyInvalidMeans(values);
    AnyInvalidMeans(keys);
    if exists i :: 0 <= i < |meta| && (!MetaElement(meta[i].0) || !MetaElement(meta[i].1)) {
      var i :| 0 <= i < |meta| && (!MetaElement(meta[i].0) || !MetaElement(meta[i].1));
      assert values[i] == meta[i].1 && keys[i] == meta[i].0;
    }
  }

  /** One entry of the list: `{time:, message:, severity:, meta:}`. */
  datatype LogEntry = LogEntry(time: int, message: string, severity: string, meta: Meta)

  /** `log(message, meta, severity)` at time `now`; `toS` is `to_s`.  It
      answers the length of the list after the push, as `LPUSH` does. */
  function Log(list: seq<LogEntry>, now: int, toS: Arg -> string, message: Arg, meta: Meta, severity: Arg)
    : (r: (Outcome<nat>, seq<LogEntry>))
    // invalid meta raises InvalidMetaError and pushes nothing
    ensures MetaIncludesInvalidValues(meta) ==>
              r.0 == Raised(Exception(InvalidMetaError, InvalidMetaMessage, [], None)) && r.1 == list
    // otherwise exactly one entry is added in front, the rest unchanged
    ensures !MetaIncludesInvalidValues(meta) ==>
              |r.1| == |list| + 1 && r.1[1..] == list && r.0 == Returned(|r.1|)
              && r.1[0] == LogEntry(now, toS(message), toS(severity), meta)
  {
    if MetaIncludesInvalidValues(meta) then
      (Raised(Exception(InvalidMetaError, InvalidMetaMessage, [], None)), list)
    else
      var pushed := [LogEntry(now, toS(message), toS(severity), meta)] + list;
      (Returned(|pushed|), pushed)
  }

  /** `size`: `LLEN`. */
  function Size(list: seq<LogEntry>): nat
  {
    |list|
  }

  /** `fetch`: `LRANGE key 0 -1`, the whole list head first. */
  function Fetch(list: seq<LogEntry>): seq<LogEntry>
  {
    list
  }

  /** `clear`: in one transaction, read the whole list and delete it. */
  function Clear(list: seq<LogEntry>): (r: (seq<LogEntry>, seq<LogEntry>))
    // it answers what `fetch` would have answered, and leaves nothing
    ensures r.0 == Fetch(list) && r.1 == []
    ensures Size(r.1) == 0
  {
    (list, [])
  }

  // ---------------------------------------------------------------------------
  // A history of calls

  datatype Op =
    | LogOp(now: int, message: Arg, meta: Meta, severity: Arg)
    | ClearOp

  /** The list after a history of calls, from an empty list. */
  function Replay(toS: Arg -> string, ops: seq<Op>): seq<LogEntry>
    decreases |ops|
  {
    if ops == [] then []
    else
      var list := Replay(toS, ops[..|ops| - 1]);
      match ops[|ops| - 1]
      case ClearOp => Clear(list).1
      case LogOp(now, message, meta, severity) => Log(list, now, toS, message, meta, severity).1
  }

  /** The entries written by the successful `log` calls since the last
      `clear`, oldest first. */
  function LoggedSinceClear(toS: Arg -> string, ops: seq<Op>): seq<LogEntry>
    decreases |ops|
  {
    if ops == [] then []
    else
      var earlier := LoggedSinceClear(toS, ops[..|ops| - 1]);
      match ops[|ops| - 1]
      case ClearOp => []
      case LogOp(now, message, meta, severity) =>
        if MetaIncludesInvalidValues(meta) then earlier
        else earlier + [LogEntry(now, toS(message), toS(severity), meta)]
  }

  function Reverse<T>(s: seq<T>): (r: seq<T>)
    ensures |r| == |s| && forall i :: 0 <= i < |s| ==> r[i] == s[|s| - 1 - i]
    decreases |s|
  {
    if s == [] then [] else [s[|s| - 1]] + Reverse(s[..|s| - 1])
  }

  /** `fetch` answers newest first: the reverse of the order in which the
      entries since the last `clear` were logged. */
  lemma {:induction false} FetchIsNewestFirst(toS: Arg -> string, ops: seq<Op>)
    ensures Fetch(Replay(toS, ops)) == Reverse(LoggedSinceClear(toS, ops))
    decreases |ops|
  {
    if ops != [] {
      var init := ops[..|ops| - 1];
      FetchIsNewestFirst(toS, init);
      match ops[|ops| - 1]
      case ClearOp =>
      case LogOp(now, message, meta, severity) =>
        if !MetaIncludesInvalidValues(meta) {
          var earlier := LoggedSinceClear(toS, init);
          var e := LogEntry(now, toS(message), toS(severity), meta);
          assert (earlier + [e])[..|earlier|] == earlier;
        }
    }
  }

  /** `size` counts the successful `log` calls since the last `clear`. */
  lemma SizeCountsLogsSinceClear(toS: Arg -> string, ops: seq<Op>)
    ensures Size(Replay(toS, ops)) == |LoggedSinceClear(toS, ops)|
  {
    FetchIsNewestFirst(toS, ops);
  }

  /** The first entry fetched is the one logged last. */
  lemma NewestEntryFirst(toS: Arg -> string, ops: seq<Op>, now: int, message: Arg, meta: Meta, severity: Arg)
    requires !MetaIncludesInvalidValues(meta)
    ensures Fetch(Replay(toS, ops + [LogOp(now, message, meta, severity)]))[0]
              == LogEntry(now, toS(message), toS(severity), meta)
  {
    assert (ops + [LogOp(now, message, meta, severity)])[..|ops|] == ops;
  }
}
