/** The pure part of `Services::Query#call` (lib/services/query.rb): how the
    arguments are split into ids and conditions, the default ordering, the
    conversion of record conditions into id conditions, the rewriting of
    order clauses, and the dispatch of the remaining conditions.  A scope is
    the list of operations applied to a base relation, not SQL. */
module Query {
  import opened Values
  import opened Text
  import opened Errors

  // ---------------------------------------------------------------------------
  // Hashes with symbol keys

  /** A Ruby Hash with symbol keys (by name), as its entries in insertion order. */
  type Hash = seq<(string, Arg)>

  predicate HasKey(h: Hash, k: string)
  {
    exists i :: 0 <= i < |h| && h[i].0 == k
  }

  /** `h[k]`, or `None` when there is no such key. */
  function Lookup(h: Hash, k: string): (r: Option<Arg>)
    ensures r.Some? <==> HasKey(h, k)
    ensures r.Some? ==> (k, r.value) in h
    decreases |h|
  {
    if h == [] then None
    else if h[0].0 == k then Some(h[0].1)
    else
      var r := Lookup(h[1..], k);
      assert HasKey(h, k) ==> HasKey(h[1..], k) by {
        if HasKey(h, k) {
          var i :| 0 <= i < |h| && h[i].0 == k;
          assert h[1..][i - 1].0 == k;
        }
      }
      assert r.Some? ==> (k, r.value) in h by {
        if r.Some? { assert (k, r.value) in h[1..]; }
      }
      r
  }

  /** `h[k] = v`: an existing entry is updated where it stands, a new one goes last. */
  function Put(h: Hash, k: string, v: Arg): (r: Hash)
    ensures HasKey(h, k) ==> |r| == |h| && forall i :: 0 <= i < |h| ==>
              r[i] == (if h[i].0 == k then (k, v) else h[i])
    ensures !HasKey(h, k) ==> r == h + [(k, v)]
    // every other entry stays
    ensures forall e :: e in h && e.0 != k ==> e in r
  {
    if HasKey(h, k) then
      var r := seq(|h|, i requires 0 <= i < |h| => if h[i].0 == k then (k, v) else h[i]);
      assert forall e :: e in h && e.0 != k ==> e in r by {
        forall e | e in h && e.0 != k ensures e in r {
          var i :| 0 <= i < |h| && h[i] == e;
          assert r[i] == e;
        }
      }
      r
    else h + [(k, v)]
  }

  /** `h.delete(k)` (the value it answers is `Lookup(h, k)`). */
  function Delete(h: Hash, k: string): (r: Hash)
    ensures !HasKey(r, k)
    ensures forall e :: e in r <==> e in h && e.0 != k
    ensures |r| <= |h|
    decreases |h|
  {
    if h == [] then []
    else (if h[0].0 == k then [] else [h[0]]) + Delete(h[1..], k)
  }

  // ---------------------------------------------------------------------------
  // The query class and scopes

  /** An association of the object class: its name and the table it maps to. */
  datatype Reflection = Reflection(name: string, tableName: string)

  /** The relation a query starts from: `object_class.all`, or the relation
      given under `:scope`. */
  datatype Base = AllRecords | GivenScope(relation: Arg)

  datatype ScopeOp =
    | WhereIn(column: string, ids: seq<Arg>)     // where(object_table_id => ids)
    | WhereNotId(value: Arg)                     // where.not(id: v)
    | WhereCreated(clause: string, value: Arg)   // where("<table>.created_at < ?", v)
    | LeftOuterJoin(reflection: string)
    | OrderBy(clause: string)
    | Limit(value: Arg)
    | Page(value: Arg)
    | Per(value: Arg)

  datatype Scope = Scope(base: Base, ops: seq<ScopeOp>)

  /** What a query class contributes: its object class and table, the
      object class's reflections, the names given to
      `convert_condition_objects_to_ids`, and the subclass's `process` hook
      (a new scope when it handles a condition, `None` when it does not). */
  datatype QueryClass = QueryClass(
    objectClass: string,
    table: string,
    reflections: seq<Reflection>,
    objectToIdClassNames: seq<string>,
    process: (Scope, string, Arg) -> Option<Scope>)

  /** The first argument of `call`: a Hash of conditions, or ids. */
  datatype QueryArg = HashArg(hash: Hash) | PlainArg(value: Arg)

  function Argument(message: string): Exception
  {
    Exception(ArgumentError, message, [], None)
  }

  // ---------------------------------------------------------------------------
  // Arguments

  const ConditionsTwiceMessage: string := "If conditions are passed as first argument, there must not be a second argument."
  const NilIdsMessage: string := "IDs must not be nil."

  /** `call(ids_or_conditions = {}, _conditions = {})`: the ids and the conditions. */
  function SplitArguments(first: QueryArg, second: Hash): (r: Outcome<(seq<Arg>, Hash)>)
    // conditions in both arguments, or nil ids, are argument errors
    ensures first.HashArg? && second != [] ==> r == Raised(Argument(ConditionsTwiceMessage))
    ensures first == PlainArg(NilArg) ==> r == Raised(Argument(NilIdsMessage))
    // a Hash first: no ids, and those are the conditions
    ensures first.HashArg? && second == [] ==> r == Returned(([], first.hash))
    // anything else: `Array(ids)`, and the second argument holds the conditions
    ensures first.PlainArg? && first.value != NilArg ==>
              r.Returned? && r.value.1 == second
              && (first.value.ArrayArg? ==> r.value.0 == first.value.items)
              && (!first.value.ArrayArg? ==> r.value.0 == [first.value])
  {
    match first
    case HashArg(h) =>
      if second != [] then Raised(Argument(ConditionsTwiceMessage)) else Returned(([], h))
    case PlainArg(a) =>
      if a.NilArg? then Raised(Argument(NilIdsMessage)) else Returned((ToArray(a), second))
  }

  /** Without an `:order` condition, the query is ordered by `<table>.id`. */
  function WithDefaultOrder(conditions: Hash, table: string): (r: Hash)
    ensures Lookup(r, "order") == if HasKey(conditions, "order") then Lookup(conditions, "order") else Some(StrArg(table + ".id"))
    ensures HasKey(conditions, "order") ==> r == conditions
    ensures !HasKey(conditions, "order") ==> r == conditions + [("order", StrArg(table + ".id"))]
  {
    if HasKey(conditions, "order") then conditions
    else
      var r := Put(conditions, "order", StrArg(table + ".id"));
      LookupAppended(conditions, "order", StrArg(table + ".id"));
      r
  }

  lemma {:induction false} LookupAppended(h: Hash, k: string, v: Arg)
    requires !HasKey(h, k)
    ensures Lookup(h + [(k, v)], k) == Some(v)
    decreases |h|
  {
    if h != [] {
      assert (h + [(k, v)])[1..] == h[1..] + [(k, v)];
      assert !HasKey(h[1..], k) by {
        forall i | 0 <= i < |h[1..]| ensures h[1..][i].0 != k {
          assert h[1..][i] == h[i + 1];
        }
      }
      LookupAppended(h[1..], k, v);
    }
  }

  // ---------------------------------------------------------------------------
  // Records to ids

  const NoIdMessage: string := "undefined method `id'"

  /** `map(&:id)` for an array, `[x.id]` for anything else: only records have an id. */
  function IdsOf(a: Arg): (r: Outcome<seq<int>>)
    ensures a.ObjectArg? ==> r == Returned([a.rec.id])
    ensures a.ArrayArg? ==> (r.Returned? <==> forall i :: 0 <= i < |a.items| ==> a.items[i].ObjectArg?)
    ensures a.ArrayArg? && r.Returned? ==>
              |r.value| == |a.items| && forall i :: 0 <= i < |a.items| ==> r.value[i] == a.items[i].rec.id
    ensures !a.ArrayArg? && !a.ObjectArg? ==> r == Raised(Exception(NoMethodError, NoIdMessage, [], None))
  {
    match a
    case ObjectArg(rec) => Returned([rec.id])
    case ArrayArg(items) =>
      if forall i :: 0 <= i < |items| ==> items[i].ObjectArg? then
        Returned(seq(|items|, i requires 0 <= i < |items| && items[i].ObjectArg? => items[i].rec.id))
      else Raised(Exception(NoMethodError, NoIdMessage, [], None))
    case _ => Raised(Exception(NoMethodError, NoIdMessage, [], None))
  }

  /** The value stored under `<name>_id`: the id itself when there is exactly
      one, the list of ids otherwise. */
  function IdCondition(ids: seq<int>): (r: Arg)
    ensures |ids| == 1 <==> r.IntArg?
    ensures |ids| == 1 ==> r == IntArg(ids[0])
    ensures |ids| != 1 ==> r.ArrayArg? && |r.items| == |ids| && forall i :: 0 <= i < |ids| ==> r.items[i] == IntArg(ids[i])
  {
    if |ids| == 1 then IntArg(ids[0]) else ArrayArg(seq(|ids|, i requires 0 <= i < |ids| => IntArg(ids[i])))
  }

  /** For each name given to `convert_condition_objects_to_ids`, in order: the
      condition is removed, and when its value was truthy it comes back as
      `<name>_id` holding the ids of the records. */
  function ConvertObjects(names: seq<string>, conditions: Hash): (r: Outcome<Hash>)
    // conditions under other keys are left alone
    ensures r.Returned? ==> forall e :: e in conditions && !Touched(names, e.0) ==> e in r.value
    decreases |names|
  {
    if names == [] then Returned(conditions)
    else
      var name := names[0];
      var value := Lookup(conditions, name);
      var rest := Delete(conditions, name);
      if value.Some? && Truthy(value.value) then
        match IdsOf(value.value)
        case Raised(e) => Raised(e)
        case Returned(ids) => ConvertObjectsRest(names, conditions, Put(rest, name + "_id", IdCondition(ids)))
      else ConvertObjectsRest(names, conditions, rest)
  }

  /** The keys the conversion of `names` may remove or write. */
  predicate Touched(names: seq<string>, k: string)
  {
    exists j :: 0 <= j < |names| && (k == names[j] || k == names[j] + "_id")
  }

  /** The conversion of the remaining names, after the first one turned
      `conditions` into `next`. */
  function ConvertObjectsRest(names: seq<string>, conditions: Hash, next: Hash): (r: Outcome<Hash>)
    requires |names| >= 1
    requires forall e :: e in conditions && e.0 != names[0] && e.0 != names[0] + "_id" ==> e in next
    ensures r.Returned? ==> forall e :: e in conditions && !Touched(names, e.0) ==> e in r.value
    decreases |names|, 0
  {
    var r := ConvertObjects(names[1..], next);
    assert r.Returned? ==> forall e :: e in conditions && !Touched(names, e.0) ==> e in r.value by {
      if r.Returned? {
        forall e | e in conditions && !Touched(names, e.0) ensures e in r.value {
          assert e.0 != names[0] && e.0 != names[0] + "_id";
          assert !Touched(names[1..], e.0) by {
            forall j | 0 <= j < |names[1..]| ensures e.0 != names[1..][j] && e.0 != names[1..][j] + "_id" {
              assert names[1..][j] == names[j + 1];
            }
          }
        }
      }
    }
    r
  }

  // ---------------------------------------------------------------------------
  // Splitting and rewriting an order clause

  /** Ruby's `\s`: space, tab, line feed, vertical tab, form feed, carriage return. */
  predicate IsSpace(c: char)
  {
    c == ' ' || c == '\t' || c == '\n' || c == '\r' || c as int == 11 || c as int == 12
  }

  function TrimStart(s: string): (r: string)
    ensures |r| <= |s| && r == s[|s| - |r|..]
    ensures r == [] || !IsSpace(r[0])
    decreases |s|
  {
    if s != [] && IsSpace(s[0]) then TrimStart(s[1..]) else s
  }

  function TrimEnd(s: string): (r: string)
    ensures |r| <= |s| && r == s[..|r|]
    ensures r == [] || !IsSpace(r[|r| - 1])
    decreases |s|
  {
    if s != [] && IsSpace(s[|s| - 1]) then TrimEnd(s[..|s| - 1]) else s
  }

  /** The whitespace a separator match swallows: trailing space of a
      piece followed by a comma, leading space of a piece after one. */
  function StripPiece(p: string, afterComma: bool, beforeComma: bool): string
  {
    var q := if beforeComma then TrimEnd(p) else p;
    if afterComma then TrimStart(q) else q
  }

  function StripAround(pieces: seq<string>): (r: seq<string>)
    ensures |r| == |pieces|
    ensures forall i :: 0 <= i < |r| ==> r[i] == StripPiece(pieces[i], i > 0, i < |pieces| - 1)
  {
    seq(|pieces|, i requires 0 <= i < |pieces| => StripPiece(pieces[i], i > 0, i < |pieces| - 1))
  }

  /** `String#split` drops trailing empty fields. */
  function DropTrailingEmpty(parts: seq<string>): (r: seq<string>)
    ensures |r| <= |parts| && r == parts[..|r|]
    ensures r == [] || r[|r| - 1] != []
    decreases |parts|
  {
    if parts != [] && parts[|parts| - 1] == [] then DropTrailingEmpty(parts[..|parts| - 1]) else parts
  }

  /** `v.split(COMMA_REGEX)`: split at each comma together with the whitespace around it. */
  function SplitOrder(order: string): seq<string>
  {
    DropTrailingEmpty(StripAround(SplitOn(order, ',')))
  }

  /** `[A-Za-z0-9_]` */
  predicate IsWordChar(c: char)
  {
    'A' <= c <= 'Z' || 'a' <= c <= 'z' || '0' <= c <= '9' || c == '_'
  }

  /** A table name the prefix pattern can recognise. */
  predicate ValidTable(t: string)
  {
    |t| > 0 && forall i :: 0 <= i < |t| ==> IsWordChar(t[i])
  }

  function LeadingWordChars(s: string): (n: nat)
    ensures n <= |s| && forall i :: 0 <= i < n ==> IsWordChar(s[i])
    ensures n < |s| ==> !IsWordChar(s[n])
    decreases |s|
  {
    if s == [] || !IsWordChar(s[0]) then 0 else 1 + LeadingWordChars(s[1..])
  }

  /** `order_part[/\A([A-Za-z0-9_]+)\./, 1]` */
  function TableName(part: string): (r: Option<string>)
    ensures r.Some? ==> ValidTable(r.value) && |r.value| < |part| && part[|r.value|] == '.'
                        && forall k :: 0 <= k < |r.value| ==> part[k] == r.value[k]
  {
    var n := LeadingWordChars(part);
    if 0 < n < |part| && part[n] == '.' then Some(part[..n]) else None
  }

  /** A part that starts with a valid table name and a dot names that table. */
  lemma TableNameOfPrefixed(t: string, rest: string)
    requires ValidTable(t)
    ensures TableName(t + "." + rest) == Some(t)
  {
    var s := t + "." + rest;
    assert s == t + ("." + rest);
    LeadingWordCharsOf(t, "." + rest);
    assert s[|t|] == '.';
    assert s[..|t|] == t;
  }

  lemma {:induction false} LeadingWordCharsOf(t: string, rest: string)
    requires forall i :: 0 <= i < |t| ==> IsWordChar(t[i])
    requires rest != [] && !IsWordChar(rest[0])
    ensures LeadingWordChars(t + rest) == |t|
    decreases |t|
  {
    if t == [] {
      assert t + rest == rest;
    } else {
      assert (t + rest)[1..] == t[1..] + rest;
      LeadingWordCharsOf(t[1..], rest);
    }
  }

  /** `reflections.values.detect { |r| r.table_name == table_name }` */
  function FindReflection(reflections: seq<Reflection>, tableName: string): (r: Option<Reflection>)
    ensures r.None? <==> forall i :: 0 <= i < |reflections| ==> reflections[i].tableName != tableName
    // the first reflection on that table
    ensures r.Some? ==> exists i :: 0 <= i < |reflections| && reflections[i] == r.value && r.value.tableName == tableName
                                    && forall j :: 0 <= j < i ==> reflections[j].tableName != tableName
    decreases |reflections|
  {
    if reflections == [] then None
    else if reflections[0].tableName == tableName then Some(reflections[0])
    else
      var r := FindReflection(reflections[1..], tableName);
      assert forall i :: 1 <= i < |reflections| ==> reflections[i] == reflections[1..][i - 1];
      assert r.Some? ==> exists i :: 0 <= i < |reflections| && reflections[i] == r.value && r.value.tableName == tableName
                                     && forall j :: 0 <= j < i ==> reflections[j].tableName != tableName by {
        if r.Some? {
          var k :| 0 <= k < |reflections[1..]| && reflections[1..][k] == r.value && r.value.tableName == tableName
                   && forall j :: 0 <= j < k ==> reflections[1..][j].tableName != tableName;
          assert reflections[k + 1] == r.value;
        }
      }
      r
  }

  function NoReflectionMessage(q: QueryClass, t: string): string
  {
    "Reflection on class " + q.objectClass + " with table name " + t + " not found."
  }

  /** One part of the order clause: the part as it goes into `ORDER BY`, and
      the joins it needs. */
  function RewritePart(q: QueryClass, part: string): (r: Outcome<(string, seq<ScopeOp>)>)
    // no table prefix: the query's own table is put in front
    ensures TableName(part).None? ==> r == Returned((q.table + "." + part, []))
    // the query's own table: kept as it is
    ensures TableName(part) == Some(q.table) ==> r == Returned((part, []))
    // another table: kept as it is, joined through the first reflection on
    // that table, and an error when there is none
    ensures TableName(part).Some? && TableName(part).value != q.table ==>
              (r.Raised? <==> FindReflection(q.reflections, TableName(part).value).None?)
              && (r.Raised? ==> r.error == Runtime(NoReflectionMessage(q, TableName(part).value)))
              && (r.Returned? ==> r.value == (part, [LeftOuterJoin(FindReflection(q.reflections, TableName(part).value).value.name)]))
  {
    match TableName(part)
    case None => Returned((q.table + "." + part, []))
    case Some(t) =>
      if t == q.table then Returned((part, []))
      else match FindReflection(q.reflections, t)
        case None => Raised(Runtime(NoReflectionMessage(q, t)))
        case Some(reflection) => Returned((part, [LeftOuterJoin(reflection.name)]))
  }

  /** The parts in order, stopping at the first error. */
  function RewriteParts(q: QueryClass, parts: seq<string>): (r: Outcome<(seq<string>, seq<ScopeOp>)>)
    ensures r.Returned? ==> |r.value.0| == |parts|
    ensures r.Returned? ==> forall i :: 0 <= i < |parts| ==>
              RewritePart(q, parts[i]).Returned? && r.value.0[i] == RewritePart(q, parts[i]).value.0
    decreases |parts|
  {
    if parts == [] then Returned(([], []))
    else match RewritePart(q, parts[0])
      case Raised(e) => Raised(e)
      case Returned(first) =>
        var rest := RewriteParts(q, parts[1..]);
        assert forall i :: 1 <= i < |parts| ==> parts[i] == parts[1..][i - 1];
        match rest
        case Raised(e) => Raised(e)
        case Returned(more) => Returned(([first.0] + more.0, first.1 + more.1))
  }

  /** The parts fail exactly when one of them does. */
  lemma {:induction false} RewritePartsRaises(q: QueryClass, parts: seq<string>)
    ensures RewriteParts(q, parts).Raised? <==> exists i :: 0 <= i < |parts| && RewritePart(q, parts[i]).Raised?
    decreases |parts|
  {
    if parts != [] && RewritePart(q, parts[0]).Returned? {
      RewritePartsRaises(q, parts[1..]);
      assert forall i :: 1 <= i < |parts| ==> parts[i] == parts[1..][i - 1];
      if RewriteParts(q, parts[1..]).Raised? {
        var i :| 0 <= i < |parts[1..]| && RewritePart(q, parts[1..][i]).Raised?;
        assert RewritePart(q, parts[i + 1]).Raised?;
      }
    }
  }

  /** The `:order` condition: the rewritten clause and the joins it needs. */
  function RewriteOrder(q: QueryClass, order: string): Outcome<(string, seq<ScopeOp>)>
  {
    match RewriteParts(q, SplitOrder(order))
    case Raised(e) => Raised(e)
    case Returned(rewritten) => Returned((Join(rewritten.0, ", "), rewritten.1))
  }

  // ---------------------------------------------------------------------------
  // Rewriting twice is rewriting once

  /** What the split leaves of each part: no comma, no space before a comma. */
  predicate NoComma(s: string)
  {
    forall j :: 0 <= j < |s| ==> s[j] != ','
  }

  predicate SplitShaped(parts: seq<string>)
  {
    (forall i :: 0 <= i < |parts| ==> NoComma(parts[i]))
    && (forall i :: 0 <= i < |parts| - 1 ==> parts[i] == [] || !IsSpace(parts[i][|parts[i]| - 1]))
  }

  /** What rewriting leaves of each part: besides that, never empty and never
      starting with a space. */
  predicate RewrittenShaped(parts: seq<string>)
  {
    SplitShaped(parts) && forall i :: 0 <= i < |parts| ==> |parts[i]| > 0 && !IsSpace(parts[i][0])
  }

  lemma StripPieceShape(p: string, afterComma: bool, beforeComma: bool)
    ensures NoComma(p) ==> NoComma(StripPiece(p, afterComma, beforeComma))
    ensures beforeComma ==> var r := StripPiece(p, afterComma, beforeComma);
                            r == [] || !IsSpace(r[|r| - 1])
  {
    var q := if beforeComma then TrimEnd(p) else p;
    var r := StripPiece(p, afterComma, beforeComma);
    assert |q| <= |p| && q == p[..|q|];
    assert |r| <= |q| && r == q[|q| - |r|..];
    if NoComma(p) {
      forall j | 0 <= j < |r| ensures r[j] != ',' {
        assert r[j] == p[|q| - |r| + j];
      }
    }
    if beforeComma && r != [] {
      assert r[|r| - 1] == q[|q| - 1];
    }
  }

  lemma SplitOrderShaped(order: string)
    ensures SplitShaped(SplitOrder(order))
  {
    var pieces := SplitOn(order, ',');
    var stripped := StripAround(pieces);
    var parts := SplitOrder(order);
    forall i | 0 <= i < |parts|
      ensures NoComma(parts[i])
      ensures i < |parts| - 1 ==> parts[i] == [] || !IsSpace(parts[i][|parts[i]| - 1])
    {
      assert parts[i] == stripped[i];
      assert NoComma(pieces[i]) by {
        forall j | 0 <= j < |pieces[i]| ensures pieces[i][j] != ',' {
          assert pieces[i][j] in pieces[i];
        }
      }
      StripPieceShape(pieces[i], i > 0, i < |pieces| - 1);
    }
  }

  /** Every rewritten part is non-empty, starts with a word character and keeps
      its last character (or ends with the dot it was given). */
  lemma RewrittenPartShape(q: QueryClass, part: string)
    requires ValidTable(q.table) && NoComma(part)
    requires RewritePart(q, part).Returned?
    ensures var p := RewritePart(q, part).value.0;
            |p| > 0 && IsWordChar(p[0]) && NoComma(p)
            && (part != [] ==> p[|p| - 1] == part[|part| - 1])
            && (part == [] ==> p[|p| - 1] == '.')
  {
    var p := RewritePart(q, part).value.0;
    match TableName(part)
    case None =>
      var t := q.table;
      assert p == t + "." + part;
      assert p[0] == t[0];
      forall j | 0 <= j < |p| ensures p[j] != ',' {
        if j < |t| { assert p[j] == t[j]; }
        else if j > |t| { assert p[j] == part[j - |t| - 1]; }
      }
    case Some(t) =>
      assert p == part;
      assert part[0] == t[0];
  }

  /** The shape the split leaves a part in; `notLast` says a comma follows it. */
  predicate SplitPartShaped(part: string, notLast: bool)
  {
    NoComma(part) && (notLast ==> part == [] || !IsSpace(part[|part| - 1]))
  }

  /** The shape rewriting leaves a part in. */
  predicate RewrittenPartShaped(p: string, notLast: bool)
  {
    |p| > 0 && !IsSpace(p[0]) && NoComma(p) && (notLast ==> !IsSpace(p[|p| - 1]))
  }

  /** The shape of one rewritten part, given the shape of the split part. */
  lemma RewrittenPartInShape(q: QueryClass, part: string, notLast: bool)
    requires ValidTable(q.table) && SplitPartShaped(part, notLast)
    requires RewritePart(q, part).Returned?
    ensures RewrittenPartShaped(RewritePart(q, part).value.0, notLast)
  {
    RewrittenPartShape(q, part);
  }

  lemma SplitShapedPointwise(parts: seq<string>, i: int)
    requires SplitShaped(parts) && 0 <= i < |parts|
    ensures SplitPartShaped(parts[i], i < |parts| - 1)
  {
  }

  lemma RewrittenShapedFromPointwise(out: seq<string>)
    requires forall i :: 0 <= i < |out| ==> RewrittenPartShaped(out[i], i < |out| - 1)
    ensures RewrittenShaped(out)
  {
  }

  lemma RewrittenPartsShaped(q: QueryClass, parts: seq<string>)
    requires ValidTable(q.table) && SplitShaped(parts)
    requires RewriteParts(q, parts).Returned?
    ensures RewrittenShaped(RewriteParts(q, parts).value.0)
  {
    var out := RewriteParts(q, parts).value.0;
    forall i | 0 <= i < |out|
      ensures RewrittenPartShaped(out[i], i < |out| - 1)
    {
      SplitShapedPointwise(parts, i);
      RewrittenPartInShape(q, parts[i], i < |parts| - 1);
    }
    RewrittenShapedFromPointwise(out);
  }

  /** A rewritten part is left as it is by a second rewrite, with the same joins. */
  lemma RewritePartIdempotent(q: QueryClass, part: string)
    requires ValidTable(q.table)
    requires RewritePart(q, part).Returned?
    ensures RewritePart(q, RewritePart(q, part).value.0) == RewritePart(q, part)
  {
    if TableName(part).None? {
      TableNameOfPrefixed(q.table, part);
    }
  }

  lemma {:induction false} RewritePartsIdempotent(q: QueryClass, parts: seq<string>)
    requires ValidTable(q.table)
    requires RewriteParts(q, parts).Returned?
    ensures RewriteParts(q, RewriteParts(q, parts).value.0) == RewriteParts(q, parts)
    decreases |parts|
  {
    if parts != [] {
      var first := RewritePart(q, parts[0]).value;
      RewritePartIdempotent(q, parts[0]);
      RewritePartsIdempotent(q, parts[1..]);
      var out := RewriteParts(q, parts).value.0;
      assert out == [first.0] + RewriteParts(q, parts[1..]).value.0;
      assert out[1..] == RewriteParts(q, parts[1..]).value.0;
    }
  }

  function SpaceEach(parts: seq<string>): (r: seq<string>)
    ensures |r| == |parts| && forall i :: 0 <= i < |parts| ==> r[i] == " " + parts[i]
  {
    seq(|parts|, i requires 0 <= i < |parts| => " " + parts[i])
  }

  /** Joining with ", " is joining with "," after putting a space in front of
      every part. */
  lemma {:induction false} JoinCommaSpace(parts: seq<string>)
    requires |parts| >= 1
    ensures " " + Join(parts, ", ") == Join(SpaceEach(parts), ",")
    decreases |parts|
  {
    if |parts| > 1 {
      var tail := parts[1..];
      JoinCommaSpace(tail);
      JoinCons(parts[0], tail, ", ");
      assert SpaceEach(parts) == [" " + parts[0]] + SpaceEach(tail);
      JoinCons(" " + parts[0], SpaceEach(tail), ",");
      assert " " + (parts[0] + ", " + Join(tail, ", ")) == (" " + parts[0]) + "," + (" " + Join(tail, ", "));
    }
  }

  lemma TrimStartSpace(p: string)
    requires |p| > 0 && !IsSpace(p[0])
    ensures TrimStart(" " + p) == p
  {
    assert (" " + p)[1..] == p;
  }

  /** The pieces a join with ", " falls into when split at the commas alone. */
  function CommaPieces(parts: seq<string>): (r: seq<string>)
    requires |parts| >= 1
    ensures |r| == |parts| && r[0] == parts[0]
    ensures forall i :: 0 < i < |parts| ==> r[i] == " " + parts[i]
  {
    [parts[0]] + SpaceEach(parts[1..])
  }

  lemma CommaSpaceRegroup(a: string, b: string)
    ensures a + ", " + b == a + "," + (" " + b)
  {
    assert ", " == "," + " ";
  }

  lemma JoinAsCommaPieces(parts: seq<string>)
    requires |parts| >= 1
    ensures Join(parts, ", ") == Join(CommaPieces(parts), ",")
  {
    var head, tail := parts[0], parts[1..];
    if |parts| == 1 {
      assert CommaPieces(parts) == [head];
    } else {
      assert parts == [head] + tail;
      var joined := Join(tail, ", ");
      var spaced := Join(SpaceEach(tail), ",");
      JoinCons(head, tail, ", ");
      assert Join(parts, ", ") == head + ", " + joined;
      CommaSpaceRegroup(head, joined);
      JoinCommaSpace(tail);
      assert " " + joined == spaced;
      JoinCons(head, SpaceEach(tail), ",");
      assert CommaPieces(parts) == [head] + SpaceEach(tail);
    }
  }

  lemma CommaPiecesNoComma(parts: seq<string>)
    requires |parts| >= 1 && forall i :: 0 <= i < |parts| ==> NoComma(parts[i])
    ensures forall i :: 0 <= i < |parts| ==> ',' !in CommaPieces(parts)[i]
  {
    var pieces := CommaPieces(parts);
    forall i | 0 <= i < |pieces| ensures ',' !in pieces[i] {
      var p := pieces[i];
      forall j | 0 <= j < |p| ensures p[j] != ',' {
        if i > 0 && j > 0 {
          assert p[j] == parts[i][j - 1];
        }
      }
    }
  }

  /** A piece after the first is its part with one space in front; stripping
      takes exactly that space off again. */
  lemma StripCommaPiece(parts: seq<string>, i: nat)
    requires 0 < i < |parts| && |parts[i]| > 0 && !IsSpace(parts[i][0])
    requires i < |parts| - 1 ==> !IsSpace(parts[i][|parts[i]| - 1])
    ensures StripPiece(" " + parts[i], true, i < |parts| - 1) == parts[i]
  {
    var s := " " + parts[i];
    assert s[|s| - 1] == parts[i][|parts[i]| - 1];
    assert (if i < |parts| - 1 then TrimEnd(s) else s) == s;
    TrimStartSpace(parts[i]);
  }

  lemma StripCommaPieces(parts: seq<string>)
    requires |parts| >= 1 && RewrittenShaped(parts)
    ensures StripAround(CommaPieces(parts)) == parts
  {
    var pieces := CommaPieces(parts);
    var stripped := StripAround(pieces);
    forall i | 0 <= i < |parts| ensures stripped[i] == parts[i] {
      if i > 0 {
        assert pieces[i] == " " + parts[i];
        assert |parts[i]| > 0 && !IsSpace(parts[i][0]);
        StripCommaPiece(parts, i);
      }
    }
  }

  /** Splitting a join of rewritten parts gives the parts back. */
  lemma SplitOrderJoin(parts: seq<string>)
    requires RewrittenShaped(parts)
    ensures SplitOrder(Join(parts, ", ")) == parts
  {
    if parts == [] {
      assert SplitOn("", ',') == [""];
      assert StripAround([""]) == [""];
    } else {
      var pieces := CommaPieces(parts);
      JoinAsCommaPieces(parts);
      CommaPiecesNoComma(parts);
      SplitOnJoin(pieces, ',');
      StripCommaPieces(parts);
    }
  }

  /** Rewriting an order clause that was already rewritten changes nothing:
      every part now names a table, and the same joins are added. */
  lemma RewriteOrderIdempotent(q: QueryClass, order: string)
    requires ValidTable(q.table)
    requires RewriteOrder(q, order).Returned?
    ensures RewriteOrder(q, RewriteOrder(q, order).value.0) == RewriteOrder(q, order)
  {
    var parts := SplitOrder(order);
    SplitOrderShaped(order);
    var out := RewriteParts(q, parts).value.0;
    RewrittenPartsShaped(q, parts);
    SplitOrderJoin(out);
    RewritePartsIdempotent(q, parts);
  }

  // ---------------------------------------------------------------------------
  // Applying the conditions

  /** The conditions the query itself understands. */
  predicate KnownCondition(k: string)
  {
    k in {"id_not", "created_before", "created_after", "order", "limit", "page", "per_page"}
  }

  function UnexpectedMessage(k: string): string
  {
    "Unexpected condition: " + k
  }

  const NoSplitMessage: string := "undefined method `split'"

  /** One `conditions.each` step of the final dispatch. */
  function ApplyCondition(q: QueryClass, scope: Scope, k: string, v: Arg): (r: Outcome<Scope>)
    ensures r.Returned? ==> r.value.base == scope.base && |r.value.ops| >= |scope.ops| && r.value.ops[..|scope.ops|] == scope.ops
    ensures !KnownCondition(k) ==> r == Raised(Argument(UnexpectedMessage(k)))
    ensures k == "created_before" ==> r == Returned(scope.(ops := scope.ops + [WhereCreated(q.table + ".created_at < ?", v)]))
    ensures k == "created_after" ==> r == Returned(scope.(ops := scope.ops + [WhereCreated(q.table + ".created_at > ?", v)]))
    // a nil or false order adds nothing
    ensures k == "order" && !Truthy(v) ==> r == Returned(scope)
    ensures k == "order" && Truthy(v) && v.StrArg? && RewriteOrder(q, v.s).Returned? ==>
              r == Returned(scope.(ops := scope.ops + RewriteOrder(q, v.s).value.1 + [OrderBy(RewriteOrder(q, v.s).value.0)]))
  {
    match k
    case "id_not" => Returned(scope.(ops := scope.ops + [WhereNotId(v)]))
    case "created_before" => Returned(scope.(ops := scope.ops + [WhereCreated(q.table + ".created_at < ?", v)]))
    case "created_after" => Returned(scope.(ops := scope.ops + [WhereCreated(q.table + ".created_at > ?", v)]))
    case "order" =>
      if !Truthy(v) then Returned(scope)
      else if !v.StrArg? then Raised(Exception(NoMethodError, NoSplitMessage, [], None))
      else (match RewriteOrder(q, v.s)
        case Raised(e) => Raised(e)
        case Returned(rewritten) =>
          Returned(scope.(ops := scope.ops + rewritten.1 + [OrderBy(rewritten.0)])))
    case "limit" => Returned(scope.(ops := scope.ops + [Limit(v)]))
    case "page" => Returned(scope.(ops := scope.ops + [Page(v)]))
    case "per_page" => Returned(scope.(ops := scope.ops + [Per(v)]))
    case _ => Raised(Argument(UnexpectedMessage(k)))
  }

  /** The final `conditions.each`, in insertion order, stopping at the first error. */
  function ApplyConditions(q: QueryClass, scope: Scope, conditions: Hash): (r: Outcome<Scope>)
    decreases |conditions|
  {
    if conditions == [] then Returned(scope)
    else match ApplyCondition(q, scope, conditions[0].0, conditions[0].1)
      case Raised(e) => Raised(e)
      case Returned(next) => ApplyConditions(q, next, conditions[1..])
  }

  /** A condition the query does not understand always makes it fail. */
  lemma {:induction false} UnknownConditionRaises(q: QueryClass, scope: Scope, conditions: Hash)
    ensures ApplyConditions(q, scope, conditions).Returned? ==>
              forall i :: 0 <= i < |conditions| ==> KnownCondition(conditions[i].0)
    decreases |conditions|
  {
    if conditions != [] {
      var s := ApplyCondition(q, scope, conditions[0].0, conditions[0].1);
      if s.Returned? {
        UnknownConditionRaises(q, s.value, conditions[1..]);
        assert forall i :: 1 <= i < |conditions| ==> conditions[i] == conditions[1..][i - 1];
      }
    }
  }

  /** The subclass's `process` hook over every condition; a condition it
      handles is removed and its scope becomes the current one. */
  function RunProcess(q: QueryClass, scope: Scope, pending: Hash, conditions: Hash): (r: (Scope, Hash))
    ensures forall e :: e in r.1 ==> e in conditions
    decreases |pending|
  {
    if pending == [] then (scope, conditions)
    else
      var (k, v) := pending[0];
      match q.process(scope, k, v)
      case Some(next) => RunProcess(q, next, pending[1..], Delete(conditions, k))
      case None => RunProcess(q, scope, pending[1..], conditions)
  }

  /** `Services::Query#call(ids_or_conditions, _conditions)` */
  function Call(q: QueryClass, first: QueryArg, second: Hash): (r: Outcome<Scope>)
    ensures SplitArguments(first, second).Raised? ==> r == Raised(SplitArguments(first, second).error)
    ensures r.Returned? ==> SplitArguments(first, second).Returned?
  {
    match SplitArguments(first, second)
    case Raised(e) => Raised(e)
    case Returned(split) =>
      var ids := split.0;
      var conditions := WithDefaultOrder(split.1, q.table);
      var given := Lookup(conditions, "scope");
      var rest := Delete(conditions, "scope");
      var base := if given.Some? && Truthy(given.value) then GivenScope(given.value) else AllRecords;
      var scope := Scope(base, if AnyTruthy(ids) then [WhereIn(q.table + ".id", ids)] else []);
      if rest == [] then ApplyConditions(q, scope, rest)
      else match ConvertObjects(q.objectToIdClassNames, rest)
        case Raised(e) => Raised(e)
        case Returned(converted) =>
          var (processed, remaining) := RunProcess(q, scope, converted, converted);
          ApplyConditions(q, processed, remaining)
  }

  /** The relation a query starts from: the `:scope` condition when it is
      truthy, all records otherwise. */
  function StartBase(conditions: Hash): Base
  {
    match Lookup(conditions, "scope")
    case Some(v) => if Truthy(v) then GivenScope(v) else AllRecords
    case None => AllRecords
  }

  /** The id restriction: one `where` on `<table>.id` when some id is truthy. */
  function IdOps(q: QueryClass, ids: seq<Arg>): seq<ScopeOp>
  {
    if AnyTruthy(ids) then [WhereIn(q.table + ".id", ids)] else []
  }

  /** A condition appended under another key does not change a lookup. */
  lemma {:induction false} LookupAppendedOther(h: Hash, k: string, v: Arg, other: string)
    requires other != k
    ensures Lookup(h + [(k, v)], other) == Lookup(h, other)
    decreases |h|
  {
    if h == [] {
      assert [(k, v)][1..] == [];
    } else {
      assert (h + [(k, v)])[1..] == h[1..] + [(k, v)];
      LookupAppendedOther(h[1..], k, v, other);
    }
  }

  /** The final dispatch keeps the base and only appends operations. */
  lemma {:induction false} ApplyConditionsExtends(q: QueryClass, scope: Scope, conditions: Hash)
    ensures var r := ApplyConditions(q, scope, conditions);
            r.Returned? ==> r.value.base == scope.base && |r.value.ops| >= |scope.ops| && r.value.ops[..|scope.ops|] == scope.ops
    decreases |conditions|
  {
    if conditions != [] {
      var s := ApplyCondition(q, scope, conditions[0].0, conditions[0].1);
      if s.Returned? {
        ApplyConditionsExtends(q, s.value, conditions[1..]);
        var r := ApplyConditions(q, s.value, conditions[1..]);
        if r.Returned? {
          assert r.value.ops[..|scope.ops|] == r.value.ops[..|s.value.ops|][..|scope.ops|];
        }
      }
    }
  }

  /** A `process` hook that declines every condition leaves the scope and the
      conditions as they were. */
  lemma {:induction false} RunProcessDeclined(q: QueryClass, scope: Scope, pending: Hash, conditions: Hash)
    requires forall s: Scope, k: string, v: Arg :: q.process(s, k, v).None?
    ensures RunProcess(q, scope, pending, conditions) == (scope, conditions)
    decreases |pending|
  {
    if pending != [] {
      assert q.process(scope, pending[0].0, pending[0].1).None?;
      RunProcessDeclined(q, scope, pending[1..], conditions);
    }
  }

  /** With a `process` hook that declines every condition, a query that
      succeeds starts from the `:scope` condition (all records when there is
      none or it is falsy) and restricts it to the truthy ids before anything
      else. */
  lemma CallStartsFromScopeAndIds(q: QueryClass, first: QueryArg, second: Hash)
    requires forall s: Scope, k: string, v: Arg :: q.process(s, k, v).None?
    ensures var r := Call(q, first, second);
            r.Returned? ==>
              SplitArguments(first, second).Returned?
              && r.value.base == StartBase(SplitArguments(first, second).value.1)
              && |r.value.ops| >= |IdOps(q, SplitArguments(first, second).value.0)|
              && r.value.ops[..|IdOps(q, SplitArguments(first, second).value.0)|] == IdOps(q, SplitArguments(first, second).value.0)
  {
    match SplitArguments(first, second)
    case Raised(_) =>
    case Returned(split) =>
      var conditions := WithDefaultOrder(split.1, q.table);
      if !HasKey(split.1, "order") {
        LookupAppendedOther(split.1, "order", StrArg(q.table + ".id"), "scope");
      }
      assert Lookup(conditions, "scope") == Lookup(split.1, "scope");
      var rest := Delete(conditions, "scope");
      var scope := Scope(StartBase(split.1), IdOps(q, split.0));
      if rest == [] {
        ApplyConditionsExtends(q, scope, rest);
      } else {
        match ConvertObjects(q.objectToIdClassNames, rest)
        case Raised(_) =>
        case Returned(converted) =>
          RunProcessDeclined(q, scope, converted, converted);
          ApplyConditionsExtends(q, scope, converted);
      }
  }

  /** With a `process` hook that declines every condition, a query succeeds
      only if every condition it was given is one it knows, except `:scope`
      and the names whose records are converted to ids. */
  lemma CallRejectsUnknownConditions(q: QueryClass, first: QueryArg, second: Hash)
    requires forall s: Scope, k: string, v: Arg :: q.process(s, k, v).None?
    ensures Call(q, first, second).Returned? ==>
              SplitArguments(first, second).Returned?
              && forall e :: (e in SplitArguments(first, second).value.1 && e.0 != "scope"
                              && !Touched(q.objectToIdClassNames, e.0)) ==> KnownCondition(e.0)
  {
    match SplitArguments(first, second)
    case Raised(_) =>
    case Returned(split) =>
      var conditions := WithDefaultOrder(split.1, q.table);
      var rest := Delete(conditions, "scope");
      assert forall e :: e in split.1 && e.0 != "scope" ==> e in rest;
      var base := Lookup(conditions, "scope");
      var scope := Scope(if base.Some? && Truthy(base.value) then GivenScope(base.value) else AllRecords, IdOps(q, split.0));
      if rest != [] {
        match ConvertObjects(q.objectToIdClassNames, rest)
        case Raised(_) =>
        case Returned(converted) =>
          RunProcessDeclined(q, scope, converted, converted);
          UnknownConditionRaises(q, scope, converted);
          if ApplyConditions(q, scope, converted).Returned? {
            forall e | e in split.1 && e.0 != "scope" && !Touched(q.objectToIdClassNames, e.0)
              ensures KnownCondition(e.0)
            {
              assert e in converted;
              var i :| 0 <= i < |converted| && converted[i] == e;
            }
          }
      }
  }

  /** The default order `<table>.id` is already in the rewritten form. */
  lemma OwnIdOrderKept(q: QueryClass)
    requires ValidTable(q.table)
    ensures RewriteOrder(q, q.table + ".id") == Returned((q.table + ".id", []))
  {
    var order := q.table + ".id";
    TableNameOfPrefixed(q.table, "id");
    assert ',' !in order by {
      forall j | 0 <= j < |order| ensures order[j] != ',' {
        if j < |q.table| { assert order[j] == q.table[j]; }
      }
    }
    SplitOnNoSeparator(order, ',');
    assert StripAround([order]) == [order];
    assert SplitOrder(order) == [order];
    assert q.table + "." + "id" == order;
    assert RewritePart(q, order) == Returned((order, []));
    assert [order][1..] == [];
    assert RewriteParts(q, []) == Returned(([], []));
    var r := RewriteParts(q, [order]);
    assert r.Returned? && r.value.0 == [order] && r.value.1 == [];
    assert Join([order], ", ") == order;
  }

  /** The default order condition alone appends `ORDER BY <table>.id`. */
  lemma OwnIdOrderApplied(q: QueryClass, scope: Scope)
    requires ValidTable(q.table)
    ensures ApplyConditions(q, scope, [("order", StrArg(q.table + ".id"))])
              == Returned(scope.(ops := scope.ops + [OrderBy(q.table + ".id")]))
  {
    var conditions := [("order", StrArg(q.table + ".id"))];
    OwnIdOrderKept(q);
    var ordered := scope.(ops := scope.ops + [] + [OrderBy(q.table + ".id")]);
    assert ApplyCondition(q, scope, "order", StrArg(q.table + ".id")) == Returned(ordered);
    assert conditions[1..] == [];
    assert scope.ops + [] == scope.ops;
  }

  /** A `process` hook that declines `:order` leaves the default order pending. */
  lemma OwnIdOrderNotProcessed(q: QueryClass, scope: Scope)
    requires forall s: Scope, v: Arg :: q.process(s, "order", v).None?
    ensures RunProcess(q, scope, [("order", StrArg(q.table + ".id"))], [("order", StrArg(q.table + ".id"))])
              == (scope, [("order", StrArg(q.table + ".id"))])
  {
    var conditions := [("order", StrArg(q.table + ".id"))];
    assert q.process(scope, "order", StrArg(q.table + ".id")).None?;
    assert conditions[1..] == [];
  }

  /** Ids alone: the records with those ids (when any is truthy), ordered by
      `<table>.id`. */
  lemma IdsAloneOrderedById(q: QueryClass, ids: seq<Arg>)
    requires ValidTable(q.table)
    requires q.objectToIdClassNames == []
    requires forall s: Scope, v: Arg :: q.process(s, "order", v).None?
    ensures Call(q, PlainArg(ArrayArg(ids)), []) ==
              Returned(Scope(AllRecords, (if AnyTruthy(ids) then [WhereIn(q.table + ".id", ids)] else [])
                                         + [OrderBy(q.table + ".id")]))
  {
    var conditions := [("order", StrArg(q.table + ".id"))];
    assert !HasKey([], "order");
    assert WithDefaultOrder([], q.table) == conditions;
    assert !HasKey(conditions, "scope");
    assert Delete(conditions, "scope") == conditions;
    var scope := Scope(AllRecords, if AnyTruthy(ids) then [WhereIn(q.table + ".id", ids)] else []);
    assert ConvertObjects([], conditions) == Returned(conditions);
    OwnIdOrderNotProcessed(q, scope);
    OwnIdOrderApplied(q, scope);
  }

  /** A record given for a name in `convert_condition_objects_to_ids` becomes
      the condition `<name>_id` holding its id. */
  lemma OneRecordBecomesScalarId(name: string, rec: Record)
    ensures ConvertObjects([name], [(name, ObjectArg(rec))]) == Returned([(name + "_id", IntArg(rec.id))])
  {
    var h: Hash := [(name, ObjectArg(rec))];
    assert Lookup(h, name) == Some(ObjectArg(rec));
    assert Delete(h, name) == [];
    assert IdsOf(ObjectArg(rec)) == Returned([rec.id]);
    assert IdCondition([rec.id]) == IntArg(rec.id);
    assert !HasKey([], name + "_id");
    assert Put([], name + "_id", IntArg(rec.id)) == [(name + "_id", IntArg(rec.id))];
    assert [name][1..] == [];
    assert ConvertObjectsRest([name], h, [(name + "_id", IntArg(rec.id))]) == Returned([(name + "_id", IntArg(rec.id))]);
  }
}
