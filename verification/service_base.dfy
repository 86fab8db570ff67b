/** `Services::Base` (lib/services/base.rb): what every service class gets
    when it is defined (its own `Error` class and the three prepended layers),
    the id of a new service instance, and the helpers that turn a mix of ids
    and records into ids or records. */
module ServiceBase {
  import opened Values
  import opened Text
  import opened Errors

  // ---------------------------------------------------------------------------
  // Defining a service class

  /** The modules `inherited` prepends to every service class. */
  datatype Layer = CallLoggerLayer | ExceptionWrapperLayer | UniquenessCheckerLayer

  /** An entry of `ancestors`: a prepended layer, or a class or included module by name. */
  datatype Ancestor = Prepended(layer: Layer) | Named(name: string)

  /** `Module#prepend(m1, ..., mn)`: the modules are prepended one at a time,
      the last argument first, each in front of everything so far. */
  function Prepend(mods: seq<Layer>, ancestors: seq<Ancestor>): seq<Ancestor>
    decreases |mods|
  {
    if mods == [] then ancestors
    else Prepend(mods[..|mods| - 1], [Prepended(mods[|mods| - 1])] + ancestors)
  }

  function AsAncestors(mods: seq<Layer>): (r: seq<Ancestor>)
    ensures |r| == |mods| && forall i :: 0 <= i < |mods| ==> r[i] == Prepended(mods[i])
  {
    seq(|mods|, i requires 0 <= i < |mods| => Prepended(mods[i]))
  }

  /** Prepending in reverse order puts the modules in front in argument order:
      the first argument is the outermost layer. */
  lemma {:induction false} PrependKeepsArgumentOrder(mods: seq<Layer>, ancestors: seq<Ancestor>)
    ensures Prepend(mods, ancestors) == AsAncestors(mods) + ancestors
    decreases |mods|
  {
    if mods != [] {
      var init := mods[..|mods| - 1];
      PrependKeepsArgumentOrder(init, [Prepended(mods[|mods| - 1])] + ancestors);
      assert AsAncestors(init) + ([Prepended(mods[|mods| - 1])] + ancestors) == AsAncestors(mods) + ancestors;
    }
  }

  /** A service class after `inherited`: its name, its `Error` and
      `NotUniqueError` constants, and its ancestors. */
  datatype ServiceClass = ServiceClass(name: string, error: ErrorClass, notUniqueError: ErrorClass, ancestors: seq<Ancestor>)

  /** `Services::Base.inherited(subclass)`: `ownAncestors` are the subclass's
      ancestors before the prepend (the class itself first). */
  function Inherited(name: string, ownAncestors: seq<Ancestor>): (r: ServiceClass)
    // `call` is resolved through CallLogger, then ExceptionWrapper, then
    // UniquenessChecker, then the class's own `call`
    ensures r.ancestors == [Prepended(CallLoggerLayer), Prepended(ExceptionWrapperLayer), Prepended(UniquenessCheckerLayer)]
                             + ownAncestors
    // `S::Error` is a StandardError that belongs to this service
    ensures IsStandard(r.error) && InServiceFamily(r.error, name)
    // `S::NotUniqueError` is a subclass of `S::Error`, and a different class
    ensures IsA(r.notUniqueError, r.error) && r.notUniqueError != r.error
  {
    var layers := [CallLoggerLayer, ExceptionWrapperLayer, UniquenessCheckerLayer];
    PrependKeepsArgumentOrder(layers, ownAncestors);
    assert AsAncestors(layers) == [Prepended(CallLoggerLayer), Prepended(ExceptionWrapperLayer), Prepended(UniquenessCheckerLayer)];
    assert Parent(ServiceError(name)) == Some(StandardError) && IsA(StandardError, StandardError);
    ServiceClass(name, ServiceError(name), NotUniqueError(name), Prepend(layers, ownAncestors))
  }

  /** Each service class has its own `Error`: an error of one service's family
      is never in another's, so one service's wrapper does not pass another's
      errors through. */
  lemma ErrorsAreOwnedByOneService(a: string, b: string, ancA: seq<Ancestor>, ancB: seq<Ancestor>)
    requires a != b
    ensures Inherited(a, ancA).error != Inherited(b, ancB).error
    ensures !InServiceFamily(Inherited(a, ancA).error, b)
    ensures !InServiceFamily(Inherited(a, ancA).notUniqueError, b)
  {
    assert !IsA(StandardError, ServiceError(b)) by {
      assert Parent(StandardError) == Some(ExceptionRoot);
      assert !IsA(ExceptionRoot, ServiceError(b));
    }
    assert !IsA(ServiceError(a), ServiceError(b));
  }

  // ---------------------------------------------------------------------------
  // The id of a new service instance

  /** `SecureRandom.hex(6)`, given the six random bytes. */
  function NewId(random: seq<byte>): (id: string)
    requires |random| == 6
    ensures |id| == 12 && forall i :: 0 <= i < |id| ==> IsHexDigit(id[i])
    // the id encodes the random bytes and nothing else
    ensures Unhex(id) == random
  {
    UnhexHex(random);
    Hex(random)
  }

  // ---------------------------------------------------------------------------
  // Ids and records

  /** What the helpers need from Ruby and ActiveSupport: `inspect`, the class
      name of a value, and `String#pluralize`. */
  datatype Ruby = Ruby(inspect: Arg -> string, className: Arg -> string, pluralize: string -> string)

  /** `grep(Integer)`: the integers, in order. */
  function Ids(items: seq<Arg>): (r: seq<int>)
    ensures |r| <= |items|
    decreases |items|
  {
    if items == [] then []
    else
      var last := items[|items| - 1];
      Ids(items[..|items| - 1]) + (if last.IntArg? then [last.i] else [])
  }

  /** `grep(klass)`: the records of class `klass`, in order. */
  function Instances(items: seq<Arg>, klass: string): (r: seq<Record>)
    ensures |r| <= |items|
    ensures forall j :: 0 <= j < |r| ==> r[j].cls == klass
    decreases |items|
  {
    if items == [] then []
    else
      var last := items[|items| - 1];
      Instances(items[..|items| - 1], klass) + (if last.ObjectArg? && last.rec.cls == klass then [last.rec] else [])
  }

  predicate IdOrInstance(a: Arg, klass: string)
  {
    a.IntArg? || (a.ObjectArg? && a.rec.cls == klass)
  }

  /** No element is both an id and a record, so the two greps together keep
      every element exactly when each is one or the other. */
  lemma {:induction false} PartitionCount(items: seq<Arg>, klass: string)
    ensures |Ids(items)| + |Instances(items, klass)| <= |items|
    ensures |Ids(items)| + |Instances(items, klass)| == |items| <==>
              forall i :: 0 <= i < |items| ==> IdOrInstance(items[i], klass)
    decreases |items|
  {
    if items != [] {
      var init := items[..|items| - 1];
      PartitionCount(init, klass);
      assert forall i :: 0 <= i < |init| ==> init[i] == items[i];
    }
  }

  /** The message of the error `_split_ids_and_objects` raises: every element
      shown as `Class - inspect`. */
  function SplitMessage(ruby: Ruby, items: seq<Arg>, klass: string): string
  {
    var shown := seq(|items|, i requires 0 <= i < |items| => StrArg(ruby.className(items[i]) + " - " + ruby.inspect(items[i])));
    "All params must be either " + ruby.pluralize(klass) + " or Integers: " + ruby.inspect(ArrayArg(shown))
  }

  /** `_split_ids_and_objects(ids_or_objects, klass)` */
  function SplitIdsAndObjects(ruby: Ruby, idsOrObjects: Arg, klass: string): (r: Outcome<(seq<int>, seq<Record>)>)
    // it succeeds exactly when every element is an Integer or a `klass`
    ensures r.Returned? <==> forall i :: 0 <= i < |ToArray(idsOrObjects)| ==> IdOrInstance(ToArray(idsOrObjects)[i], klass)
    // and then every element lands in exactly one of the two lists, order kept
    ensures r.Returned? ==> r.value == (Ids(ToArray(idsOrObjects)), Instances(ToArray(idsOrObjects), klass))
                            && |r.value.0| + |r.value.1| == |ToArray(idsOrObjects)|
    ensures r.Raised? ==> r.error == Runtime(SplitMessage(ruby, ToArray(idsOrObjects), klass))
  {
    var items := ToArray(idsOrObjects);
    var ids, objects := Ids(items), Instances(items, klass);
    PartitionCount(items, klass);
    if |ids| + |objects| < |items| then Raised(Runtime(SplitMessage(ruby, items, klass)))
    else Returned((ids, objects))
  }

  function RecordIds(records: seq<Record>): (r: seq<int>)
    ensures |r| == |records| && forall i :: 0 <= i < |r| ==> r[i] == records[i].id
  {
    seq(|records|, i requires 0 <= i < |records| => records[i].id)
  }

  /** `find_ids(ids_or_objects, klass)` */
  function FindIds(ruby: Ruby, idsOrObjects: Arg, klass: string): (r: Outcome<seq<int>>)
    ensures r.Returned? <==> SplitIdsAndObjects(ruby, idsOrObjects, klass).Returned?
    // the integer ids, then the ids of the given records, each group in order
    ensures r.Returned? ==>
              r.value == Ids(ToArray(idsOrObjects)) + RecordIds(Instances(ToArray(idsOrObjects), klass))
    ensures r.Raised? ==> r.error == SplitIdsAndObjects(ruby, idsOrObjects, klass).error
  {
    match SplitIdsAndObjects(ruby, idsOrObjects, klass)
    case Raised(e) => Raised(e)
    case Returned(split) => Returned(split.0 + RecordIds(split.1))
  }

  /** Ruby's `Array#-`: the elements of `xs` that are not in `ys`, in order and
      with their repetitions. */
  function Minus(xs: seq<int>, ys: seq<int>): (r: seq<int>)
    ensures forall x :: x in r <==> x in xs && x !in ys
    ensures |r| <= |xs|
    decreases |xs|
  {
    if xs == [] then []
    else (if xs[0] in ys then [] else [xs[0]]) + Minus(xs[1..], ys)
  }

  lemma MinusEmpty(xs: seq<int>, ys: seq<int>)
    ensures Minus(xs, ys) == [] <==> forall x :: x in xs ==> x in ys
  {
    var r := Minus(xs, ys);
    if r != [] {
      var w := r[0];
      assert w in r;
      assert w in xs && w !in ys;
    }
  }

  /** The message naming the ids the find service did not return, as written:
      `pluralize(missing_ids)` is given an array where a count is expected, so
      the class name is always pluralized. */
  function MissingMessageAsWritten(ruby: Ruby, klass: string, missing: seq<int>): string
  {
    ruby.pluralize(klass) + " " + Join(seq(|missing|, i requires 0 <= i < |missing| => IntToString(missing[i])), ", ") + " not found."
  }

  /** A single missing id is reported with the plural class name, so for any
      class whose plural differs from its name the message is not the
      singular one. */
  lemma MissingMessageAsWrittenPluralizesOne(ruby: Ruby, klass: string, id: int)
    requires ruby.pluralize(klass) != klass
    ensures MissingMessageAsWritten(ruby, klass, [id]) == ruby.pluralize(klass) + " " + IntToString(id) + " not found."
    ensures MissingMessageAsWritten(ruby, klass, [id]) != MissingMessage(ruby, klass, [id])
  {
    assert seq(1, i requires 0 <= i < 1 => IntToString([id][i])) == [IntToString(id)];
    var tail := " " + IntToString(id) + " not found.";
    assert MissingMessageAsWritten(ruby, klass, [id]) == ruby.pluralize(klass) + tail;
    assert MissingMessage(ruby, klass, [id]) == klass + tail;
    DifferentHeads(ruby.pluralize(klass), klass, tail);
  }

  /** Two strings with different heads and the same tail differ. */
  lemma DifferentHeads(a: string, b: string, tail: string)
    requires a != b
    ensures a + tail != b + tail
  {
    if |a| == |b| {
      var j :| 0 <= j < |a| && a[j] != b[j];
      assert (a + tail)[j] == a[j] && (b + tail)[j] == b[j];
    } else {
      assert |a + tail| != |b + tail|;
    }
  }

  /** The message as intended: singular for one missing id, plural otherwise. */
  function MissingMessage(ruby: Ruby, klass: string, missing: seq<int>): (m: string)
    ensures |missing| == 1 ==> m == klass + " " + IntToString(missing[0]) + " not found."
    ensures |missing| != 1 ==> m == MissingMessageAsWritten(ruby, klass, missing)
  {
    var noun := if |missing| == 1 then klass else ruby.pluralize(klass);
    var listed := Join(seq(|missing|, i requires 0 <= i < |missing| => IntToString(missing[i])), ", ");
    assert |missing| == 1 ==> seq(|missing|, i requires 0 <= i < |missing| => IntToString(missing[i])) == [IntToString(missing[0])];
    noun + " " + listed + " not found."
  }

  /** `find_service(klass)`: the names tried for the find service. */
  function FindServiceCandidates(ruby: Ruby, klass: string): seq<string>
  {
    ["Services::" + ruby.pluralize(klass) + "::Find", ruby.pluralize(klass) + "::Find"]
  }

  /** The find service of a class, if one of the candidate constants exists:
      from ids to the records it found. */
  type Finder = Option<seq<int> -> seq<Record>>

  /** `find_objects(ids_or_objects, klass)` in the service `service`. */
  function FindObjects(ruby: Ruby, service: string, finder: Finder, idsOrObjects: Arg, klass: string): (r: Outcome<seq<Record>>)
    ensures SplitIdsAndObjects(ruby, idsOrObjects, klass).Raised? ==>
              r == Raised(SplitIdsAndObjects(ruby, idsOrObjects, klass).error)
    // only records were given: they are the result, in order
    ensures SplitIdsAndObjects(ruby, idsOrObjects, klass).Returned? && Ids(ToArray(idsOrObjects)) == [] ==>
              r == Returned(Instances(ToArray(idsOrObjects), klass))
    // ids were given but there is no find service
    ensures SplitIdsAndObjects(ruby, idsOrObjects, klass).Returned? && Ids(ToArray(idsOrObjects)) != [] && finder.None? ==>
              r.Raised? && r.error.cls == ServiceError(service)
              && r.error.message == "Could not find find service (tried: " + Join(FindServiceCandidates(ruby, klass), ", ") + ")"
    // ids were given: the records given, then the records found; it raises
    // the service's Error exactly when some id was not found, naming those ids
    ensures SplitIdsAndObjects(ruby, idsOrObjects, klass).Returned? && Ids(ToArray(idsOrObjects)) != [] && finder.Some? ==>
              var ids := Ids(ToArray(idsOrObjects));
              var found := finder.value(ids);
              var missing := Minus(ids, RecordIds(found));
              (r.Returned? <==> forall x :: x in ids ==> x in RecordIds(found))
              && (r.Raised? ==> r.error.cls == ServiceError(service) && r.error.message == MissingMessageAsWritten(ruby, klass, missing))
              && (r.Returned? ==> r.value == Instances(ToArray(idsOrObjects), klass) + found)
  {
    match SplitIdsAndObjects(ruby, idsOrObjects, klass)
    case Raised(e) => Raised(e)
    case Returned(split) =>
      var (ids, objects) := split;
      if ids == [] then Returned(objects)
      else match finder
        case None =>
          Raised(Exception(ServiceError(service),
            "Could not find find service (tried: " + Join(FindServiceCandidates(ruby, klass), ", ") + ")", [], None))
        case Some(find) =>
          var found := find(ids);
          var missing := Minus(ids, RecordIds(found));
          MinusEmpty(ids, RecordIds(found));
          assert ids == Ids(ToArray(idsOrObjects)) && found == finder.value(Ids(ToArray(idsOrObjects)));
          if |missing| > 0 then Raised(Exception(ServiceError(service), MissingMessageAsWritten(ruby, klass, missing), [], None))
          else Returned(objects + found)
  }

  /** The find service is consulted only when some ids were given. */
  lemma FinderOnlyConsultedForIds(ruby: Ruby, service: string, f1: Finder, f2: Finder, idsOrObjects: Arg, klass: string)
    requires Ids(ToArray(idsOrObjects)) == []
    ensures FindObjects(ruby, service, f1, idsOrObjects, klass) == FindObjects(ruby, service, f2, idsOrObjects, klass)
  {
  }

  function ExactlyOneMessage(count: nat): string
  {
    "Expected exactly one object or ID but found " + NatToString(count) + "."
  }

  /** `find_object` / `find_id`: the only element of what the plural helper
      returned, or an error unless there is exactly one. */
  function ExactlyOne<T>(found: Outcome<seq<T>>): (r: Outcome<T>)
    ensures found.Raised? ==> r == Raised(found.error)
    ensures found.Returned? ==> (r.Returned? <==> |found.value| == 1)
    ensures r.Returned? ==> found.Returned? && found.value == [r.value]
    ensures found.Returned? && |found.value| != 1 ==> r == Raised(Runtime(ExactlyOneMessage(|found.value|)))
  {
    match found
    case Raised(e) => Raised(e)
    case Returned(xs) =>
      if |xs| == 1 then Returned(xs[0]) else Raised(Runtime(ExactlyOneMessage(|xs|)))
  }

  function FindObject(ruby: Ruby, service: string, finder: Finder, idsOrObjects: Arg, klass: string): Outcome<Record>
  {
    ExactlyOne(FindObjects(ruby, service, finder, idsOrObjects, klass))
  }

  function FindId(ruby: Ruby, idsOrObjects: Arg, klass: string): Outcome<int>
  {
    ExactlyOne(FindIds(ruby, idsOrObjects, klass))
  }

  /** A single id, or a single record of the class, is found as itself. */
  lemma FindIdOfOne(ruby: Ruby, x: Arg, klass: string)
    requires IdOrInstance(x, klass)
    ensures FindId(ruby, x, klass) == Returned(if x.IntArg? then x.i else x.rec.id)
  {
    assert ToArray(x) == [x];
    assert [x][..0] == [];
  }
}
