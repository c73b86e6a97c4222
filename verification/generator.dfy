/** `ExpressionGenerator<TEntity>.BuildUpdateExpression`: the `SetProperty` chain of
    an `ExecuteUpdate` call, built either from property selectors read on a model
    entity or from a dictionary of dotted property paths and raw values. The chain
    `c => c.SetProperty(..).SetProperty(..)` is the sequence of its calls in order;
    the empty sequence is `c => c`. */
module Generator {
  import opened Wrappers
  import opened Types
  import opened Text
  import opened Expressions
  import IncludePath

  /** One `SetProperty<T>(selector, value)` call: the selector lambda, the type
      argument `T` and the constant value. */
  datatype Setter = Setter(param: nat, property: Expr, typeArgument: ClrType, value: Value)

  /** A selector lambda with the static type of its body (`Expression.Type`). */
  datatype TypedSelector = TypedSelector(param: nat, body: Expr, bodyType: ClrType)

  // ---- Typed mode: `BuildUpdateExpression(properties, model)`.

  /** What the compiled selector reads on the model. */
  function ReadOn(sel: TypedSelector, model: Value, fns: Delegates): Value {
    Eval(sel.body, map[sel.param := model], fns)
  }

  /** One iteration of the typed loop. `value.GetType()` throws on `null`; the
      setter is typed by the runtime type of the value, and the body is wrapped in
      a conversion exactly when its static type differs from it. */
  function TypedSetter(sel: TypedSelector, model: Value, fns: Delegates): (r: Result<Setter, Exception>)
    ensures r.Success? <==> !ReadOn(sel, model, fns).Null?
    ensures r.Failure? ==> r.error == NullReferenceException
    ensures r.Success? ==> r.value.value == ReadOn(sel, model, fns) && TypeOf(r.value.value) == Some(r.value.typeArgument)
    ensures r.Success? ==> r.value.param == sel.param
    ensures r.Success? && sel.bodyType == r.value.typeArgument ==> r.value.property == sel.body
    ensures r.Success? && sel.bodyType != r.value.typeArgument ==> r.value.property == Convert(sel.body, r.value.typeArgument, false)
  {
    var value := ReadOn(sel, model, fns);
    if value.Null? then Failure(NullReferenceException)
    else
      var t := TypeOf(value).value;
      var property := if sel.bodyType == t then sel.body else Convert(sel.body, t, false);
      Success(Setter(sel.param, property, t, value))
  }

  /** The typed overload: one setter per selector, in list order; the first `null`
      value escapes as `NullReferenceException`. */
  function BuildFromSelectors(properties: seq<TypedSelector>, model: Value, fns: Delegates): (r: Result<seq<Setter>, Exception>)
    ensures r.Success? <==> forall i :: 0 <= i < |properties| ==> !ReadOn(properties[i], model, fns).Null?
    ensures r.Success? ==> |r.value| == |properties|
    ensures r.Success? ==> forall i :: 0 <= i < |properties| ==> TypedSetter(properties[i], model, fns) == Success(r.value[i])
  {
    if |properties| == 0 then Success([])
    else
      var head :- TypedSetter(properties[0], model, fns);
      var tail :- BuildFromSelectors(properties[1..], model, fns);
      assert forall i :: 1 <= i < |properties| ==> properties[i] == properties[1..][i - 1];
      Success([head] + tail)
  }

  /** Evaluating a setter's property on the model gives the setter's value: the
      typed overload writes back what the model already holds, so the update sets
      every selected property of a row to the model's value. */
  lemma TypedSettersCopyModel(properties: seq<TypedSelector>, model: Value, fns: Delegates)
    requires BuildFromSelectors(properties, model, fns).Success?
    ensures var setters := BuildFromSelectors(properties, model, fns).value;
            forall i :: 0 <= i < |setters| ==>
              Eval(setters[i].property, map[setters[i].param := model], fns) == setters[i].value
  {
    var setters := BuildFromSelectors(properties, model, fns).value;
    forall i | 0 <= i < |setters|
      ensures Eval(setters[i].property, map[setters[i].param := model], fns) == setters[i].value
    {
      assert TypedSetter(properties[i], model, fns) == Success(setters[i]);
    }
  }

  // ---- Dictionary mode: `BuildUpdateExpression(propertyUpdates)`.

  /** `PropertySelectorCache`: selectors by property path, shared by all calls. */
  type SelectorCache = map<string, TypedSelector>

  /** `Expression.PropertyOrField` applied segment by segment; an unknown member
      throws `ArgumentException`. */
  function Access(schema: Schema, target: Expr, targetType: ClrType, segments: seq<string>): (r: Result<(Expr, ClrType), Exception>)
    ensures r.Failure? ==> r.error == ArgumentException
    decreases |segments|
  {
    if |segments| == 0 then Success((target, targetType))
    else
      var t := PropertyOrField(schema, targetType, segments[0]);
      if t.None? then Failure(ArgumentException)
      else Access(schema, Member(target, segments[0]), t.value, segments[1..])
  }

  /** The cache's value factory: `e => e.A.B.C` for the path `"A.B.C"`. */
  function ResolvePath(schema: Schema, entityType: ClrType, param: nat, path: string): (r: Result<TypedSelector, Exception>)
    ensures r.Failure? ==> r.error == ArgumentException
    ensures r.Success? ==> r.value.param == param
  {
    var (body, t) :- Access(schema, Param(param), entityType, Split(path, '.'));
    Success(TypedSelector(param, body, t))
  }

  /** `ConcurrentDictionary.GetOrAdd`: a cached selector is reused; otherwise the
      factory runs and its result is stored, unless it throws. */
  function GetOrAdd(cache: SelectorCache, schema: Schema, entityType: ClrType, param: nat, path: string)
    : (r: Result<(TypedSelector, SelectorCache), Exception>)
    ensures path in cache ==> r == Success((cache[path], cache))
    ensures path !in cache ==> r.Success? == ResolvePath(schema, entityType, param, path).Success?
    ensures r.Success? ==> r.value.1 == cache[path := r.value.0]
  {
    if path in cache then Success((cache[path], cache))
    else
      var sel :- ResolvePath(schema, entityType, param, path);
      Success((sel, cache[path := sel]))
  }

  /** The value stored for a raw value: `null` stays `null`; otherwise
      `Convert.ChangeType` to the unwrapped property type, with only an
      `InvalidCastException` replaced by the raw value. */
  function ConvertedValue(rt: Runtime, value: Value, propertyType: ClrType): (r: Result<Value, Exception>)
    ensures value.Null? ==> r == Success(Null)
    ensures !value.Null? && ChangeType(rt, value, propertyType).Converted? ==>
              r == Success(ChangeType(rt, value, propertyType).value)
    ensures !value.Null? && ChangeType(rt, value, propertyType).InvalidCast? ==> r == Success(value)
    ensures r.Failure? ==> r.error in {FormatException, OverflowException}
  {
    if value.Null? then Success(Null)
    else
      match ChangeType(rt, value, propertyType)
      case Converted(v) => Success(v)
      case InvalidCast => Success(value)
      case FormatFailure => Failure(FormatException)
      case OverflowFailure => Failure(OverflowException)
  }

  /** `Expression.Call(body, SetProperty<T>, selector, constant)`: the selector must
      be a `Func<TEntity, T>`, i.e. its body type must be `T`. */
  function SetPropertyCall(sel: TypedSelector, typeArgument: ClrType, value: Value): (r: Result<Setter, Exception>)
    ensures r.Success? <==> sel.bodyType == typeArgument && IsAssignable(value, typeArgument)
    ensures r.Failure? ==> r.error == ArgumentException
    ensures r.Success? ==> r.value == Setter(sel.param, sel.body, typeArgument, value)
  {
    var _ :- Constant(value, typeArgument);
    if sel.bodyType != typeArgument then Failure(ArgumentException)
    else Success(Setter(sel.param, sel.body, typeArgument, value))
  }

  /** One iteration of the dictionary loop. As written, the unwrapped type is used
      both for the conversion and as the type argument of `SetProperty`; corrected,
      the type argument is the property's declared type. */
  function DictionarySetter(rev: Revision, rt: Runtime, schema: Schema, entityType: ClrType, param: nat,
                            cache: SelectorCache, update: Entry): (r: Result<(Setter, SelectorCache), Exception>)
  {
    var (sel, cache') :- GetOrAdd(cache, schema, entityType, param, update.key);
    var setter :- SelectorSetter(rev, rt, sel, update.value);
    Success((setter, cache'))
  }

  /** The loop body once the selector is known: convert the value to the
      unwrapped property type and build the `SetProperty` call. */
  function SelectorSetter(rev: Revision, rt: Runtime, sel: TypedSelector, value: Value): Result<Setter, Exception> {
    var propertyType := Unwrap(sel.bodyType);
    var converted :- ConvertedValue(rt, value, propertyType);
    SetPropertyCall(sel, if rev.AsWritten? then propertyType else sel.bodyType, converted)
  }

  /** The dictionary overload: one setter per entry, in enumeration order, with the
      cache threaded through. */
  function BuildFromDictionary(rev: Revision, rt: Runtime, schema: Schema, entityType: ClrType, param: nat,
                               cache: SelectorCache, updates: seq<Entry>): (r: Result<(seq<Setter>, SelectorCache), Exception>)
    ensures r.Success? ==> |r.value.0| == |updates|
    ensures r.Success? ==> cache.Keys <= r.value.1.Keys
    decreases |updates|
  {
    if |updates| == 0 then Success(([], cache))
    else
      var (head, cache') :- DictionarySetter(rev, rt, schema, entityType, param, cache, updates[0]);
      var (tail, cache'') :- BuildFromDictionary(rev, rt, schema, entityType, param, cache', updates[1..]);
      Success(([head] + tail, cache''))
  }

  /** Every cached selector is the one the factory computes for its path. */
  predicate Consistent(cache: SelectorCache, schema: Schema, entityType: ClrType, param: nat) {
    forall path :: path in cache ==> ResolvePath(schema, entityType, param, path) == Success(cache[path])
  }

  /** The setter an entry yields with no cache at all. */
  function FreshSetter(rev: Revision, rt: Runtime, schema: Schema, entityType: ClrType, param: nat, update: Entry)
    : Result<Setter, Exception>
  {
    var r :- DictionarySetter(rev, rt, schema, entityType, param, map[], update);
    Success(r.0)
  }

  /** One entry from a consistent cache: the setter is the uncached one, and the
      cache stays consistent. */
  lemma CachedStep(rev: Revision, rt: Runtime, schema: Schema, entityType: ClrType, param: nat,
                   cache: SelectorCache, update: Entry)
    requires Consistent(cache, schema, entityType, param)
    ensures var d := DictionarySetter(rev, rt, schema, entityType, param, cache, update);
            && (d.Success? <==> FreshSetter(rev, rt, schema, entityType, param, update).Success?)
            && (d.Success? ==> FreshSetter(rev, rt, schema, entityType, param, update) == Success(d.value.0))
            && (d.Success? ==> Consistent(d.value.1, schema, entityType, param))
  {
    CachedLookup(schema, entityType, param, cache, update.key);
    var g := GetOrAdd(cache, schema, entityType, param, update.key);
    var g0 := GetOrAdd(map[], schema, entityType, param, update.key);
    if g.Success? {
      var s := SelectorSetter(rev, rt, g.value.0, update.value);
      assert DictionarySetter(rev, rt, schema, entityType, param, cache, update) ==
             if s.Success? then Success((s.value, g.value.1)) else Failure(s.error);
      assert DictionarySetter(rev, rt, schema, entityType, param, map[], update) ==
             if s.Success? then Success((s.value, g0.value.1)) else Failure(s.error);
    }
  }

  /** From a consistent cache, `GetOrAdd` fails exactly when the factory does,
      returns the factory's selector, and leaves the cache consistent. */
  lemma CachedLookup(schema: Schema, entityType: ClrType, param: nat, cache: SelectorCache, path: string)
    requires Consistent(cache, schema, entityType, param)
    ensures var g := GetOrAdd(cache, schema, entityType, param, path);
            var f := ResolvePath(schema, entityType, param, path);
            && (g.Success? <==> f.Success?)
            && (g.Success? ==> g.value.0 == f.value && Consistent(g.value.1, schema, entityType, param))
            && (g.Success? ==> GetOrAdd(map[], schema, entityType, param, path).value.0 == f.value)
  {
  }

  /** Reference definition: the setters computed with no cache at all. */
  function BuildUncached(rev: Revision, rt: Runtime, schema: Schema, entityType: ClrType, param: nat, updates: seq<Entry>)
    : Result<seq<Setter>, Exception>
    decreases |updates|
  {
    if |updates| == 0 then Success([])
    else
      var head :- FreshSetter(rev, rt, schema, entityType, param, updates[0]);
      var tail :- BuildUncached(rev, rt, schema, entityType, param, updates[1..]);
      Success([head] + tail)
  }

  /** The cache is invisible: from a consistent cache the dictionary overload
      yields exactly the uncached setters, and the cache stays consistent. */
  lemma {:induction false} CacheIsTransparent(rev: Revision, rt: Runtime, schema: Schema, entityType: ClrType, param: nat,
                                              cache: SelectorCache, updates: seq<Entry>)
    requires Consistent(cache, schema, entityType, param)
    ensures BuildFromDictionary(rev, rt, schema, entityType, param, cache, updates).Success? <==>
            BuildUncached(rev, rt, schema, entityType, param, updates).Success?
    ensures BuildFromDictionary(rev, rt, schema, entityType, param, cache, updates).Success? ==>
              BuildFromDictionary(rev, rt, schema, entityType, param, cache, updates).value.0 ==
                BuildUncached(rev, rt, schema, entityType, param, updates).value
              && Consistent(BuildFromDictionary(rev, rt, schema, entityType, param, cache, updates).value.1, schema, entityType, param)
    decreases |updates|
  {
    if |updates| > 0 {
      var d := DictionarySetter(rev, rt, schema, entityType, param, cache, updates[0]);
      CachedStep(rev, rt, schema, entityType, param, cache, updates[0]);
      if d.Success? {
        CacheIsTransparent(rev, rt, schema, entityType, param, d.value.1, updates[1..]);
      }
    }
  }

  /** The member chain of a resolved path names the path back: reading the
      selector as an include path gives the dictionary key again. */
  lemma {:induction false} AccessNames(schema: Schema, target: Expr, targetType: ClrType, segments: seq<string>)
    requires target.Param? || target.Member?
    requires Access(schema, target, targetType, segments).Success?
    ensures var body := Access(schema, target, targetType, segments).value.0;
            IncludePath.MemberNames(body) == IncludePath.MemberNames(target) + segments
    decreases |segments|
  {
    if |segments| > 0 {
      var next := Member(target, segments[0]);
      AccessNames(schema, next, PropertyOrField(schema, targetType, segments[0]).value, segments[1..]);
      assert IncludePath.MemberNames(next) == IncludePath.MemberNames(target) + [segments[0]];
      assert IncludePath.MemberNames(target) + [segments[0]] + segments[1..] == IncludePath.MemberNames(target) + segments;
    } else {
      assert IncludePath.MemberNames(target) + segments == IncludePath.MemberNames(target);
    }
  }

  /** A resolved selector is the member chain of the path's segments, and its
      include path is the path itself. */
  lemma ResolvedPathRoundTrip(schema: Schema, entityType: ClrType, param: nat, path: string)
    requires ResolvePath(schema, entityType, param, path).Success?
    ensures var body := ResolvePath(schema, entityType, param, path).value.body;
            IncludePath.MemberNames(body) == Split(path, '.') && IncludePath.PathOf(body) == path
  {
    var body := ResolvePath(schema, entityType, param, path).value.body;
    AccessNames(schema, Param(param), entityType, Split(path, '.'));
    assert IncludePath.MemberNames(Param(param)) + Split(path, '.') == Split(path, '.');
    IncludePath.PathLemma(body);
    JoinSplit(path, '.');
  }

  /** An entry's setter: the selector is the one for its path, and the value is the
      converted value; as written the call is rejected for every `Nullable<T>`
      property, corrected it is accepted whenever the converted value fits. */
  lemma DictionarySetterMeaning(rev: Revision, rt: Runtime, schema: Schema, entityType: ClrType, param: nat, update: Entry)
    requires ResolvePath(schema, entityType, param, update.key).Success?
    requires ConvertedValue(rt, update.value, Unwrap(ResolvePath(schema, entityType, param, update.key).value.bodyType)).Success?
    ensures var sel := ResolvePath(schema, entityType, param, update.key).value;
            var converted := ConvertedValue(rt, update.value, Unwrap(sel.bodyType)).value;
            var r := FreshSetter(rev, rt, schema, entityType, param, update);
            && (rev.AsWritten? && sel.bodyType.Nullable? ==> r == Failure(ArgumentException))
            && (rev.Corrected? ==> (r.Success? <==> IsAssignable(converted, sel.bodyType)))
            && (r.Success? ==> r.value == Setter(param, sel.body, sel.bodyType, converted))
  {
    var sel := ResolvePath(schema, entityType, param, update.key).value;
    var converted := ConvertedValue(rt, update.value, Unwrap(sel.bodyType)).value;
    var typeArgument := if rev.AsWritten? then Unwrap(sel.bodyType) else sel.bodyType;
    assert GetOrAdd(map[], schema, entityType, param, update.key) == Success((sel, map[update.key := sel]));
    assert DictionarySetter(rev, rt, schema, entityType, param, map[], update)
      == (var c := SetPropertyCall(sel, typeArgument, converted);
          if c.Success? then Success((c.value, map[update.key := sel])) else Failure(c.error));
    if sel.bodyType.Nullable? {
      assert sel.bodyType.underlying < sel.bodyType;
    }
  }

  /** As written, a `Nullable<int>` property cannot be updated through the
      dictionary overload, not even to `null`; corrected, both updates succeed. */
  lemma NullableUpdateAsWrittenFails(rt: Runtime, v: Value)
    requires v.Null? || v == Number(Int32, 5)
    ensures var schema := map["Person" := map["Age" := MemberInfo(Nullable(Int32), false)]];
            && FreshSetter(AsWritten, rt, schema, Class("Person"), 0, Entry("Age", v)) == Failure(ArgumentException)
            && FreshSetter(Corrected, rt, schema, Class("Person"), 0, Entry("Age", v))
                 == Success(Setter(0, Member(Param(0), "Age"), Nullable(Int32), v))
  {
    var schema := map["Person" := map["Age" := MemberInfo(Nullable(Int32), false)]];
    assert Split("Age", '.') == ["Age"];
    assert Access(schema, Param(0), Class("Person"), ["Age"]) == Success((Member(Param(0), "Age"), Nullable(Int32)));
  }
}
