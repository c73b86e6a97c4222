/** The slice of the .NET type system the library inspects: declared types, boxed
    runtime values, JSON elements, entity schemas, the `TypeExtension` type tests
    and the outline of `Convert.ChangeType`. */
module Types {
  import opened Wrappers

  /** Declared (static) types of properties, fields and expressions. */
  datatype ClrType =
    | Int32 | Int64 | Int16 | UInt16 | UInt32 | UInt64 | Byte | SByte
    | Single | Double | Decimal
    | Boolean | Char | String
    | DateTime | DateTimeOffset | Guid
    | Object
    | Nullable(underlying: ClrType)
    | Class(name: string)
    | ArrayOf(element: ClrType)

  /** `Nullable.GetUnderlyingType(t) ?? t`. */
  function Unwrap(t: ClrType): (u: ClrType)
    ensures t.Nullable? ==> u == t.underlying
    ensures !t.Nullable? ==> u == t
  {
    if t.Nullable? then t.underlying else t
  }

  /** `Type.IsPrimitive`: the CLR primitive types that occur in this model. */
  predicate IsPrimitive(t: ClrType) {
    t in {Int32, Int64, Int16, UInt16, UInt32, UInt64, Byte, SByte, Single, Double, Boolean, Char}
  }

  /** `typeof(IComparable).IsAssignableFrom(t)`: the primitives, `decimal`, `string`,
      the date types and `Guid` implement `IComparable`; `Nullable<T>`, `object`,
      arrays and entity classes do not. */
  predicate ImplementsIComparable(t: ClrType) {
    IsPrimitive(t) || t in {Decimal, String, DateTime, DateTimeOffset, Guid}
  }

  /** `TypeExtension.IsNumeric`: the eleven built-in numeric value types, all of
      them comparable. A `Nullable<T>` is never numeric, whatever `T` is. */
  function IsNumeric(t: ClrType): (b: bool)
    ensures b ==> IsComparable(t) && IsValueType(t) && Unwrap(t) == t
    ensures t.Nullable? || t == Boolean || t == Char || t == String || t == DateTime ==> !b
  {
    || t == Int32 || t == Int64 || t == Single
    || t == Double || t == Decimal || t == Int16
    || t == Byte || t == UInt32 || t == UInt64
    || t == UInt16 || t == SByte
  }

  /** `TypeExtension.IsComparable`: `string`, the primitives and every type
      implementing `IComparable`; `Nullable<T>` and `object` are neither. */
  function IsComparable(t: ClrType): (b: bool)
    ensures t == String || t == Boolean || t == Char || t == DateTime || t == Decimal ==> b
    ensures t.Nullable? || t.Object? ==> !b
  {
    ImplementsIComparable(t) || IsPrimitive(t) || t == String
  }

  /** Exactly the scalar types are comparable; a `Nullable<T>` wrapper is not, since
      `Nullable<T>` neither is primitive nor implements `IComparable`. Every numeric
      type is among them. */
  lemma ComparableIffScalar(t: ClrType)
    ensures IsComparable(t) <==> !(t.Object? || t.Nullable? || t.Class? || t.ArrayOf?)
    ensures IsNumeric(t) ==> IsComparable(t)
  {
  }

  /** Value types cannot hold `null`. */
  predicate IsValueType(t: ClrType) {
    !(t.String? || t.Object? || t.Class? || t.ArrayOf?)
  }

  /** Types C# can spell: `Nullable<T>` wraps only a non-nullable value type. */
  predicate Declarable(t: ClrType) {
    match t
    case Nullable(u) => IsValueType(u) && !u.Nullable?
    case ArrayOf(e) => Declarable(e)
    case _ => true
  }

  /** Only `string` itself unwraps to `string`. */
  lemma UnwrapString(t: ClrType)
    requires Declarable(t)
    ensures Unwrap(t) == String <==> t == String
  {
  }

  /** A JSON element as `System.Text.Json` presents it; numbers keep their text. */
  datatype Json =
    | JString(s: string)
    | JNumber(text: string)
    | JTrue
    | JFalse
    | JNull
    | JUndefined
    | JArray(items: seq<Json>)
    | JObject(members: seq<JsonProperty>)

  /** One name/value pair of a JSON object, in document order. */
  datatype JsonProperty = JsonProperty(name: string, value: Json)

  /** A boxed runtime value (`object`). */
  datatype Value =
    | Null
    | Number(ty: ClrType, n: int)                 // integral types and `decimal` (integer-valued)
    | Fractional(ty: ClrType, text: string)       // `float`/`double`, left uninterpreted
    | Truth(b: bool)
    | Letter(c: char)
    | Str(s: string)
    | Moment(ty: ClrType, ticks: int)             // `DateTime` / `DateTimeOffset`
    | List(items: seq<Value>)                     // `object[]`
    | Dict(entries: seq<Entry>)                   // `Dictionary<string, object>`, enumeration order
    | Element(json: Json)                         // an unconverted `JsonElement`
    | Record(cls: string, fields: map<string, Value>) // an entity instance

  /** One key/value pair of a `Dictionary<string, object>`. */
  datatype Entry = Entry(key: string, value: Value)

  /** `value.GetType()`; `None` for `null`, where the call throws. */
  function TypeOf(v: Value): (t: Option<ClrType>)
    ensures t.None? <==> v.Null?
  {
    match v
    case Null => None
    case Number(ty, _) => Some(ty)
    case Fractional(ty, _) => Some(ty)
    case Truth(_) => Some(Boolean)
    case Letter(_) => Some(Char)
    case Str(_) => Some(String)
    case Moment(ty, _) => Some(ty)
    case List(_) => Some(ArrayOf(Object))
    case Dict(_) => Some(Class("Dictionary"))
    case Element(_) => Some(Class("JsonElement"))
    case Record(cls, _) => Some(Class(cls))
  }

  /** `value is IConvertible`: the primitives, `decimal`, `string` and `DateTime`. */
  predicate IsConvertible(v: Value) {
    v.Number? || v.Fractional? || v.Truth? || v.Letter? || v.Str? || (v.Moment? && v.ty == DateTime)
  }

  /** Outcome of a `Convert.ChangeType` call: a value or the exception it throws. */
  datatype Conversion = Converted(value: Value) | InvalidCast | FormatFailure | OverflowFailure

  /** The parts of the .NET runtime this model leaves uninterpreted: the type-specific
      rules of `IConvertible.ToType` and `DateTime.TryParse` (result in ticks). */
  datatype Runtime = Runtime(convert: (Value, ClrType) -> Conversion, tryParseDate: string -> Option<int>)

  /** `Convert.ChangeType(value, conversionType)`: the generic checks are modelled,
      the per-type conversion is the runtime's. */
  function ChangeType(rt: Runtime, v: Value, ty: ClrType): (c: Conversion)
    ensures v.Null? ==> (c.Converted? <==> !IsValueType(ty)) && (c.Converted? ==> c.value == Null)
    ensures !v.Null? && TypeOf(v) == Some(ty) ==> c == Converted(v)
    ensures !v.Null? && TypeOf(v) != Some(ty) && !IsConvertible(v) ==> c == InvalidCast
  {
    if v.Null? then (if IsValueType(ty) then InvalidCast else Converted(Null))
    else if TypeOf(v) == Some(ty) then Converted(v)
    else if !IsConvertible(v) then InvalidCast
    else if ty == Object then Converted(v)
    else rt.convert(v, ty)
  }

  /** Which reading of the library a definition follows where the model records a
      defect: the code as written, or the evidently intended behaviour. */
  datatype Revision = AsWritten | Corrected

  /** The exceptions the library lets escape, by .NET type. */
  datatype Exception =
    | ArgumentException
    | InvalidOperationException
    | IndexOutOfRangeException
    | InvalidCastException
    | FormatException
    | OverflowException
    | NullReferenceException

  /** A `Convert.ChangeType` outcome as a value or the exception it throws. */
  function Converting(c: Conversion): (r: Result<Value, Exception>)
    ensures r.Success? <==> c.Converted?
    ensures c.Converted? ==> r.value == c.value
    ensures c.InvalidCast? ==> r == Failure(InvalidCastException)
  {
    match c
    case Converted(v) => Success(v)
    case InvalidCast => Failure(InvalidCastException)
    case FormatFailure => Failure(FormatException)
    case OverflowFailure => Failure(OverflowException)
  }

  /** `type.IsAssignableFrom(value.GetType())`, with `null` assignable to reference
      and `Nullable<T>` types, and `T` assignable to `Nullable<T>`. */
  predicate IsAssignable(v: Value, t: ClrType) {
    if v.Null? then !IsValueType(t) || t.Nullable?
    else t == Object || TypeOf(v) == Some(t) || (t.Nullable? && TypeOf(v) == Some(t.underlying))
  }

  /** The cast `(T)obj` from `object`: unboxing `null` to a non-nullable value type
      throws `NullReferenceException`, any other mismatch `InvalidCastException`. */
  function Unbox(v: Value, t: ClrType): (r: Result<Value, Exception>)
    ensures r.Success? <==> IsAssignable(v, t)
    ensures r.Success? ==> r.value == v
  {
    if IsAssignable(v, t) then Success(v)
    else if v.Null? then Failure(NullReferenceException)
    else Failure(InvalidCastException)
  }

  /** How a member is declared on its type. */
  datatype MemberInfo = MemberInfo(ty: ClrType, isField: bool)

  /** Declared members of each entity class, by class name and member name. */
  type Schema = map<string, map<string, MemberInfo>>

  /** `Expression.PropertyOrField`, for entity classes only: members of built-in types
      (`string.Length`, `DateTime.Year`, `Nullable<T>.Value`) are not modelled. */
  function PropertyOrField(schema: Schema, owner: ClrType, name: string): (r: Option<ClrType>)
    ensures r.Some? <==> owner.Class? && owner.name in schema && name in schema[owner.name]
    ensures r.Some? ==> r.value == schema[owner.name][name].ty
  {
    if owner.Class? && owner.name in schema && name in schema[owner.name]
    then Some(schema[owner.name][name].ty) else None
  }

  /** `Expression.Property(e, name)`: properties only, never fields. */
  function PropertyOnly(schema: Schema, owner: ClrType, name: string): (r: Option<ClrType>)
    ensures r.Some? <==> PropertyOrField(schema, owner, name).Some? && !schema[owner.name][name].isField
    ensures r.Some? ==> r == PropertyOrField(schema, owner, name)
  {
    var m := PropertyOrField(schema, owner, name);
    if m.Some? && !schema[owner.name][name].isField then m else None
  }

  /** Member names are C# identifiers: non-empty and free of dots. */
  predicate WellFormedSchema(schema: Schema) {
    forall c, m :: c in schema && m in schema[c] ==> |m| > 0 && '.' !in m
  }
}
