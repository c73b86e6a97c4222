/** `Sortable` (benchmark model): order a query by one property named at run time.
    A blank name leaves the query alone. Otherwise the name is looked up as a
    property of the entity class; a lookup that throws is swallowed by the `catch`,
    and the query is returned unsorted. */
module Sorting {
  import opened Wrappers
  import opened Types
  import opened Text
  import opened Expressions
  import opened Specification
  import opened Evaluator

  /** The two settable properties; a fresh `Sortable` has no name and
      `IsAscending == false`. */
  datatype Sortable = Sortable(orderBy: Option<string>, isAscending: bool)

  function Default(): (so: Sortable)
    ensures so.orderBy.None? && !so.isAscending
  {
    Sortable(None, false)
  }

  /** The parameter `x` of the generated key lambda. */
  const KeyParam: nat := 0

  /** The operator `ApplySorting` adds, or `None` when it returns the query as it
      was. The key is the single property access `x => x.Name`. */
  function SortingOp(so: Sortable, schema: Schema, entity: ClrType): (op: Option<QueryOp>)
    ensures IsNullOrWhiteSpace(so.orderBy) ==> op.None?
    ensures !IsNullOrWhiteSpace(so.orderBy) && PropertyOnly(schema, entity, so.orderBy.value).None? ==> op.None?
    ensures op.Some? ==> PropertyOnly(schema, entity, so.orderBy.value).Some?
    ensures op.Some? ==> IsSort(op.value) && op.value.key == KeySelector(KeyParam, Member(Param(KeyParam), so.orderBy.value))
    ensures op.Some? ==> (op.value.SortAscending? <==> so.isAscending)
    ensures op.Some? ==> (op.value.SortDescending? <==> !so.isAscending)
  {
    if IsNullOrWhiteSpace(so.orderBy) then None
    else
      var name := so.orderBy.value;
      match PropertyOnly(schema, entity, name)
      case None => None
      case Some(_) =>
        var k := KeySelector(KeyParam, Member(Param(KeyParam), name));
        Some(if so.isAscending then SortAscending(k) else SortDescending(k))
  }

  /** `ApplySorting` on the rows of a query. */
  function ApplySorting(so: Sortable, schema: Schema, entity: ClrType, rows: seq<Value>,
                        keyOf: Value -> Value, rank: Value -> int, fns: Delegates): (r: seq<Value>)
    ensures multiset(r) == multiset(rows)
  {
    match SortingOp(so, schema, entity)
    case None => rows
    case Some(op) => Step(op, rows, keyOf, rank, fns)
  }

  /** What the result is: unchanged for a blank or unknown name, otherwise the
      same rows ordered by the named property, ascending exactly when
      `IsAscending` is set. */
  lemma ApplySortingMeaning(so: Sortable, schema: Schema, entity: ClrType, rows: seq<Value>,
                            keyOf: Value -> Value, rank: Value -> int, fns: Delegates)
    ensures var r := ApplySorting(so, schema, entity, rows, keyOf, rank, fns);
      && (IsNullOrWhiteSpace(so.orderBy) ==> r == rows)
      && (!IsNullOrWhiteSpace(so.orderBy) && PropertyOnly(schema, entity, so.orderBy.value).None? ==> r == rows)
      && (!IsNullOrWhiteSpace(so.orderBy) && PropertyOnly(schema, entity, so.orderBy.value).Some? ==>
            Sorted(r, KeyRank(KeySelector(KeyParam, Member(Param(KeyParam), so.orderBy.value)), rank, fns), !so.isAscending))
  {
  }

  /** Setting only a name on a fresh `Sortable` sorts descending. */
  lemma NameOnlySortsDescending(name: string, schema: Schema, entity: ClrType)
    requires !IsNullOrWhiteSpace(Some(name)) && PropertyOnly(schema, entity, name).Some?
    ensures SortingOp(Default().(orderBy := Some(name)), schema, entity).value.SortDescending?
  {
  }

  /** A dotted path is not resolved: in a schema of identifier names no property
      is called `A.B`, so such a name sorts nothing. */
  lemma DottedNameIsIgnored(so: Sortable, schema: Schema, entity: ClrType)
    requires WellFormedSchema(schema)
    requires so.orderBy.Some? && '.' in so.orderBy.value
    ensures SortingOp(so, schema, entity).None?
  {
  }
}
