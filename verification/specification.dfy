/** `Specification<TEntity>`: the record a query is described by, its two public
    constructors and its `Add*` / `Set*` mutators.

    The published sources disagree about the record's shape: the interface read by
    `OrderableSpecification` has members (`OrderByExpressions`, `IncludeActions`,
    `ExecuteUpdateProperties`, `AppendThenBy`) that the shown class lacks. The model
    is the union of the two: every field either version declares. Mutation is
    modelled as a functional update that returns the changed record. */
module Specification {
  import opened Wrappers
  import opened Types
  import opened Expressions
  import Combiner

  type Pred = Combiner.Pred

  /** `Expression<Func<TEntity, object>>` (or of any key type): a key or include
      selector. */
  datatype KeySelector = KeySelector(param: nat, body: Expr)

  /** One entry of `OrderByExpressions`: a key and its direction. */
  datatype OrderKey = OrderKey(key: KeySelector, isDescending: bool)

  /** `CombineType`: how the list constructor folds its expressions. */
  datatype CombineType = And | Or

  /** The record. Delegate-valued members (`IncludeActions`, the
      `ExecuteUpdateExpression` builder) are opaque numbers. */
  datatype Spec = Spec(
    primaryKey: Option<Value>,
    criteria: Option<Pred>,
    asSplitQuery: bool,
    asNoTracking: bool,
    includeExpressions: seq<KeySelector>,
    includeStrings: seq<string>,
    includeActions: seq<nat>,
    orderBy: Option<KeySelector>,
    orderByDescending: Option<KeySelector>,
    orderByExpressions: seq<OrderKey>,
    projection: Option<KeySelector>,
    executeUpdate: Option<nat>,
    executeUpdateProperties: seq<KeySelector>)

  /** A record as the field initialisers leave it: every list empty, every
      optional member null, both flags off. */
  function Blank(): (s: Spec)
    ensures s.primaryKey.None? && s.criteria.None?
    ensures s.orderBy.None? && s.orderByDescending.None?
    ensures !s.asSplitQuery && !s.asNoTracking
  {
    Spec(None, None, false, false, [], [], [], None, None, [], None, None, [])
  }

  /** The list constructor: `Criteria` is the AND fold of the expressions when the
      combine type is `And`, the OR fold otherwise; no primary key is set. */
  function FromExpressions(es: seq<Pred>, combineType: CombineType, asNoTracking: bool, asSplitQuery: bool,
                           shared: nat): (s: Spec)
    requires Combiner.AllWellFormed(es)
    ensures s.criteria.Some? && Combiner.WellFormed(s.criteria.value)
    ensures s.primaryKey.None?
    ensures s.asNoTracking == asNoTracking && s.asSplitQuery == asSplitQuery
    ensures s.includeExpressions == [] && s.includeStrings == [] && s.orderByExpressions == []
    ensures s.orderBy.None? && s.orderByDescending.None?
  {
    var criteria := if combineType == And then Combiner.CombineWithAnd(es, shared)
                    else Combiner.CombineWithOr(es, shared);
    Blank().(criteria := Some(criteria), asNoTracking := asNoTracking, asSplitQuery := asSplitQuery)
  }

  /** The primary-key constructor: the key is stored as given (possibly null) and
      `Criteria` stays null. */
  function FromPrimaryKey(primaryKey: Option<Value>, asNoTracking: bool, asSplitQuery: bool): (s: Spec)
    ensures s.primaryKey == primaryKey
    ensures s.criteria.None?
    ensures s.asNoTracking == asNoTracking && s.asSplitQuery == asSplitQuery
    ensures s.includeExpressions == [] && s.includeStrings == []
    ensures s.orderBy.None? && s.orderByDescending.None?
  {
    Blank().(primaryKey := primaryKey, asNoTracking := asNoTracking, asSplitQuery := asSplitQuery)
  }

  /** What an entity satisfies under the list constructor's criteria: with `And`
      every expression, with `Or` (over expressions other than the `True`
      sentinel) some expression; an empty list admits everything. */
  lemma FromExpressionsMeaning(es: seq<Pred>, combineType: CombineType, asNoTracking: bool, asSplitQuery: bool,
                               shared: nat, x: Value, fns: Delegates)
    requires Combiner.AllWellFormed(es)
    ensures var c := FromExpressions(es, combineType, asNoTracking, asSplitQuery, shared).criteria.value;
      && (combineType == And ==> (Combiner.Matches(c, x, fns) <==> forall i :: 0 <= i < |es| ==> Combiner.Matches(es[i], x, fns)))
      && (combineType == Or && |es| >= 1 && (forall i :: 0 <= i < |es| ==> es[i] != Combiner.TrueS) ==>
            (Combiner.Matches(c, x, fns) <==> exists i :: 0 <= i < |es| && Combiner.Matches(es[i], x, fns)))
      && (|es| == 0 ==> c == Combiner.TrueS)
  {
    Combiner.CombineWithAndMeaning(es, shared, x, fns);
    if forall i :: 0 <= i < |es| ==> es[i] != Combiner.TrueS {
      Combiner.CombineWithOrMeaning(es, shared, x, fns);
    }
  }

  /** The mutators of the record (and the setters the newer interface exposes). */
  datatype Edit =
    | SetCriteria(criteria: Option<Pred>)
    | SetAsSplitQuery(flag: bool)
    | SetAsNoTracking(flag: bool)
    | SetPrimaryKey(key: Option<Value>)
    | SetOrderByExpression(slot: Option<KeySelector>)
    | SetOrderByDescendingExpression(slot: Option<KeySelector>)
    | AddInclude(navigation: KeySelector)
    | AddIncludeString(path: string)
    | AddOrderBy(selector: KeySelector)
    | AddOrderByDescending(selector: KeySelector)
    | SetProjection(selector: KeySelector)
    | SetExecuteUpdateExpression(builder: nat)
    | AddExecuteUpdateProperties(selector: KeySelector)
    | AppendThenBy(selector: KeySelector, isDescending: bool)

  /** Apply one mutator. `Add*` of a list appends; `AddOrderBy` and
      `AddOrderByDescending` overwrite their slot; `AppendThenBy` appends an order
      key with its direction. */
  function Apply(s: Spec, e: Edit): (r: Spec)
    ensures e.AddInclude? ==> r.includeExpressions == s.includeExpressions + [e.navigation]
    ensures e.AddIncludeString? ==> r.includeStrings == s.includeStrings + [e.path]
    ensures e.AppendThenBy? ==> r.orderByExpressions == s.orderByExpressions + [OrderKey(e.selector, e.isDescending)]
    ensures e.AddOrderBy? ==> r.orderBy == Some(e.selector)
    ensures e.AddOrderByDescending? ==> r.orderByDescending == Some(e.selector)
    ensures !e.AppendThenBy? ==> r.orderByExpressions == s.orderByExpressions
    ensures !e.AddInclude? && !e.AddIncludeString? ==>
              r.includeExpressions == s.includeExpressions && r.includeStrings == s.includeStrings
    ensures !e.SetCriteria? ==> r.criteria == s.criteria
    ensures !e.SetPrimaryKey? ==> r.primaryKey == s.primaryKey
  {
    match e
    case SetCriteria(c) => s.(criteria := c)
    case SetAsSplitQuery(b) => s.(asSplitQuery := b)
    case SetAsNoTracking(b) => s.(asNoTracking := b)
    case SetPrimaryKey(k) => s.(primaryKey := k)
    case SetOrderByExpression(k) => s.(orderBy := k)
    case SetOrderByDescendingExpression(k) => s.(orderByDescending := k)
    case AddInclude(k) => s.(includeExpressions := s.includeExpressions + [k])
    case AddIncludeString(p) => s.(includeStrings := s.includeStrings + [p])
    case AddOrderBy(k) => s.(orderBy := Some(k))
    case AddOrderByDescending(k) => s.(orderByDescending := Some(k))
    case SetProjection(k) => s.(projection := Some(k))
    case SetExecuteUpdateExpression(b) => s.(executeUpdate := Some(b))
    case AddExecuteUpdateProperties(k) => s.(executeUpdateProperties := s.executeUpdateProperties + [k])
    case AppendThenBy(k, d) => s.(orderByExpressions := s.orderByExpressions + [OrderKey(k, d)])
  }

  /** The fields of the record an edit can write. `includeActions` is written by no
      edit here. */
  datatype Field =
    | PrimaryKeyField | CriteriaField | SplitQueryField | NoTrackingField
    | IncludesField | IncludeStringsField | OrderByField | OrderByDescendingField
    | ThenByField | ProjectionField | UpdateField | UpdatePropertiesField

  /** The one field each mutator is about, by its name. */
  function Writes(e: Edit): Field {
    match e
    case SetCriteria(_) => CriteriaField
    case SetAsSplitQuery(_) => SplitQueryField
    case SetAsNoTracking(_) => NoTrackingField
    case SetPrimaryKey(_) => PrimaryKeyField
    case SetOrderByExpression(_) => OrderByField
    case SetOrderByDescendingExpression(_) => OrderByDescendingField
    case AddInclude(_) => IncludesField
    case AddIncludeString(_) => IncludeStringsField
    case AddOrderBy(_) => OrderByField
    case AddOrderByDescending(_) => OrderByDescendingField
    case SetProjection(_) => ProjectionField
    case SetExecuteUpdateExpression(_) => UpdateField
    case AddExecuteUpdateProperties(_) => UpdatePropertiesField
    case AppendThenBy(_, _) => ThenByField
  }

  /** `a` and `b` agree on every field except possibly `f`. */
  predicate AgreeExcept(a: Spec, b: Spec, f: Field) {
    && (f == PrimaryKeyField || a.primaryKey == b.primaryKey)
    && (f == CriteriaField || a.criteria == b.criteria)
    && (f == SplitQueryField || a.asSplitQuery == b.asSplitQuery)
    && (f == NoTrackingField || a.asNoTracking == b.asNoTracking)
    && (f == IncludesField || a.includeExpressions == b.includeExpressions)
    && (f == IncludeStringsField || a.includeStrings == b.includeStrings)
    && a.includeActions == b.includeActions
    && (f == OrderByField || a.orderBy == b.orderBy)
    && (f == OrderByDescendingField || a.orderByDescending == b.orderByDescending)
    && (f == ThenByField || a.orderByExpressions == b.orderByExpressions)
    && (f == ProjectionField || a.projection == b.projection)
    && (f == UpdateField || a.executeUpdate == b.executeUpdate)
    && (f == UpdatePropertiesField || a.executeUpdateProperties == b.executeUpdateProperties)
  }

  /** After the edit, its field shows the edit's argument: a setter's field holds
      the value, and a list member's list ends with the new item behind the old
      list. */
  predicate Shows(before: Spec, after: Spec, e: Edit) {
    match e
    case SetCriteria(c) => after.criteria == c
    case SetAsSplitQuery(b) => after.asSplitQuery == b
    case SetAsNoTracking(b) => after.asNoTracking == b
    case SetPrimaryKey(k) => after.primaryKey == k
    case SetOrderByExpression(k) => after.orderBy == k
    case SetOrderByDescendingExpression(k) => after.orderByDescending == k
    case AddInclude(k) =>
      before.includeExpressions <= after.includeExpressions
      && |after.includeExpressions| == |before.includeExpressions| + 1
      && after.includeExpressions[|before.includeExpressions|] == k
    case AddIncludeString(p) =>
      before.includeStrings <= after.includeStrings
      && |after.includeStrings| == |before.includeStrings| + 1
      && after.includeStrings[|before.includeStrings|] == p
    case AddOrderBy(k) => after.orderBy == Some(k)
    case AddOrderByDescending(k) => after.orderByDescending == Some(k)
    case SetProjection(k) => after.projection == Some(k)
    case SetExecuteUpdateExpression(b) => after.executeUpdate == Some(b)
    case AddExecuteUpdateProperties(k) =>
      before.executeUpdateProperties <= after.executeUpdateProperties
      && |after.executeUpdateProperties| == |before.executeUpdateProperties| + 1
      && after.executeUpdateProperties[|before.executeUpdateProperties|] == k
    case AppendThenBy(k, d) =>
      before.orderByExpressions <= after.orderByExpressions
      && |after.orderByExpressions| == |before.orderByExpressions| + 1
      && after.orderByExpressions[|before.orderByExpressions|] == OrderKey(k, d)
  }

  /** `Apply` is characterised by its frame: a record shows the edit and agrees
      with the old one elsewhere exactly when it is the result of the edit. */
  lemma ApplyIffFramed(a: Spec, b: Spec, e: Edit)
    ensures b == Apply(a, e) <==> Shows(a, b, e) && AgreeExcept(a, b, Writes(e))
  {
    if Shows(a, b, e) && AgreeExcept(a, b, Writes(e)) {
      match e
      case AddInclude(k) => assert b.includeExpressions == a.includeExpressions + [k];
      case AddIncludeString(p) => assert b.includeStrings == a.includeStrings + [p];
      case AddExecuteUpdateProperties(k) => assert b.executeUpdateProperties == a.executeUpdateProperties + [k];
      case AppendThenBy(k, d) => assert b.orderByExpressions == a.orderByExpressions + [OrderKey(k, d)];
      case _ =>
    }
  }

  /** Apply a run of mutators in order. */
  function ApplyAll(s: Spec, es: seq<Edit>): Spec
    decreases |es|
  {
    if |es| == 0 then s else ApplyAll(Apply(s, es[0]), es[1..])
  }

  /** The include paths a run of `AddIncludeString` calls records, in call order. */
  function IncludeStringEdits(paths: seq<string>): (es: seq<Edit>)
    ensures |es| == |paths|
    ensures forall i :: 0 <= i < |es| ==> es[i] == AddIncludeString(paths[i])
  {
    if |paths| == 0 then [] else [AddIncludeString(paths[0])] + IncludeStringEdits(paths[1..])
  }

  /** Successive `AddIncludeString` calls accumulate in call order, and nothing
      else in the record changes. */
  lemma {:induction false} IncludeStringsAccumulate(s: Spec, paths: seq<string>)
    ensures ApplyAll(s, IncludeStringEdits(paths)) == s.(includeStrings := s.includeStrings + paths)
    decreases |paths|
  {
    if |paths| > 0 {
      var es := IncludeStringEdits(paths);
      assert es[1..] == IncludeStringEdits(paths[1..]);
      var s1 := Apply(s, es[0]);
      assert s1 == s.(includeStrings := s.includeStrings + [paths[0]]);
      assert ApplyAll(s, es) == ApplyAll(s1, es[1..]);
      IncludeStringsAccumulate(s1, paths[1..]);
      assert s.includeStrings + [paths[0]] + paths[1..] == s.includeStrings + paths;
    }
  }

  /** The ordering slots are last-write-wins: only the latest `AddOrderBy` is kept,
      and `AddOrderByDescending` leaves the ascending slot alone. */
  lemma OrderSlotsOverwrite(s: Spec, a: KeySelector, b: KeySelector)
    ensures ApplyAll(s, [AddOrderBy(a), AddOrderBy(b)]).orderBy == Some(b)
    ensures ApplyAll(s, [AddOrderBy(a), AddOrderByDescending(b)]).orderBy == Some(a)
    ensures ApplyAll(s, [AddOrderBy(a), AddOrderByDescending(b)]).orderByDescending == Some(b)
  {
    var s1 := Apply(s, AddOrderBy(a));
    assert [AddOrderBy(a), AddOrderBy(b)][1..] == [AddOrderBy(b)];
    assert [AddOrderBy(a), AddOrderByDescending(b)][1..] == [AddOrderByDescending(b)];
    assert ApplyAll(s1, [AddOrderBy(b)]) == ApplyAll(Apply(s1, AddOrderBy(b)), []);
    assert ApplyAll(s1, [AddOrderByDescending(b)]) == ApplyAll(Apply(s1, AddOrderByDescending(b)), []);
  }
}
