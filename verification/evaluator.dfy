/** `SpecificationEvaluator.GenerateQuery`: the sequence of query operators a
    specification puts on a `DbSet`, and what that query yields once it is run
    against the rows of the table.

    The query is an operator log (`seq<QueryOp>`). `Run` gives it a meaning over a
    sequence of entities. The database supplies the entity key (`keyOf`) and the
    provider's ordering of key values (`rank`). Loading navigations does not change
    which root entities are returned, so an `Include` step leaves the rows alone. */
module Evaluator {
  import opened Wrappers
  import opened Types
  import opened Expressions
  import Combiner
  import opened Specification

  /** One operator of the generated query. */
  datatype QueryOp =
    | IncludeNavigation(navigation: KeySelector)   // `Include(expression)`
    | IncludePath(path: string)                    // `Include(string)`
    | Where(criteria: Pred)
    | SortAscending(key: KeySelector)              // `OrderBy`
    | SortDescending(key: KeySelector)             // `OrderByDescending`
    | Find(primaryKey: Value)                      // `FindAsync`, materialised as 0 or 1 rows

  predicate IsSort(op: QueryOp) {
    op.SortAscending? || op.SortDescending?
  }

  /** The two `Aggregate` calls: every include expression in list order, then
      every include string in list order. */
  function IncludeOps(s: Spec): (ops: seq<QueryOp>)
    ensures |ops| == |s.includeExpressions| + |s.includeStrings|
    ensures forall i :: 0 <= i < |s.includeExpressions| ==> ops[i] == IncludeNavigation(s.includeExpressions[i])
    ensures forall i :: 0 <= i < |s.includeStrings| ==>
              ops[|s.includeExpressions| + i] == IncludePath(s.includeStrings[i])
  {
    Navigations(s.includeExpressions) + Paths(s.includeStrings)
  }

  function Navigations(ks: seq<KeySelector>): (ops: seq<QueryOp>)
    ensures |ops| == |ks|
    ensures forall i :: 0 <= i < |ks| ==> ops[i] == IncludeNavigation(ks[i])
  {
    if |ks| == 0 then [] else [IncludeNavigation(ks[0])] + Navigations(ks[1..])
  }

  function Paths(ps: seq<string>): (ops: seq<QueryOp>)
    ensures |ops| == |ps|
    ensures forall i :: 0 <= i < |ps| ==> ops[i] == IncludePath(ps[i])
  {
    if |ps| == 0 then [] else [IncludePath(ps[0])] + Paths(ps[1..])
  }

  /** The filter step: `Where(Criteria)` when a criteria is set. */
  function FilterOps(s: Spec): seq<QueryOp> {
    if s.criteria.Some? then [Where(s.criteria.value)] else []
  }

  /** The ordering step: `OrderBy` when its slot is set, otherwise
      `OrderByDescending` when that slot is set, otherwise nothing. */
  function SortOps(s: Spec): seq<QueryOp> {
    if s.orderBy.Some? then [SortAscending(s.orderBy.value)]
    else if s.orderByDescending.Some? then [SortDescending(s.orderByDescending.value)]
    else []
  }

  /** Includes only. */
  predicate AllIncludes(ops: seq<QueryOp>) {
    forall i :: 0 <= i < |ops| ==> ops[i].IncludeNavigation? || ops[i].IncludePath?
  }

  /** `GenerateQuery`. With a primary key the includes are followed by a key
      lookup and nothing else; without one, the includes come first, then the
      filter, then at most one ordering. The results of `AsNoTracking()` and
      `AsSplitQuery()` are discarded in the source, so the flags contribute no
      operator. */
  function GenerateQuery(s: Spec): (ops: seq<QueryOp>)
    ensures |IncludeOps(s)| <= |ops| && ops[..|IncludeOps(s)|] == IncludeOps(s)
    ensures s.primaryKey.Some? ==> |ops| >= 1 && ops[|ops| - 1] == Find(s.primaryKey.value)
    ensures (exists i :: 0 <= i < |ops| && ops[i].Find?) <==> s.primaryKey.Some?
    ensures (exists i :: 0 <= i < |ops| && ops[i].Where?) <==> s.primaryKey.None? && s.criteria.Some?
    ensures forall i :: 0 <= i < |ops| && ops[i].Where? ==> ops[i].criteria == s.criteria.value
    ensures forall i, j :: 0 <= i < |ops| && 0 <= j < |ops| && IsSort(ops[i]) && IsSort(ops[j]) ==> i == j
    ensures (exists i :: 0 <= i < |ops| && ops[i].SortAscending?) <==> s.primaryKey.None? && s.orderBy.Some?
    ensures (exists i :: 0 <= i < |ops| && ops[i].SortDescending?) <==>
              s.primaryKey.None? && s.orderBy.None? && s.orderByDescending.Some?
  {
    var inc := IncludeOps(s);
    assert AllIncludes(inc);
    if s.primaryKey.Some? then
      KeyLookupShape(inc, s.primaryKey.value);
      inc + [Find(s.primaryKey.value)]
    else
      FilterSortShape(inc, s);
      inc + FilterOps(s) + SortOps(s)
  }

  /** The query shape with a primary key. */
  lemma KeyLookupShape(inc: seq<QueryOp>, key: Value)
    requires AllIncludes(inc)
    ensures var ops := inc + [Find(key)];
            && ops[..|inc|] == inc
            && (exists i :: 0 <= i < |ops| && ops[i].Find?)
            && !(exists i :: 0 <= i < |ops| && ops[i].Where?)
            && !(exists i :: 0 <= i < |ops| && IsSort(ops[i]))
  {
    var ops := inc + [Find(key)];
    assert ops[|inc|].Find?;
    assert ops[..|inc|] == inc;
  }

  /** The query shape without a primary key. */
  lemma FilterSortShape(inc: seq<QueryOp>, s: Spec)
    requires AllIncludes(inc)
    ensures var ops := inc + FilterOps(s) + SortOps(s);
            && ops[..|inc|] == inc
            && !(exists i :: 0 <= i < |ops| && ops[i].Find?)
            && ((exists i :: 0 <= i < |ops| && ops[i].Where?) <==> s.criteria.Some?)
            && (forall i :: 0 <= i < |ops| && ops[i].Where? ==> ops[i].criteria == s.criteria.value)
            && (forall i, j :: 0 <= i < |ops| && 0 <= j < |ops| && IsSort(ops[i]) && IsSort(ops[j]) ==> i == j)
            && ((exists i :: 0 <= i < |ops| && ops[i].SortAscending?) <==> s.orderBy.Some?)
            && ((exists i :: 0 <= i < |ops| && ops[i].SortDescending?) <==> s.orderBy.None? && s.orderByDescending.Some?)
  {
    var ops := inc + FilterOps(s) + SortOps(s);
    assert ops[..|inc|] == inc;
    assert s.criteria.Some? ==> ops[|inc|].Where?;
    assert s.orderBy.Some? ==> ops[|ops| - 1].SortAscending?;
    assert s.orderBy.None? && s.orderByDescending.Some? ==> ops[|ops| - 1].SortDescending?;
  }

  /** The tracking and split-query flags do not change the query. */
  lemma FlagsAreIgnored(s: Spec, asNoTracking: bool, asSplitQuery: bool)
    ensures GenerateQuery(s.(asNoTracking := asNoTracking, asSplitQuery := asSplitQuery)) == GenerateQuery(s)
  {
  }

  // ---- Materialisation.

  /** Entities satisfying a predicate, in their original order. */
  function Filter(rows: seq<Value>, p: Pred, fns: Delegates): (r: seq<Value>)
    ensures |r| <= |rows|
    ensures forall x :: multiset(r)[x] == if Combiner.Matches(p, x, fns) then multiset(rows)[x] else 0
  {
    if |rows| == 0 then []
    else
      var rest := Filter(rows[1..], p, fns);
      assert rows == [rows[0]] + rows[1..];
      if Combiner.Matches(p, rows[0], fns) then [rows[0]] + rest else rest
  }

  /** One unfolding of `Filter` on a row in front of a tail. */
  lemma FilterCons(x: Value, t: seq<Value>, p: Pred, fns: Delegates)
    ensures Filter([x] + t, p, fns) == (if Combiner.Matches(p, x, fns) then [x] else []) + Filter(t, p, fns)
  {
    assert ([x] + t)[0] == x && ([x] + t)[1..] == t;
  }

  /** `Where` keeps the rows it admits in their original order: filtering a
      concatenation filters each part in place, and a single row is kept exactly
      when it is admitted. */
  lemma FilterKeepsOrder(a: seq<Value>, b: seq<Value>, p: Pred, fns: Delegates)
    ensures Filter(a + b, p, fns) == Filter(a, p, fns) + Filter(b, p, fns)
    ensures |a| == 1 ==> Filter(a, p, fns) == if Combiner.Matches(p, a[0], fns) then a else []
  {
    FilterAppend(a, b, p, fns);
    if |a| == 1 {
      FilterCons(a[0], [], p, fns);
      assert a == [a[0]] + [];
    }
  }

  lemma {:induction false} FilterAppend(a: seq<Value>, b: seq<Value>, p: Pred, fns: Delegates)
    ensures Filter(a + b, p, fns) == Filter(a, p, fns) + Filter(b, p, fns)
    decreases |a|
  {
    if |a| == 0 {
      assert a + b == b;
    } else {
      var x, t := a[0], a[1..];
      assert a == [x] + t;
      assert a + b == [x] + (t + b);
      FilterCons(x, t + b, p, fns);
      FilterCons(x, t, p, fns);
      FilterAppend(t, b, p, fns);
      ConcatAssoc(if Combiner.Matches(p, x, fns) then [x] else [], Filter(t, p, fns), Filter(b, p, fns));
    }
  }

  lemma ConcatAssoc(u: seq<Value>, v: seq<Value>, w: seq<Value>)
    ensures u + (v + w) == (u + v) + w
  {
  }

  /** The sort key of an entity under a key selector and the provider's ordering. */
  function KeyRank(k: KeySelector, rank: Value -> int, fns: Delegates): Value -> int {
    x => rank(Eval(k.body, map[k.param := x], fns))
  }

  /** `a` may come before `b` in the chosen direction. */
  predicate Before(key: Value -> int, descending: bool, a: Value, b: Value) {
    if descending then key(a) >= key(b) else key(a) <= key(b)
  }

  predicate Sorted(s: seq<Value>, key: Value -> int, descending: bool) {
    forall i, j :: 0 <= i < j < |s| ==> Before(key, descending, s[i], s[j])
  }

  /** Insert `x` in front of the first element it may precede. */
  function Insert(x: Value, s: seq<Value>, key: Value -> int, descending: bool): (r: seq<Value>)
    requires Sorted(s, key, descending)
    ensures multiset(r) == multiset(s) + multiset{x}
    ensures Sorted(r, key, descending)
  {
    if |s| == 0 then [x]
    else if Before(key, descending, x, s[0]) then [x] + s
    else
      var rest := Insert(x, s[1..], key, descending);
      InsertBehindHead(x, s, rest, key, descending);
      [s[0]] + rest
  }

  /** The step of `Insert` that keeps the head: `s[0]` may precede `x` and every
      element of `s[1..]`, so it may precede everything in the insertion into the tail. */
  lemma InsertBehindHead(x: Value, s: seq<Value>, rest: seq<Value>, key: Value -> int, descending: bool)
    requires Sorted(s, key, descending) && |s| > 0 && !Before(key, descending, x, s[0])
    requires multiset(rest) == multiset(s[1..]) + multiset{x}
    requires Sorted(rest, key, descending)
    ensures multiset([s[0]] + rest) == multiset(s) + multiset{x}
    ensures Sorted([s[0]] + rest, key, descending)
  {
    assert s == [s[0]] + s[1..];
    var r := [s[0]] + rest;
    forall j | 1 <= j < |r| ensures Before(key, descending, s[0], r[j]) {
      var y := r[j];
      assert y == rest[j - 1];
      assert y in multiset(rest);
      if y != x {
        assert y in multiset(s[1..]);
        var i :| 0 <= i < |s[1..]| && s[1..][i] == y;
        assert s[i + 1] == y;
      }
    }
  }

  /** An insertion sort: the entities in key order, as `OrderBy` / `OrderByDescending`
      return them. */
  function SortBy(s: seq<Value>, key: Value -> int, descending: bool): (r: seq<Value>)
    ensures multiset(r) == multiset(s)
    ensures Sorted(r, key, descending)
  {
    if |s| == 0 then []
    else
      assert s == [s[0]] + s[1..];
      Insert(s[0], SortBy(s[1..], key, descending), key, descending)
  }

  /** `FindAsync`: the entity with the given key, or nothing. */
  function FindIn(rows: seq<Value>, keyOf: Value -> Value, primaryKey: Value): (r: seq<Value>)
    ensures |r| <= 1
    ensures |r| == 1 <==> exists i :: 0 <= i < |rows| && keyOf(rows[i]) == primaryKey
    ensures |r| == 1 ==> r[0] in rows && keyOf(r[0]) == primaryKey
  {
    if |rows| == 0 then []
    else if keyOf(rows[0]) == primaryKey then [rows[0]]
    else
      var r := FindIn(rows[1..], keyOf, primaryKey);
      assert forall i :: 1 <= i < |rows| ==> rows[i] == rows[1..][i - 1];
      r
  }

  /** One operator applied to the rows so far. */
  function Step(op: QueryOp, rows: seq<Value>, keyOf: Value -> Value, rank: Value -> int, fns: Delegates): seq<Value> {
    match op
    case IncludeNavigation(_) => rows
    case IncludePath(_) => rows
    case Where(p) => Filter(rows, p, fns)
    case SortAscending(k) => SortBy(rows, KeyRank(k, rank, fns), false)
    case SortDescending(k) => SortBy(rows, KeyRank(k, rank, fns), true)
    case Find(key) => FindIn(rows, keyOf, key)
  }

  /** Run a query, operator by operator. */
  function Run(ops: seq<QueryOp>, rows: seq<Value>, keyOf: Value -> Value, rank: Value -> int, fns: Delegates): seq<Value>
    decreases |ops|
  {
    if |ops| == 0 then rows else Run(ops[1..], Step(ops[0], rows, keyOf, rank, fns), keyOf, rank, fns)
  }

  /** Running two queries one after the other is running their concatenation. */
  lemma {:induction false} RunAppend(a: seq<QueryOp>, b: seq<QueryOp>, rows: seq<Value>,
                                      keyOf: Value -> Value, rank: Value -> int, fns: Delegates)
    ensures Run(a + b, rows, keyOf, rank, fns) == Run(b, Run(a, rows, keyOf, rank, fns), keyOf, rank, fns)
    decreases |a|
  {
    if |a| == 0 {
      assert a + b == b;
    } else {
      assert (a + b)[0] == a[0];
      assert (a + b)[1..] == a[1..] + b;
      RunAppend(a[1..], b, Step(a[0], rows, keyOf, rank, fns), keyOf, rank, fns);
    }
  }

  /** Include operators leave the root rows as they are. */
  lemma {:induction false} IncludesKeepRows(ops: seq<QueryOp>, rows: seq<Value>,
                                            keyOf: Value -> Value, rank: Value -> int, fns: Delegates)
    requires forall i :: 0 <= i < |ops| ==> ops[i].IncludeNavigation? || ops[i].IncludePath?
    ensures Run(ops, rows, keyOf, rank, fns) == rows
    decreases |ops|
  {
    if |ops| > 0 {
      IncludesKeepRows(ops[1..], rows, keyOf, rank, fns);
    }
  }

  /** Whether the specification's criteria (if any) admits `x`. */
  predicate Admits(s: Spec, x: Value, fns: Delegates) {
    s.criteria.None? || Combiner.Matches(s.criteria.value, x, fns)
  }

  /** What the generated query returns.
      With a primary key: the key lookup alone, at most one entity, found exactly
      when some row has that key; criteria and ordering play no part.
      Without one: exactly the rows the criteria admits, each as often as in the
      table, sorted by the `OrderBy` key if that slot is set, otherwise by the
      `OrderByDescending` key descending if that is set, otherwise in table order. */
  lemma GenerateQueryMeaning(s: Spec, rows: seq<Value>, keyOf: Value -> Value, rank: Value -> int, fns: Delegates)
    ensures var r := Run(GenerateQuery(s), rows, keyOf, rank, fns);
      && (s.primaryKey.Some? ==> r == FindIn(rows, keyOf, s.primaryKey.value))
      && (s.primaryKey.None? ==> forall x :: multiset(r)[x] == if Admits(s, x, fns) then multiset(rows)[x] else 0)
      && (s.primaryKey.None? && s.orderBy.Some? ==> Sorted(r, KeyRank(s.orderBy.value, rank, fns), false))
      && (s.primaryKey.None? && s.orderBy.None? && s.orderByDescending.Some? ==>
            Sorted(r, KeyRank(s.orderByDescending.value, rank, fns), true))
      && (s.primaryKey.None? && s.criteria.None? && s.orderBy.None? && s.orderByDescending.None? ==> r == rows)
  {
    var inc := IncludeOps(s);
    assert AllIncludes(inc);
    IncludesKeepRows(inc, rows, keyOf, rank, fns);
    if s.primaryKey.Some? {
      assert GenerateQuery(s) == inc + [Find(s.primaryKey.value)];
      RunAppend(inc, [Find(s.primaryKey.value)], rows, keyOf, rank, fns);
    } else {
      var filterSort := FilterOps(s) + SortOps(s);
      assert GenerateQuery(s) == inc + filterSort;
      RunAppend(inc, filterSort, rows, keyOf, rank, fns);
      RunAppend(FilterOps(s), SortOps(s), rows, keyOf, rank, fns);
      RunFilterOps(s, rows, keyOf, rank, fns);
      RunSortOps(s, Run(FilterOps(s), rows, keyOf, rank, fns), keyOf, rank, fns);
    }
  }

  /** The filter step keeps the admitted rows, each as often as before. */
  lemma RunFilterOps(s: Spec, rows: seq<Value>, keyOf: Value -> Value, rank: Value -> int, fns: Delegates)
    ensures var r := Run(FilterOps(s), rows, keyOf, rank, fns);
      && (forall x :: multiset(r)[x] == if Admits(s, x, fns) then multiset(rows)[x] else 0)
      && (s.criteria.None? ==> r == rows)
  {
    if s.criteria.Some? {
      assert Run(FilterOps(s), rows, keyOf, rank, fns) == Filter(rows, s.criteria.value, fns);
    }
  }

  /** The ordering step permutes the rows into key order, or leaves them alone. */
  lemma RunSortOps(s: Spec, rows: seq<Value>, keyOf: Value -> Value, rank: Value -> int, fns: Delegates)
    ensures var r := Run(SortOps(s), rows, keyOf, rank, fns);
      && multiset(r) == multiset(rows)
      && (s.orderBy.Some? ==> Sorted(r, KeyRank(s.orderBy.value, rank, fns), false))
      && (s.orderBy.None? && s.orderByDescending.Some? ==> Sorted(r, KeyRank(s.orderByDescending.value, rank, fns), true))
      && (s.orderBy.None? && s.orderByDescending.None? ==> r == rows)
  {
    if s.orderBy.Some? {
      RunOne(SortAscending(s.orderBy.value), rows, keyOf, rank, fns);
    } else if s.orderByDescending.Some? {
      RunOne(SortDescending(s.orderByDescending.value), rows, keyOf, rank, fns);
    }
  }

  /** One operator never invents a row. */
  lemma StepKeepsRows(op: QueryOp, rows: seq<Value>, keyOf: Value -> Value, rank: Value -> int, fns: Delegates)
    ensures multiset(Step(op, rows, keyOf, rank, fns)) <= multiset(rows)
  {
    match op
    case Find(key) =>
      var r := FindIn(rows, keyOf, key);
      if |r| == 1 {
        assert r == [r[0]];
      }
    case _ =>
  }

  /** No query invents a row: whatever the operators, the result is a
      sub-multiset of the input rows. */
  lemma {:induction false} RunKeepsRows(ops: seq<QueryOp>, rows: seq<Value>, keyOf: Value -> Value, rank: Value -> int, fns: Delegates)
    ensures multiset(Run(ops, rows, keyOf, rank, fns)) <= multiset(rows)
    decreases |ops|
  {
    if |ops| > 0 {
      StepKeepsRows(ops[0], rows, keyOf, rank, fns);
      RunKeepsRows(ops[1..], Step(ops[0], rows, keyOf, rank, fns), keyOf, rank, fns);
    }
  }

  /** A one-operator query is that operator's step. */
  lemma RunOne(op: QueryOp, rows: seq<Value>, keyOf: Value -> Value, rank: Value -> int, fns: Delegates)
    ensures Run([op], rows, keyOf, rank, fns) == Step(op, rows, keyOf, rank, fns)
  {
    assert [op][1..] == [];
  }

  /** A lookup by key ignores whatever criteria and ordering the record also holds. */
  lemma PrimaryKeyShortCircuits(s: Spec, rows: seq<Value>, keyOf: Value -> Value, rank: Value -> int, fns: Delegates)
    requires s.primaryKey.Some?
    ensures Run(GenerateQuery(s), rows, keyOf, rank, fns) ==
            Run(GenerateQuery(s.(criteria := None, orderBy := None, orderByDescending := None)), rows, keyOf, rank, fns)
    ensures |Run(GenerateQuery(s), rows, keyOf, rank, fns)| <= 1
  {
    GenerateQueryMeaning(s, rows, keyOf, rank, fns);
    GenerateQueryMeaning(s.(criteria := None, orderBy := None, orderByDescending := None), rows, keyOf, rank, fns);
  }
}
