/** `ExpressionBuilder`: the public, null-tolerant extension methods over the combiner.
    A null expression or delegate is `None`; a null sequence is `None` as well. */
module Builder {
  import opened Wrappers
  import opened Types
  import Combiner
  import Expressions

  type Pred = Combiner.Pred
  type Delegates = Expressions.Delegates

  predicate WellFormedOpt(p: Option<Pred>) {
    p.Some? ==> Combiner.WellFormed(p.value)
  }

  /** A null predicate constrains nothing. */
  predicate Admits(p: Option<Pred>, x: Value, fns: Delegates) {
    p.None? || Combiner.Matches(p.value, x, fns)
  }

  /** `left.And(right)`: a null side yields the other side; the `True` fallback after
      the two null tests can never be reached. */
  function And(left: Option<Pred>, right: Option<Pred>, shared: nat): (r: Option<Pred>)
    requires WellFormedOpt(left) && WellFormedOpt(right)
    ensures WellFormedOpt(r)
    ensures r.None? <==> left.None? && right.None?
  {
    if left.None? then right
    else if right.None? then left
    else Some(Combiner.And(left.value, right.value, shared))
  }

  /** `left.Or(right)`, with the same null handling as `And`. */
  function Or(left: Option<Pred>, right: Option<Pred>, shared: nat): (r: Option<Pred>)
    requires WellFormedOpt(left) && WellFormedOpt(right)
    ensures WellFormedOpt(r)
    ensures r.None? <==> left.None? && right.None?
  {
    if left.None? then right
    else if right.None? then left
    else Some(Combiner.Or(left.value, right.value, shared))
  }

  /** `expression.Not()`: `True` for a null expression. */
  function Not(e: Option<Pred>, shared: nat): (r: Pred)
    requires WellFormedOpt(e)
    ensures Combiner.WellFormed(r)
  {
    if e.None? then Combiner.True() else Combiner.Not(e.value, shared)
  }

  /** `expressions.CombineWithAnd()`: `True` for a null or empty sequence. */
  function CombineWithAnd(es: Option<seq<Pred>>, shared: nat): (r: Pred)
    requires es.Some? ==> Combiner.AllWellFormed(es.value)
    ensures Combiner.WellFormed(r)
  {
    if es.None? || |es.value| == 0 then Combiner.True() else Combiner.CombineWithAnd(es.value, shared)
  }

  function CombineWithOr(es: Option<seq<Pred>>, shared: nat): (r: Pred)
    requires es.Some? ==> Combiner.AllWellFormed(es.value)
    ensures Combiner.WellFormed(r)
  {
    if es.None? || |es.value| == 0 then Combiner.True() else Combiner.CombineWithOr(es.value, shared)
  }

  function CombineWithNot(es: Option<seq<Pred>>, shared: nat): (r: Pred)
    requires es.Some? ==> Combiner.AllWellFormed(es.value)
    ensures Combiner.WellFormed(r)
  {
    if es.None? || |es.value| == 0 then Combiner.True() else Combiner.CombineWithNot(es.value, shared)
  }

  /** `expression.When(condition)`: the arguments swapped into the combiner's order. */
  function When(e: Option<Pred>, condition: bool): (r: Option<Pred>)
    ensures condition ==> r == e
    ensures !condition ==> r == Some(Combiner.True())
  {
    // the `True()` sentinel, as `ExpressionCombiner.When` returns it
    if condition then e else Some(Combiner.TrueS)
  }

  /** Null handling of `And`: a null side is no constraint, so the result admits an
      entity exactly when both sides do; `And(null, null)` is null, never `True`. */
  lemma AndMeaning(left: Option<Pred>, right: Option<Pred>, shared: nat, x: Value, fns: Delegates)
    requires WellFormedOpt(left) && WellFormedOpt(right)
    ensures Admits(And(left, right, shared), x, fns) == (Admits(left, x, fns) && Admits(right, x, fns))
    ensures And(None, None, shared) == None
    ensures left.None? ==> And(left, right, shared) == right
    ensures right.None? ==> And(left, right, shared) == left
  {
    if left.Some? && right.Some? {
      Combiner.AndMeaning(left.value, right.value, shared, x, fns);
    }
  }

  /** Null handling of `Or`: the null side yields the other side unchanged, and two
      present non-sentinel operands give their disjunction. */
  lemma OrMeaning(left: Option<Pred>, right: Option<Pred>, shared: nat, x: Value, fns: Delegates)
    requires WellFormedOpt(left) && WellFormedOpt(right)
    ensures Or(None, None, shared) == None
    ensures left.None? ==> Or(left, right, shared) == right
    ensures right.None? ==> Or(left, right, shared) == left
    ensures left.Some? && right.Some? && left.value != Combiner.TrueS && right.value != Combiner.TrueS ==>
      (Admits(Or(left, right, shared), x, fns) <==> Admits(left, x, fns) || Admits(right, x, fns))
  {
    if left.Some? && right.Some? && left.value != Combiner.TrueS && right.value != Combiner.TrueS {
      Combiner.OrMeaning(left.value, right.value, shared, x, fns);
    }
  }

  /** `Not(null)` is `True`; otherwise the result is the combiner's negation. */
  lemma NotMeaning(e: Option<Pred>, shared: nat, x: Value, fns: Delegates)
    requires WellFormedOpt(e)
    ensures e.None? ==> Combiner.Matches(Not(e, shared), x, fns)
    ensures e.Some? ==> Not(e, shared) == Combiner.Not(e.value, shared)
    ensures e.Some? ==> (Combiner.Matches(Not(e, shared), x, fns) <==> !Combiner.Matches(e.value, x, fns))
  {
    if e.Some? {
      Combiner.NotMeaning(e.value, shared, x, fns);
    }
  }

  /** The null-or-empty guard of the folds agrees with the combiner, which already
      answers `True` for an empty sequence: a present sequence is passed on unchanged. */
  lemma CombineDelegates(es: seq<Pred>, shared: nat)
    requires Combiner.AllWellFormed(es)
    ensures CombineWithAnd(Some(es), shared) == Combiner.CombineWithAnd(es, shared)
    ensures CombineWithOr(Some(es), shared) == Combiner.CombineWithOr(es, shared)
    ensures CombineWithNot(Some(es), shared) == Combiner.CombineWithNot(es, shared)
    ensures CombineWithAnd(None, shared) == Combiner.TrueS && CombineWithOr(None, shared) == Combiner.TrueS
    ensures CombineWithNot(None, shared) == Combiner.TrueS
  {
  }

  // ---- Delegate overloads; a delegate is the number of an opaque `Func<T, bool>`.

  /** `Func.And`: a null side yields `ToExpression` of the other side. */
  function AndFunc(left: Option<nat>, right: Option<nat>, shared: nat): (r: Pred)
    ensures Combiner.WellFormed(r)
  {
    if left.None? then Combiner.ToExpression(right, shared)
    else if right.None? then Combiner.ToExpression(left, shared)
    else Combiner.AndFunc(left.value, right.value, shared)
  }

  function OrFunc(left: Option<nat>, right: Option<nat>, shared: nat): (r: Pred)
    ensures Combiner.WellFormed(r)
  {
    if left.None? then Combiner.ToExpression(right, shared)
    else if right.None? then Combiner.ToExpression(left, shared)
    else Combiner.OrFunc(left.value, right.value, shared)
  }

  function NotFunc(f: Option<nat>, shared: nat): (r: Pred)
    ensures Combiner.WellFormed(r)
  {
    if f.None? then Combiner.True() else Combiner.NotFunc(f.value, shared)
  }

  function WhenFunc(f: Option<nat>, condition: bool, shared: nat): (r: Pred)
    ensures Combiner.WellFormed(r)
    ensures !condition || f.None? ==> forall x: Value, fns: Delegates :: Combiner.Matches(r, x, fns)
    ensures condition && f.Some? ==> forall x: Value, fns: Delegates :: Combiner.Matches(r, x, fns) == fns(f.value, x)
  {
    Combiner.WhenFunc(condition, f, shared)
  }

  /** The delegate folds, CORRECTED: a null or empty sequence gives `True`, and a present
      sequence is forwarded to the corrected combiner fold. As written, a present sequence
      of two or more delegates never returns (see `FuncFoldsAsWrittenNeverReturn`). */
  function CombineWithAndFunc(fs: Option<seq<nat>>, shared: nat): (r: Pred)
    ensures Combiner.WellFormed(r)
    ensures fs.None? || |fs.value| == 0 ==> forall x: Value, fns: Delegates :: Combiner.Matches(r, x, fns)
  {
    if fs.None? || |fs.value| == 0 then Combiner.True() else Combiner.CombineWithAndFunc(fs.value, shared)
  }

  function CombineWithOrFunc(fs: Option<seq<nat>>, shared: nat): (r: Pred)
    ensures Combiner.WellFormed(r)
    ensures fs.None? || |fs.value| == 0 ==> forall x: Value, fns: Delegates :: Combiner.Matches(r, x, fns)
  {
    if fs.None? || |fs.value| == 0 then Combiner.True() else Combiner.CombineWithOrFunc(fs.value, shared)
  }

  function CombineWithNotFunc(fs: Option<seq<nat>>, shared: nat): (r: Pred)
    ensures Combiner.WellFormed(r)
    ensures fs.None? || |fs.value| == 0 ==> forall x: Value, fns: Delegates :: Combiner.Matches(r, x, fns)
  {
    if fs.None? || |fs.value| == 0 then Combiner.True() else Combiner.CombineWithNotFunc(fs.value, shared)
  }

  /** A delegate that may be null, as a constraint: null admits everything. */
  predicate AdmitsFunc(f: Option<nat>, x: Value, fns: Delegates) {
    f.None? || fns(f.value, x)
  }

  /** Delegate `And` treats a null side as no constraint, so `And(null, null)` is
      `True`; delegate `Or` of two present delegates is their disjunction, and a null
      side yields the other; `Not(null)` is `True`. */
  lemma FuncMeaning(left: Option<nat>, right: Option<nat>, shared: nat, x: Value, fns: Delegates)
    ensures Combiner.Matches(AndFunc(left, right, shared), x, fns) == (AdmitsFunc(left, x, fns) && AdmitsFunc(right, x, fns))
    ensures AndFunc(None, None, shared) == Combiner.TrueS && OrFunc(None, None, shared) == Combiner.TrueS
    ensures left.Some? && right.Some? ==>
      Combiner.Matches(OrFunc(left, right, shared), x, fns) == (fns(left.value, x) || fns(right.value, x))
    ensures left.None? && right.Some? ==> Combiner.Matches(OrFunc(left, right, shared), x, fns) == fns(right.value, x)
    ensures left.Some? && right.None? ==> Combiner.Matches(OrFunc(left, right, shared), x, fns) == fns(left.value, x)
    ensures NotFunc(None, shared) == Combiner.TrueS
    ensures left.Some? ==> Combiner.Matches(NotFunc(left, shared), x, fns) == !fns(left.value, x)
    ensures WhenFunc(left, false, shared) == Combiner.TrueS && WhenFunc(left, true, shared) == Combiner.ToExpression(left, shared)
  {
    var l := if left.Some? then left.value else 0;
    var r := if right.Some? then right.value else 0;
    Combiner.FuncOverloadsMeaning(l, r, shared, x, fns);
    Combiner.FuncOverloadsMeaning(r, l, shared, x, fns);
    Combiner.FuncOverloadsMeaning(l, l, shared, x, fns);
  }

  /** The delegate folds as written: a present sequence reaches the combiner unchanged,
      and once it holds two or more delegates the captured closure calls itself, so no
      depth bound suffices; a single delegate is invoked as is. */
  lemma {:induction false} FuncFoldsAsWrittenNeverReturn(fs: Option<seq<nat>>, x: Value, fns: Delegates, depth: nat)
    ensures fs.Some? && |fs.value| >= 2 ==>
      Combiner.CapturedInvoke(fs.value, true, false, x, fns, depth).None?
      && Combiner.CapturedInvoke(fs.value, false, false, x, fns, depth).None?
      && Combiner.CapturedInvoke(fs.value, true, true, x, fns, depth).None?
    ensures fs.Some? && |fs.value| == 1 ==>
      Combiner.CapturedInvoke(fs.value, true, false, x, fns, depth) == Some(fns(fs.value[0], x))
  {
    if fs.Some? && |fs.value| >= 1 {
      Combiner.CapturedInvokeNeverReturns(fs.value, true, false, x, fns, depth);
      Combiner.CapturedInvokeNeverReturns(fs.value, false, false, x, fns, depth);
      Combiner.CapturedInvokeNeverReturns(fs.value, true, true, x, fns, depth);
    }
  }

  /** The CORRECTED delegate folds: `True` for null or empty, otherwise all, some, or
      first but none of the rest. */
  lemma CombineFuncMeaning(fs: Option<seq<nat>>, shared: nat, x: Value, fns: Delegates)
    ensures (fs.None? || |fs.value| == 0) ==>
      CombineWithAndFunc(fs, shared) == Combiner.TrueS && CombineWithOrFunc(fs, shared) == Combiner.TrueS
      && CombineWithNotFunc(fs, shared) == Combiner.TrueS
    ensures fs.Some? ==>
      (Combiner.Matches(CombineWithAndFunc(fs, shared), x, fns) <==> forall i :: 0 <= i < |fs.value| ==> fns(fs.value[i], x))
    ensures fs.Some? && |fs.value| >= 1 ==>
      (Combiner.Matches(CombineWithOrFunc(fs, shared), x, fns) <==> exists i :: 0 <= i < |fs.value| && fns(fs.value[i], x))
    ensures fs.Some? && |fs.value| >= 1 ==>
      (Combiner.Matches(CombineWithNotFunc(fs, shared), x, fns) <==>
         fns(fs.value[0], x) && forall i :: 1 <= i < |fs.value| ==> !fns(fs.value[i], x))
  {
    if fs.Some? {
      Combiner.CombineFuncMeaning(fs.value, shared, x, fns);
    }
  }
}
