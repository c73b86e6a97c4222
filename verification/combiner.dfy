/** `ExpressionCombiner`: AND, OR and NOT of single-parameter predicate lambdas, the
    n-ary folds, the `True`/`False` sentinels, `When`, and the overloads that take
    compiled `Func<TEntity, bool>` delegates.

    The source recognises the sentinels with `expression == True<TEntity>()`. This
    model reads that test literally: an operand "is the sentinel" when it is the
    distinguished `TrueS` (or `FalseS`) lambda. Every combination that builds a new
    lambda takes the shared parameter it introduces as the argument `shared`. */
module Combiner {
  import opened Wrappers
  import opened Types
  import opened Expressions

  /** `Expression<Func<TEntity, bool>>`: the two sentinel lambdas `x => true` and
      `x => false`, or any other lambda with its parameter and body. */
  datatype Pred = TrueS | FalseS | Lambda(param: nat, body: Expr)

  /** The parameter of the sentinel lambdas. */
  const SentinelParam: nat := 0

  function ParamOf(p: Pred): nat {
    if p.Lambda? then p.param else SentinelParam
  }

  function BodyOf(p: Pred): Expr {
    match p
    case TrueS => Lit(Truth(true))
    case FalseS => Lit(Truth(false))
    case Lambda(_, body) => body
  }

  /** A lambda is closed when its body mentions no parameter but its own. */
  predicate WellFormed(p: Pred) {
    Params(BodyOf(p)) <= {ParamOf(p)}
  }

  /** Whether entity `x` satisfies predicate `p`. */
  predicate Matches(p: Pred, x: Value, fns: Delegates) {
    Holds(BodyOf(p), map[ParamOf(p) := x], fns)
  }

  /** `ExpressionCombiner.True<TEntity>()`. */
  function True(): (r: Pred)
    ensures WellFormed(r)
    ensures forall x: Value, fns: Delegates :: Matches(r, x, fns)
  {
    TrueS
  }

  /** `ExpressionCombiner.False<TEntity>()`. */
  function False(): (r: Pred)
    ensures WellFormed(r)
    ensures forall x: Value, fns: Delegates :: !Matches(r, x, fns)
  {
    FalseS
  }

  /** The sentinels mean what they say. */
  lemma SentinelMeaning(x: Value, fns: Delegates)
    ensures Matches(True(), x, fns) && !Matches(False(), x, fns)
  {
  }

  /** Move the body of `p` onto the parameter `shared`. */
  function Rebound(p: Pred, shared: nat): (b: Expr)
    requires WellFormed(p)
    ensures Params(b) <= {shared}
  {
    RebindParams(BodyOf(p), ParamOf(p), shared);
    Rebind(BodyOf(p), ParamOf(p), shared)
  }

  /** `ExpressionCombiner.And(expression1, expression2)`. */
  function And(e1: Pred, e2: Pred, shared: nat): (r: Pred)
    requires WellFormed(e1) && WellFormed(e2)
    ensures WellFormed(r)
  {
    if e1 == TrueS then e2
    else if e2 == TrueS then e1
    else Lambda(shared, AndAlso(Rebound(e1, shared), Rebound(e2, shared)))
  }

  /** `ExpressionCombiner.Or(expression1, expression2)`. */
  function Or(e1: Pred, e2: Pred, shared: nat): (r: Pred)
    requires WellFormed(e1) && WellFormed(e2)
    ensures WellFormed(r)
  {
    if e1 == TrueS then e2
    else if e2 == TrueS then e1
    else Lambda(shared, OrElse(Rebound(e1, shared), Rebound(e2, shared)))
  }

  /** `ExpressionCombiner.Not(expression)`. */
  function Not(e: Pred, shared: nat): (r: Pred)
    requires WellFormed(e)
    ensures WellFormed(r)
  {
    if e == TrueS then FalseS
    else if e == FalseS then TrueS
    else Lambda(shared, Negate(Rebound(e, shared)))
  }

  /** `ExpressionCombiner.When(condition, expression)`. */
  function When(condition: bool, e: Pred): (r: Pred)
    ensures condition ==> r == e
    ensures !condition ==> forall x: Value, fns: Delegates :: Matches(r, x, fns)
    ensures WellFormed(e) ==> WellFormed(r)
  {
    if condition then e else TrueS
  }

  /** The body moved onto `shared` answers what the original answers. */
  lemma ReboundMeaning(p: Pred, shared: nat, x: Value, fns: Delegates)
    requires WellFormed(p)
    ensures Holds(Rebound(p, shared), map[shared := x], fns) == Matches(p, x, fns)
  {
    RebindEval(BodyOf(p), ParamOf(p), shared, x, fns);
  }

  /** `And` is conjunction under one shared parameter, whatever the operands
      (the sentinel shortcut returns the other operand, which is still correct). */
  lemma AndMeaning(e1: Pred, e2: Pred, shared: nat, x: Value, fns: Delegates)
    requires WellFormed(e1) && WellFormed(e2)
    ensures Matches(And(e1, e2, shared), x, fns) == (Matches(e1, x, fns) && Matches(e2, x, fns))
  {
    if e1 != TrueS && e2 != TrueS {
      ReboundMeaning(e1, shared, x, fns);
      ReboundMeaning(e2, shared, x, fns);
      ConnectiveMeaning(Rebound(e1, shared), Rebound(e2, shared), 0, shared, map[shared := x], fns);
    }
  }

  /** `Or` of two non-sentinel operands is disjunction under one shared parameter. */
  lemma OrMeaning(e1: Pred, e2: Pred, shared: nat, x: Value, fns: Delegates)
    requires WellFormed(e1) && WellFormed(e2)
    requires e1 != TrueS && e2 != TrueS
    ensures Matches(Or(e1, e2, shared), x, fns) == (Matches(e1, x, fns) || Matches(e2, x, fns))
  {
    ReboundMeaning(e1, shared, x, fns);
    ReboundMeaning(e2, shared, x, fns);
    ConnectiveMeaning(Rebound(e1, shared), Rebound(e2, shared), 0, shared, map[shared := x], fns);
  }

  /** The sentinel is an identity for `Or` as well: `Or(True, p)` is `p` itself, so
      `Or(True, False)` is never satisfied although `true || false` is. */
  lemma OrSentinelIsIdentity(p: Pred, shared: nat, x: Value, fns: Delegates)
    requires WellFormed(p)
    ensures Or(TrueS, p, shared) == p && Or(p, TrueS, shared) == p
    ensures !Matches(Or(TrueS, FalseS, shared), x, fns)
  {
  }

  /** `Not` swaps the sentinels and negates every other predicate. */
  lemma NotMeaning(e: Pred, shared: nat, x: Value, fns: Delegates)
    requires WellFormed(e)
    ensures Not(TrueS, shared) == FalseS && Not(FalseS, shared) == TrueS
    ensures Matches(Not(e, shared), x, fns) == !Matches(e, x, fns)
  {
    if e != TrueS && e != FalseS {
      ReboundMeaning(e, shared, x, fns);
      ConnectiveMeaning(Rebound(e, shared), Rebound(e, shared), 0, shared, map[shared := x], fns);
    }
  }

  predicate AllWellFormed(es: seq<Pred>) {
    forall i :: 0 <= i < |es| ==> WellFormed(es[i])
  }

  /** The `foreach` of `CombineWithAnd`: the first element, then `And(combined, e)`
      for each further element, nested to the left. */
  function AndChain(es: seq<Pred>, shared: nat): (r: Pred)
    requires |es| >= 1 && AllWellFormed(es)
    ensures WellFormed(r)
  {
    if |es| == 1 then es[0] else And(AndChain(es[..|es| - 1], shared), es[|es| - 1], shared)
  }

  function OrChain(es: seq<Pred>, shared: nat): (r: Pred)
    requires |es| >= 1 && AllWellFormed(es)
    ensures WellFormed(r)
  {
    if |es| == 1 then es[0] else Or(OrChain(es[..|es| - 1], shared), es[|es| - 1], shared)
  }

  /** The loop of `CombineWithNot`: the first element, then `And(combined, Not(e))`. */
  function NotChain(es: seq<Pred>, shared: nat): (r: Pred)
    requires |es| >= 1 && AllWellFormed(es)
    ensures WellFormed(r)
  {
    if |es| == 1 then es[0] else And(NotChain(es[..|es| - 1], shared), Not(es[|es| - 1], shared), shared)
  }

  /** `ExpressionCombiner.CombineWithAnd`: `True` when there is nothing to combine. */
  function CombineWithAnd(es: seq<Pred>, shared: nat): (r: Pred)
    requires AllWellFormed(es)
    ensures WellFormed(r)
  {
    if |es| == 0 then TrueS else AndChain(es, shared)
  }

  function CombineWithOr(es: seq<Pred>, shared: nat): (r: Pred)
    requires AllWellFormed(es)
    ensures WellFormed(r)
  {
    if |es| == 0 then TrueS else OrChain(es, shared)
  }

  function CombineWithNot(es: seq<Pred>, shared: nat): (r: Pred)
    requires AllWellFormed(es)
    ensures WellFormed(r)
  {
    if |es| == 0 then TrueS else NotChain(es, shared)
  }

  /** An empty list folds to the sentinel and a one-element list to that element;
      a longer list nests to the left. */
  lemma CombineShape(es: seq<Pred>, e: Pred, shared: nat)
    requires AllWellFormed(es) && WellFormed(e)
    ensures CombineWithAnd([], shared) == TrueS && CombineWithOr([], shared) == TrueS
    ensures CombineWithNot([], shared) == TrueS
    ensures CombineWithAnd([e], shared) == e && CombineWithOr([e], shared) == e
    ensures CombineWithNot([e], shared) == e
    ensures |es| >= 1 ==> CombineWithAnd(es + [e], shared) == And(CombineWithAnd(es, shared), e, shared)
    ensures |es| >= 1 ==> CombineWithOr(es + [e], shared) == Or(CombineWithOr(es, shared), e, shared)
  {
    if |es| >= 1 {
      assert (es + [e])[..|es + [e]| - 1] == es;
    }
  }

  /** The AND fold is satisfied exactly when every element is. */
  lemma {:induction false} CombineWithAndMeaning(es: seq<Pred>, shared: nat, x: Value, fns: Delegates)
    requires AllWellFormed(es)
    ensures Matches(CombineWithAnd(es, shared), x, fns) <==> forall i :: 0 <= i < |es| ==> Matches(es[i], x, fns)
    decreases |es|
  {
    if |es| > 1 {
      var init := es[..|es| - 1];
      CombineWithAndMeaning(init, shared, x, fns);
      AndMeaning(AndChain(init, shared), es[|es| - 1], shared, x, fns);
      assert forall i :: 0 <= i < |init| ==> init[i] == es[i];
    }
  }

  /** An OR chain over non-sentinel elements never yields the sentinel. */
  lemma {:induction false} OrChainNotSentinel(es: seq<Pred>, shared: nat)
    requires |es| >= 1 && AllWellFormed(es)
    requires forall i :: 0 <= i < |es| ==> es[i] != TrueS
    ensures OrChain(es, shared) != TrueS
    decreases |es|
  {
    if |es| > 1 {
      OrChainNotSentinel(es[..|es| - 1], shared);
    }
  }

  /** Folding one more non-sentinel element in is one more `||`. */
  lemma OrStep(es: seq<Pred>, shared: nat, x: Value, fns: Delegates)
    requires |es| > 1 && AllWellFormed(es)
    requires forall i :: 0 <= i < |es| ==> es[i] != TrueS
    ensures Matches(CombineWithOr(es, shared), x, fns) ==
            (Matches(CombineWithOr(es[..|es| - 1], shared), x, fns) || Matches(es[|es| - 1], x, fns))
  {
    var init := es[..|es| - 1];
    assert forall i :: 0 <= i < |init| ==> init[i] == es[i];
    OrChainNotSentinel(init, shared);
    OrMeaning(OrChain(init, shared), es[|es| - 1], shared, x, fns);
  }

  /** Without `True` among the elements, the OR fold is satisfied exactly when some
      element is. */
  lemma {:induction false} CombineWithOrMeaning(es: seq<Pred>, shared: nat, x: Value, fns: Delegates)
    requires AllWellFormed(es)
    requires forall i :: 0 <= i < |es| ==> es[i] != TrueS
    ensures |es| >= 1 ==>
      (Matches(CombineWithOr(es, shared), x, fns) <==> exists i :: 0 <= i < |es| && Matches(es[i], x, fns))
    ensures |es| == 0 ==> CombineWithOr(es, shared) == TrueS
    decreases |es|
  {
    if |es| > 1 {
      var init := es[..|es| - 1];
      CombineWithOrMeaning(init, shared, x, fns);
      OrStep(es, shared, x, fns);
      assert forall i :: 0 <= i < |init| ==> init[i] == es[i];
      if Matches(CombineWithOr(es, shared), x, fns) {
        if Matches(es[|es| - 1], x, fns) {
        } else {
          var k :| 0 <= k < |init| && Matches(init[k], x, fns);
          assert Matches(es[k], x, fns);
        }
      }
    }
  }

  /** The NOT fold keeps its first element and negates the rest:
      `e1 && !e2 && ... && !en`. */
  lemma {:induction false} CombineWithNotMeaning(es: seq<Pred>, shared: nat, x: Value, fns: Delegates)
    requires AllWellFormed(es) && |es| >= 1
    ensures Matches(CombineWithNot(es, shared), x, fns) <==>
      Matches(es[0], x, fns) && forall i :: 1 <= i < |es| ==> !Matches(es[i], x, fns)
    decreases |es|
  {
    if |es| > 1 {
      var init := es[..|es| - 1];
      var last := es[|es| - 1];
      CombineWithNotMeaning(init, shared, x, fns);
      NotMeaning(last, shared, x, fns);
      AndMeaning(NotChain(init, shared), Not(last, shared), shared, x, fns);
      assert forall i :: 0 <= i < |init| ==> init[i] == es[i];
    }
  }

  /** `When(false, e)` is `True` and `When(true, e)` is `e`. */
  lemma WhenMeaning(e: Pred, x: Value, fns: Delegates)
    ensures When(false, e) == TrueS && When(true, e) == e
    ensures Matches(When(false, e), x, fns)
  {
  }

  // ---- Overloads over compiled delegates. A `Func<TEntity, bool>` is the number of
  // an opaque delegate; `None` is a null delegate.

  /** `x => f(x)` over the shared parameter. */
  function Call1(f: nat, shared: nat): (e: Expr)
    ensures Params(e) == {shared}
  {
    Invoke(f, Param(shared))
  }

  /** `ExpressionCombiner.ToExpression(predicate)`. */
  function ToExpression(f: Option<nat>, shared: nat): (r: Pred)
    ensures WellFormed(r)
  {
    if f.None? then TrueS else Lambda(shared, Call1(f.value, shared))
  }

  /** `And(Func, Func)`: `x => predicate1(x) && predicate2(x)`, with no sentinel test. */
  function AndFunc(f1: nat, f2: nat, shared: nat): (r: Pred)
    ensures WellFormed(r)
  {
    Lambda(shared, AndAlso(Call1(f1, shared), Call1(f2, shared)))
  }

  function OrFunc(f1: nat, f2: nat, shared: nat): (r: Pred)
    ensures WellFormed(r)
  {
    Lambda(shared, OrElse(Call1(f1, shared), Call1(f2, shared)))
  }

  function NotFunc(f: nat, shared: nat): (r: Pred)
    ensures WellFormed(r)
  {
    Lambda(shared, Negate(Call1(f, shared)))
  }

  /** `When(condition, Func)`: `condition ? ToExpression(predicate) : True()`. */
  function WhenFunc(condition: bool, f: Option<nat>, shared: nat): (r: Pred)
    ensures WellFormed(r)
    ensures !condition || f.None? ==> forall x: Value, fns: Delegates :: Matches(r, x, fns)
    ensures condition && f.Some? ==> forall x: Value, fns: Delegates :: Matches(r, x, fns) == fns(f.value, x)
  {
    DelegateLambdaMeaning(if f.Some? then f.value else 0, shared);
    if condition then ToExpression(f, shared) else TrueS
  }

  /** `x => f(x)` answers what the delegate answers, for every entity. */
  lemma DelegateLambdaMeaning(f: nat, shared: nat)
    ensures forall x: Value, fns: Delegates :: Matches(ToExpression(Some(f), shared), x, fns) == fns(f, x)
  {
    forall x: Value, fns: Delegates
      ensures Matches(ToExpression(Some(f), shared), x, fns) == fns(f, x)
    {
      ConnectiveMeaning(Call1(f, shared), Call1(f, shared), f, shared, map[shared := x], fns);
    }
  }

  /** The delegate overloads compute the plain boolean connectives; `ToExpression`
      and `When` of a null delegate are `True`. */
  lemma FuncOverloadsMeaning(f1: nat, f2: nat, shared: nat, x: Value, fns: Delegates)
    ensures Matches(AndFunc(f1, f2, shared), x, fns) == (fns(f1, x) && fns(f2, x))
    ensures Matches(OrFunc(f1, f2, shared), x, fns) == (fns(f1, x) || fns(f2, x))
    ensures Matches(NotFunc(f1, shared), x, fns) == !fns(f1, x)
    ensures Matches(ToExpression(Some(f1), shared), x, fns) == fns(f1, x)
    ensures ToExpression(None, shared) == TrueS
    ensures WhenFunc(false, Some(f1), shared) == TrueS && WhenFunc(true, None, shared) == TrueS
  {
    var env := map[shared := x];
    ConnectiveMeaning(Call1(f1, shared), Call1(f2, shared), f1, shared, env, fns);
    ConnectiveMeaning(Call1(f2, shared), Call1(f1, shared), f2, shared, env, fns);
  }

  /** The closure chain the delegate folds evidently mean to build, each step calling
      the previous step's delegate: `combined(x) op f(x)` nested to the left, written as
      the equivalent expression. */
  function FuncChain(fs: seq<nat>, shared: nat, conj: bool, negateRest: bool): (e: Expr)
    requires |fs| >= 1
    ensures Params(e) == {shared}
  {
    if |fs| == 1 then Call1(fs[0], shared)
    else
      var init := FuncChain(fs[..|fs| - 1], shared, conj, negateRest);
      var last := if negateRest then Negate(Call1(fs[|fs| - 1], shared)) else Call1(fs[|fs| - 1], shared);
      if conj then AndAlso(init, last) else OrElse(init, last)
  }

  /** The delegate folds as written: each step assigns `combined = x => combined(x) op
      predicate(x)`, and the lambda captures the variable `combined` itself, not its
      value at that moment. Once two or more delegates were folded, `combined` names
      the last closure, whose first action is to call `combined`, i.e. itself. This
      evaluates a call of the final delegate with `depth` stack frames available;
      `None` is a stack overflow. */
  function CapturedInvoke(fs: seq<nat>, conj: bool, negateRest: bool, x: Value, fns: Delegates, depth: nat): Option<bool>
    requires |fs| >= 1
    decreases depth
  {
    if |fs| == 1 then Some(fns(fs[0], x))
    else if depth == 0 then None
    else
      var inner := CapturedInvoke(fs, conj, negateRest, x, fns, depth - 1);
      if inner.None? then None
      else
        var last := if negateRest then !fns(fs[|fs| - 1], x) else fns(fs[|fs| - 1], x);
        if conj then Some(inner.value && last) else Some(inner.value || last)
  }

  /** As written, a fold of two or more delegates never returns: for EVERY depth
      bound the unfolding is still calling itself when the bound runs out, so the
      `None` here is non-termination, not a vacuous result. A single delegate is
      returned as is. */
  lemma {:induction false} CapturedInvokeNeverReturns(fs: seq<nat>, conj: bool, negateRest: bool, x: Value, fns: Delegates, depth: nat)
    requires |fs| >= 1
    ensures |fs| >= 2 ==> CapturedInvoke(fs, conj, negateRest, x, fns, depth).None?
    ensures |fs| == 1 ==> CapturedInvoke(fs, conj, negateRest, x, fns, depth) == Some(fns(fs[0], x))
    decreases depth
  {
    if |fs| >= 2 && depth > 0 {
      CapturedInvokeNeverReturns(fs, conj, negateRest, x, fns, depth - 1);
    }
  }

  /** `CombineWithAnd(IEnumerable<Func>)`: `True` for no delegates, else `x => combined(x)`. */
  function CombineWithAndFunc(fs: seq<nat>, shared: nat): (r: Pred)
    ensures WellFormed(r)
    ensures |fs| == 0 ==> forall x: Value, fns: Delegates :: Matches(r, x, fns)
  {
    if |fs| == 0 then TrueS else Lambda(shared, FuncChain(fs, shared, true, false))
  }

  function CombineWithOrFunc(fs: seq<nat>, shared: nat): (r: Pred)
    ensures WellFormed(r)
    ensures |fs| == 0 ==> forall x: Value, fns: Delegates :: Matches(r, x, fns)
  {
    if |fs| == 0 then TrueS else Lambda(shared, FuncChain(fs, shared, false, false))
  }

  function CombineWithNotFunc(fs: seq<nat>, shared: nat): (r: Pred)
    ensures WellFormed(r)
    ensures |fs| == 0 ==> forall x: Value, fns: Delegates :: Matches(r, x, fns)
  {
    if |fs| == 0 then TrueS else Lambda(shared, FuncChain(fs, shared, true, true))
  }

  /** One delegate answers its own call. */
  lemma FuncChainSingle(fs: seq<nat>, shared: nat, conj: bool, negateRest: bool, x: Value, fns: Delegates)
    requires |fs| == 1
    ensures Holds(FuncChain(fs, shared, conj, negateRest), map[shared := x], fns) == fns(fs[0], x)
  {
    ConnectiveMeaning(Call1(fs[0], shared), Call1(fs[0], shared), fs[0], shared, map[shared := x], fns);
  }

  /** A longer chain combines the chain of all but the last delegate with the
      last delegate's answer, negated under `negateRest`. */
  lemma FuncChainStep(fs: seq<nat>, shared: nat, conj: bool, negateRest: bool, x: Value, fns: Delegates)
    requires |fs| > 1
    ensures var h := Holds(FuncChain(fs[..|fs| - 1], shared, conj, negateRest), map[shared := x], fns);
            var l := if negateRest then !fns(fs[|fs| - 1], x) else fns(fs[|fs| - 1], x);
            Holds(FuncChain(fs, shared, conj, negateRest), map[shared := x], fns) == if conj then h && l else h || l
  {
    var last := fs[|fs| - 1];
    var env := map[shared := x];
    ConnectiveMeaning(Call1(last, shared), Call1(last, shared), last, shared, env, fns);
    var lastExpr := if negateRest then Negate(Call1(last, shared)) else Call1(last, shared);
    ConnectiveMeaning(FuncChain(fs[..|fs| - 1], shared, conj, negateRest), lastExpr, last, shared, env, fns);
  }

  /** What a delegate chain answers for entity `x`. */
  lemma {:induction false} FuncChainMeaning(fs: seq<nat>, shared: nat, conj: bool, negateRest: bool, x: Value, fns: Delegates)
    requires |fs| >= 1
    ensures conj && !negateRest ==>
      (Holds(FuncChain(fs, shared, conj, negateRest), map[shared := x], fns) <==> forall i :: 0 <= i < |fs| ==> fns(fs[i], x))
    ensures !conj && !negateRest ==>
      (Holds(FuncChain(fs, shared, conj, negateRest), map[shared := x], fns) <==> exists i :: 0 <= i < |fs| && fns(fs[i], x))
    ensures conj && negateRest ==>
      (Holds(FuncChain(fs, shared, conj, negateRest), map[shared := x], fns) <==>
        fns(fs[0], x) && forall i :: 1 <= i < |fs| ==> !fns(fs[i], x))
    decreases |fs|
  {
    if |fs| > 1 {
      var init := fs[..|fs| - 1];
      FuncChainMeaning(init, shared, conj, negateRest, x, fns);
      FuncChainStep(fs, shared, conj, negateRest, x, fns);
      assert forall i :: 0 <= i < |init| ==> init[i] == fs[i];
      if !conj && !negateRest && Holds(FuncChain(fs, shared, conj, negateRest), map[shared := x], fns) {
        if !fns(fs[|fs| - 1], x) {
          var k :| 0 <= k < |init| && fns(init[k], x);
          assert fns(fs[k], x);
        }
      }
    } else {
      FuncChainSingle(fs, shared, conj, negateRest, x, fns);
    }
  }

  /** The delegate folds: all, some, and first-but-none-of-the-rest; `True` when empty. */
  lemma CombineFuncMeaning(fs: seq<nat>, shared: nat, x: Value, fns: Delegates)
    ensures Matches(CombineWithAndFunc(fs, shared), x, fns) <==> forall i :: 0 <= i < |fs| ==> fns(fs[i], x)
    ensures |fs| >= 1 ==> (Matches(CombineWithOrFunc(fs, shared), x, fns) <==> exists i :: 0 <= i < |fs| && fns(fs[i], x))
    ensures |fs| >= 1 ==> (Matches(CombineWithNotFunc(fs, shared), x, fns) <==>
                           fns(fs[0], x) && forall i :: 1 <= i < |fs| ==> !fns(fs[i], x))
    ensures |fs| == 0 ==> CombineWithOrFunc(fs, shared) == TrueS && CombineWithNotFunc(fs, shared) == TrueS
  {
    if |fs| >= 1 {
      FuncChainMeaning(fs, shared, true, false, x, fns);
      FuncChainMeaning(fs, shared, false, false, x, fns);
      FuncChainMeaning(fs, shared, true, true, x, fns);
    }
  }
}
