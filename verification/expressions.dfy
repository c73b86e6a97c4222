/** Expression trees (`System.Linq.Expressions`) restricted to the node kinds the
    library builds or inspects, their evaluation against one entity, their static
    typing, and `ParameterRebinder`, the visitor that swaps one parameter for
    another. Parameters are identified by number: two `ParameterExpression`
    objects are the same parameter exactly when their numbers agree. */
module Expressions {
  import opened Wrappers
  import opened Types
  import Text

  /** The comparison operators of `Implementation/Operation.cs`. */
  datatype Operation = Equal | NotEqual | GreaterThan | GreaterThanOrEqual | LessThan | LessThanOrEqual

  datatype Expr =
    | Param(id: nat)                                 // ParameterExpression
    | Member(target: Expr, name: string)             // x.Name
    | Convert(operand: Expr, to: ClrType, checked: bool) // Convert / ConvertChecked
    | Call(methodName: string, target: Expr)             // any other method call, e.g. a Where filter
    | Lit(v: Value)                                  // Expression.Constant
    | Lower(operand: Expr)                           // string.ToLower()
    | Contains(operand: Expr, needle: string)        // string.Contains(needle)
    | InSet(values: set<Value>, operand: Expr)       // HashSet<T>.Contains(operand)
    | Compare(op: Operation, left: Expr, right: Expr)
    | AndAlso(left: Expr, right: Expr)
    | OrElse(left: Expr, right: Expr)
    | Negate(operand: Expr)                          // ExpressionType.Not
    | Invoke(fn: nat, arg: Expr)                     // call of an opaque Func<T, bool> delegate

  /** Opaque delegates: `fns(f, x)` is what delegate `f` answers for argument `x`. */
  type Delegates = (nat, Value) -> bool

  /** Lifted comparison of two values, as the compiled expression computes it:
      numbers, dates and characters compare by magnitude; `==`/`!=` compare any
      two values (so `null == null` and `null != 5`); an ordering involving
      `null` or an unordered kind is false. */
  predicate CompareValues(op: Operation, a: Value, b: Value) {
    if op == Equal then Same(a, b)
    else if op == NotEqual then !Same(a, b)
    else
      match Magnitudes(a, b)
      case None => false
      case Some((x, y)) =>
        match op
        case GreaterThan => x > y
        case GreaterThanOrEqual => x >= y
        case LessThan => x < y
        case LessThanOrEqual => x <= y
        case _ => false
  }

  /** Equality of values, where numbers and dates compare by magnitude only. */
  predicate Same(a: Value, b: Value) {
    match Magnitudes(a, b)
    case Some((x, y)) => x == y
    case None => a == b
  }

  /** The magnitudes of two values of the same ordered kind. */
  function Magnitudes(a: Value, b: Value): Option<(int, int)> {
    if a.Number? && b.Number? then Some((a.n, b.n))
    else if a.Moment? && b.Moment? then Some((a.ticks, b.ticks))
    else if a.Letter? && b.Letter? then Some((a.c as int, b.c as int))
    else None
  }

  /** Evaluate `e` with parameters bound by `env`. A member read on anything but a
      record that declares it yields `null`; members of built-in types (`string.Length`,
      `DateTime.Year`, `Nullable<T>.Value`) are not modelled. */
  function Eval(e: Expr, env: map<nat, Value>, fns: Delegates): Value
    decreases e, 1
  {
    match e
    case Param(id) => if id in env then env[id] else Null
    case Member(target, name) =>
      var t := Eval(target, env, fns);
      if t.Record? && name in t.fields then t.fields[name] else Null
    case Convert(operand, _, _) => Eval(operand, env, fns)
    case Call(_, _) => Null
    case Lit(v) => v
    case Lower(operand) =>
      var s := Eval(operand, env, fns);
      if s.Str? then Str(Text.ToLower(s.s)) else Null
    case Contains(operand, needle) =>
      var s := Eval(operand, env, fns);
      Truth(s.Str? && Text.ContainsText(s.s, needle))
    case InSet(values, operand) => Truth(Eval(operand, env, fns) in values)
    case Compare(op, left, right) => Truth(CompareValues(op, Eval(left, env, fns), Eval(right, env, fns)))
    case AndAlso(left, right) => Truth(Holds(left, env, fns) && Holds(right, env, fns))
    case OrElse(left, right) => Truth(Holds(left, env, fns) || Holds(right, env, fns))
    case Negate(operand) => Truth(!Holds(operand, env, fns))
    case Invoke(fn, arg) => Truth(fns(fn, Eval(arg, env, fns)))
  }

  /** A boolean expression is satisfied when it evaluates to `true`. */
  predicate Holds(e: Expr, env: map<nat, Value>, fns: Delegates)
    decreases e, 2
  {
    Eval(e, env, fns) == Truth(true)
  }

  /** The boolean connectives and delegate calls mean their C# counterparts. */
  lemma ConnectiveMeaning(l: Expr, r: Expr, fn: nat, p: nat, env: map<nat, Value>, fns: Delegates)
    ensures Holds(AndAlso(l, r), env, fns) == (Holds(l, env, fns) && Holds(r, env, fns))
    ensures Holds(OrElse(l, r), env, fns) == (Holds(l, env, fns) || Holds(r, env, fns))
    ensures Holds(Negate(l), env, fns) == !Holds(l, env, fns)
    ensures p in env ==> Holds(Invoke(fn, Param(p)), env, fns) == fns(fn, env[p])
  {
    if p in env {
      assert Eval(Param(p), env, fns) == env[p];
    }
  }

  /** The leaf tests the parser builds mean their C# counterparts. */
  lemma TestMeaning(e: Expr, op: Operation, c: Value, needle: string, values: set<Value>, env: map<nat, Value>, fns: Delegates)
    ensures Holds(Compare(op, e, Lit(c)), env, fns) == CompareValues(op, Eval(e, env, fns), c)
    ensures Holds(Contains(e, needle), env, fns) == (Eval(e, env, fns).Str? && Text.ContainsText(Eval(e, env, fns).s, needle))
    ensures Holds(InSet(values, e), env, fns) == (Eval(e, env, fns) in values)
    ensures Eval(Lower(e), env, fns) == (if Eval(e, env, fns).Str? then Str(Text.ToLower(Eval(e, env, fns).s)) else Null)
  {
    assert Eval(Lit(c), env, fns) == c;
  }

  /** `ToLower()` on a string value lower-cases it; on anything else it yields null. */
  lemma LowerMeaning(e: Expr, env: map<nat, Value>, fns: Delegates)
    ensures Eval(Lower(e), env, fns) == (if Eval(e, env, fns).Str? then Str(Text.ToLower(Eval(e, env, fns).s)) else Null)
  {
  }

  /** The parameters an expression mentions. */
  function Params(e: Expr): set<nat> {
    match e
    case Param(id) => {id}
    case Member(target, _) => Params(target)
    case Convert(operand, _, _) => Params(operand)
    case Call(_, target) => Params(target)
    case Lit(_) => {}
    case Lower(operand) => Params(operand)
    case Contains(operand, _) => Params(operand)
    case InSet(_, operand) => Params(operand)
    case Compare(_, left, right) => Params(left) + Params(right)
    case AndAlso(left, right) => Params(left) + Params(right)
    case OrElse(left, right) => Params(left) + Params(right)
    case Negate(operand) => Params(operand)
    case Invoke(_, arg) => Params(arg)
  }

  /** Number of nodes. */
  function Size(e: Expr): nat {
    match e
    case Param(_) => 1
    case Member(target, _) => 1 + Size(target)
    case Convert(operand, _, _) => 1 + Size(operand)
    case Call(_, target) => 1 + Size(target)
    case Lit(_) => 1
    case Lower(operand) => 1 + Size(operand)
    case Contains(operand, _) => 1 + Size(operand)
    case InSet(_, operand) => 1 + Size(operand)
    case Compare(_, left, right) => 1 + Size(left) + Size(right)
    case AndAlso(left, right) => 1 + Size(left) + Size(right)
    case OrElse(left, right) => 1 + Size(left) + Size(right)
    case Negate(operand) => 1 + Size(operand)
    case Invoke(_, arg) => 1 + Size(arg)
  }

  /** The tree with every parameter renamed to 0: its shape without parameter identity. */
  function Erase(e: Expr): Expr {
    match e
    case Param(_) => Param(0)
    case Member(target, name) => Member(Erase(target), name)
    case Convert(operand, to, checked) => Convert(Erase(operand), to, checked)
    case Call(m, target) => Call(m, Erase(target))
    case Lit(v) => Lit(v)
    case Lower(operand) => Lower(Erase(operand))
    case Contains(operand, needle) => Contains(Erase(operand), needle)
    case InSet(values, operand) => InSet(values, Erase(operand))
    case Compare(op, left, right) => Compare(op, Erase(left), Erase(right))
    case AndAlso(left, right) => AndAlso(Erase(left), Erase(right))
    case OrElse(left, right) => OrElse(Erase(left), Erase(right))
    case Negate(operand) => Negate(Erase(operand))
    case Invoke(fn, arg) => Invoke(fn, Erase(arg))
  }

  /** `ParameterRebinder.ReplaceParameters(newParameter, oldParameter, e)`: the
      visitor's `VisitParameter` answers `newParameter` for `oldParameter` and
      leaves every other node as the base visitor rebuilds it. */
  function Rebind(e: Expr, oldParam: nat, newParam: nat): Expr {
    match e
    case Param(id) => if id == oldParam then Param(newParam) else Param(id)
    case Member(target, name) => Member(Rebind(target, oldParam, newParam), name)
    case Convert(operand, to, checked) => Convert(Rebind(operand, oldParam, newParam), to, checked)
    case Call(m, target) => Call(m, Rebind(target, oldParam, newParam))
    case Lit(v) => Lit(v)
    case Lower(operand) => Lower(Rebind(operand, oldParam, newParam))
    case Contains(operand, needle) => Contains(Rebind(operand, oldParam, newParam), needle)
    case InSet(values, operand) => InSet(values, Rebind(operand, oldParam, newParam))
    case Compare(op, left, right) => Compare(op, Rebind(left, oldParam, newParam), Rebind(right, oldParam, newParam))
    case AndAlso(left, right) => AndAlso(Rebind(left, oldParam, newParam), Rebind(right, oldParam, newParam))
    case OrElse(left, right) => OrElse(Rebind(left, oldParam, newParam), Rebind(right, oldParam, newParam))
    case Negate(operand) => Negate(Rebind(operand, oldParam, newParam))
    case Invoke(fn, arg) => Invoke(fn, Rebind(arg, oldParam, newParam))
  }

  /** Every occurrence of the old parameter becomes the new one and no other
      parameter is touched: the parameter set changes by exactly that renaming. */
  lemma {:induction false} RebindParams(e: Expr, oldParam: nat, newParam: nat)
    ensures Params(Rebind(e, oldParam, newParam))
            == if oldParam in Params(e) then Params(e) - {oldParam} + {newParam} else Params(e)
  {
    match e
    case Param(id) =>
    case Member(target, _) => RebindParams(target, oldParam, newParam);
    case Convert(operand, _, _) => RebindParams(operand, oldParam, newParam);
    case Call(_, target) => RebindParams(target, oldParam, newParam);
    case Lit(_) =>
    case Lower(operand) => RebindParams(operand, oldParam, newParam);
    case Contains(operand, _) => RebindParams(operand, oldParam, newParam);
    case InSet(_, operand) => RebindParams(operand, oldParam, newParam);
    case Compare(_, left, right) => RebindParams(left, oldParam, newParam); RebindParams(right, oldParam, newParam);
    case AndAlso(left, right) => RebindParams(left, oldParam, newParam); RebindParams(right, oldParam, newParam);
    case OrElse(left, right) => RebindParams(left, oldParam, newParam); RebindParams(right, oldParam, newParam);
    case Negate(operand) => RebindParams(operand, oldParam, newParam);
    case Invoke(_, arg) => RebindParams(arg, oldParam, newParam);
  }

  /** After rebinding to a different parameter the old one no longer occurs. */
  lemma RebindRemovesOld(e: Expr, oldParam: nat, newParam: nat)
    requires oldParam != newParam
    ensures oldParam !in Params(Rebind(e, oldParam, newParam))
  {
    RebindParams(e, oldParam, newParam);
  }

  /** Rebinding a parameter to itself is the identity. */
  lemma {:induction false} RebindSelf(e: Expr, p: nat)
    ensures Rebind(e, p, p) == e
  {
    match e
    case Param(_) =>
    case Member(target, _) => RebindSelf(target, p);
    case Convert(operand, _, _) => RebindSelf(operand, p);
    case Call(_, target) => RebindSelf(target, p);
    case Lit(_) =>
    case Lower(operand) => RebindSelf(operand, p);
    case Contains(operand, _) => RebindSelf(operand, p);
    case InSet(_, operand) => RebindSelf(operand, p);
    case Compare(_, left, right) => RebindSelf(left, p); RebindSelf(right, p);
    case AndAlso(left, right) => RebindSelf(left, p); RebindSelf(right, p);
    case OrElse(left, right) => RebindSelf(left, p); RebindSelf(right, p);
    case Negate(operand) => RebindSelf(operand, p);
    case Invoke(_, arg) => RebindSelf(arg, p);
  }

  /** Rebinding changes parameters only: the tree keeps its shape and size. */
  lemma {:induction false} RebindKeepsShape(e: Expr, oldParam: nat, newParam: nat)
    ensures Erase(Rebind(e, oldParam, newParam)) == Erase(e)
    ensures Size(Rebind(e, oldParam, newParam)) == Size(e)
  {
    match e
    case Param(_) =>
    case Member(target, _) => RebindKeepsShape(target, oldParam, newParam);
    case Convert(operand, _, _) => RebindKeepsShape(operand, oldParam, newParam);
    case Call(_, target) => RebindKeepsShape(target, oldParam, newParam);
    case Lit(_) =>
    case Lower(operand) => RebindKeepsShape(operand, oldParam, newParam);
    case Contains(operand, _) => RebindKeepsShape(operand, oldParam, newParam);
    case InSet(_, operand) => RebindKeepsShape(operand, oldParam, newParam);
    case Compare(_, left, right) => RebindKeepsShape(left, oldParam, newParam); RebindKeepsShape(right, oldParam, newParam);
    case AndAlso(left, right) => RebindKeepsShape(left, oldParam, newParam); RebindKeepsShape(right, oldParam, newParam);
    case OrElse(left, right) => RebindKeepsShape(left, oldParam, newParam); RebindKeepsShape(right, oldParam, newParam);
    case Negate(operand) => RebindKeepsShape(operand, oldParam, newParam);
    case Invoke(_, arg) => RebindKeepsShape(arg, oldParam, newParam);
  }

  /** Evaluating the rebound tree with `x` bound to the new parameter gives what the
      original gives with `x` bound to the oldParam one, when the oldParam parameter is the
      only one the tree mentions. */
  lemma {:induction false} RebindEval(e: Expr, oldParam: nat, newParam: nat, x: Value, fns: Delegates)
    requires Params(e) <= {oldParam}
    ensures Eval(Rebind(e, oldParam, newParam), map[newParam := x], fns) == Eval(e, map[oldParam := x], fns)
  {
    match e
    case Param(id) =>
    case Member(target, _) => RebindEval(target, oldParam, newParam, x, fns);
    case Convert(operand, _, _) => RebindEval(operand, oldParam, newParam, x, fns);
    case Call(_, target) =>
    case Lit(_) =>
    case Lower(operand) => RebindEval(operand, oldParam, newParam, x, fns);
    case Contains(operand, _) => RebindEval(operand, oldParam, newParam, x, fns);
    case InSet(_, operand) => RebindEval(operand, oldParam, newParam, x, fns);
    case Compare(_, left, right) => RebindEval(left, oldParam, newParam, x, fns); RebindEval(right, oldParam, newParam, x, fns);
    case AndAlso(left, right) => RebindEval(left, oldParam, newParam, x, fns); RebindEval(right, oldParam, newParam, x, fns);
    case OrElse(left, right) => RebindEval(left, oldParam, newParam, x, fns); RebindEval(right, oldParam, newParam, x, fns);
    case Negate(operand) => RebindEval(operand, oldParam, newParam, x, fns);
    case Invoke(_, arg) => RebindEval(arg, oldParam, newParam, x, fns);
  }

  /** `Expression.Constant(value, type)`, which rejects a value of another type. */
  function Constant(v: Value, t: ClrType): (r: Result<Expr, Exception>)
    ensures r.Success? <==> IsAssignable(v, t)
    ensures r.Success? ==> r.value == Lit(v)
  {
    if IsAssignable(v, t) then Success(Lit(v)) else Failure(ArgumentException)
  }

  /** The static type of an expression (`Expression.Type`), given the types of the
      parameters; `None` where the model does not know it. */
  function StaticType(e: Expr, paramTypes: map<nat, ClrType>, schema: Schema): Option<ClrType> {
    match e
    case Param(id) => if id in paramTypes then Some(paramTypes[id]) else None
    case Member(target, name) =>
      var t := StaticType(target, paramTypes, schema);
      if t.Some? then PropertyOrField(schema, t.value, name) else None
    case Convert(_, to, _) => Some(to)
    case Call(_, _) => None
    case Lit(v) => if v.Null? then Some(Object) else TypeOf(v)
    case Lower(_) => Some(String)
    case _ => Some(Boolean)
  }
}
