/** `Specification.ToConditionalExpression`: the operator mini-language that turns a
    string such as `"gte:10"` or `"inci:a,b"` into a predicate over one property of
    the entity, together with its local helpers `IsQueryString`,
    `BuildComparisonExpression`, `ConvertToType` and `BuildInExpression`.

    The property is given by a selector lambda and its declared type `TProperty`;
    the string is `<token>:<operand>`. The parser is parameterised by a `Revision`:
    `AsWritten` follows the code line by line, `Corrected` repairs the two defects
    this model documents (see `InciAsWrittenIgnoresCase` and
    `DateTimeOffsetAsWrittenFails`). `ToConditionalExpression` is the corrected one. */
module Conditional {
  import opened Wrappers
  import opened Types
  import opened Text
  import opened Expressions
  import Combiner

  type Pred = Combiner.Pred

  /** `Expression<Func<TEntity, TProperty>> propertySelector`. */
  datatype Selector = Selector(param: nat, body: Expr)

  /** The local `IsQueryString`. */
  predicate IsQueryString(value: Option<string>) {
    !IsNullOrEmpty(value) && !IsNullOrWhiteSpace(value) && ':' in value.value
  }

  /** The emptiness and white-space tests add nothing: a string is a query string
      exactly when it is present and contains a colon. */
  lemma IsQueryStringIff(value: Option<string>)
    ensures IsQueryString(value) <==> value.Some? && ':' in value.value
  {
    if value.Some? && ':' in value.value {
      var k := IndexOf(value.value, ':');
      assert !IsWhiteSpace(value.value[k]);
    }
  }

  /** The tokens the `switch` names, and `Unknown` for every other text. */
  datatype Token =
    | Lt | Lte | Gt | Gte | Eq | Ne
    | EqCi | Like | LikeCi | RangeOp
    | In | Nin | InCi | NinCi | InLike | NinLike | InLikeCi | NinLikeCi
    | Unknown

  /** The constant each token is spelled with. */
  function Name(k: Token): string {
    match k
    case Lt => "lt"
    case Lte => "lte"
    case Gt => "gt"
    case Gte => "gte"
    case Eq => "eq"
    case Ne => "ne"
    case EqCi => "eqci"
    case Like => "like"
    case LikeCi => "likeci"
    case RangeOp => "range"
    case In => "in"
    case Nin => "nin"
    case InCi => "inci"
    case NinCi => "ninci"
    case InLike => "inlike"
    case NinLike => "ninlike"
    case InLikeCi => "inlikeci"
    case NinLikeCi => "ninlikeci"
    case Unknown => ""
  }

  /** Which arm of the `switch` a (lower-cased) token selects. */
  function Classify(token: string): Token {
    if token == "lt" then Lt
    else if token == "lte" then Lte
    else if token == "gt" then Gt
    else if token == "gte" then Gte
    else if token == "eq" then Eq
    else if token == "ne" then Ne
    else if token == "eqci" then EqCi
    else if token == "like" then Like
    else if token == "likeci" then LikeCi
    else if token == "range" then RangeOp
    else if token == "in" then In
    else if token == "nin" then Nin
    else if token == "inci" then InCi
    else if token == "ninci" then NinCi
    else if token == "inlike" then InLike
    else if token == "ninlike" then NinLike
    else if token == "inlikeci" then InLikeCi
    else if token == "ninlikeci" then NinLikeCi
    else Unknown
  }

  /** Names and tokens correspond one to one: every token is recognised by its own
      name, and a recognised text is that token's name. */
  lemma ClassifyName(k: Token, token: string)
    ensures k != Unknown ==> Classify(Name(k)) == k
    ensures Classify(token) != Unknown ==> Name(Classify(token)) == token
  {
    if ComparisonOp(k).Some? {
      ComparisonNames(k);
    } else if InShape(k).Some? {
      InShapedNames(k);
    } else if k != Unknown {
      OtherNames(k);
    }
  }

  lemma ComparisonNames(k: Token)
    requires ComparisonOp(k).Some?
    ensures Classify(Name(k)) == k
  {
  }

  lemma InShapedNames(k: Token)
    requires InShape(k).Some?
    ensures Classify(Name(k)) == k
  {
  }

  lemma OtherNames(k: Token)
    requires ComparisonOp(k).None? && InShape(k).None? && k != Unknown
    ensures Classify(Name(k)) == k
  {
  }

  /** The comparison operator of the six comparison tokens. */
  function ComparisonOp(k: Token): Option<Operation> {
    match k
    case Lt => Some(LessThan)
    case Lte => Some(LessThanOrEqual)
    case Gt => Some(GreaterThan)
    case Gte => Some(GreaterThanOrEqual)
    case Eq => Some(Equal)
    case Ne => Some(NotEqual)
    case _ => None
  }

  /** The tokens guarded by `when targetType == typeof(string)`. */
  predicate IsStringOnly(k: Token) {
    k == EqCi || k == InCi || k == NinCi || k == InLikeCi || k == NinLikeCi
  }

  predicate IsOrdering(op: Operation) {
    !(op == Equal || op == NotEqual)
  }

  /** Types for which `Expression.LessThan` and its kin find an operator: the
      numeric types and `char` (built in), `decimal`, the date types and `Guid`
      (user-defined operators), and their `Nullable<T>` forms (lifted). */
  predicate SupportsOrdering(t: ClrType) {
    var u := Unwrap(t);
    IsNumeric(u) || u == Char || u == DateTime || u == DateTimeOffset || u == Guid
  }

  /** The local `ConvertToType(input, targetType)`. The date types go through
      `DateTime.TryParse`; as written a `DateTime` is produced even for a
      `DateTimeOffset` target, the corrected revision produces the target type. */
  function ConvertToType(rev: Revision, rt: Runtime, input: string, target: ClrType): (r: Result<Value, Exception>)
    ensures (target == DateTime || target == DateTimeOffset) ==>
      (r.Success? <==> rt.tryParseDate(input).Some?) && (r.Failure? ==> r.error == ArgumentException)
  {
    if target != DateTime && target != DateTimeOffset then Converting(ChangeType(rt, Str(input), target))
    else
      match rt.tryParseDate(input)
      case Some(ticks) => Success(Moment(if rev.AsWritten? then DateTime else target, ticks))
      case None => Failure(ArgumentException)
  }

  /** The local `BuildComparisonExpression`: the constant is typed first, then the
      operator is looked up for the property type. */
  function BuildComparison(property: Expr, propType: ClrType, op: Operation, c: Value): (r: Result<Expr, Exception>)
    ensures r.Success? <==> IsAssignable(c, propType) && (IsOrdering(op) ==> SupportsOrdering(propType))
    ensures r.Success? ==> r.value == Compare(op, property, Lit(c))
  {
    var lit :- Constant(c, propType);
    if IsOrdering(op) && !SupportsOrdering(propType) then Failure(InvalidOperationException)
    else Success(Compare(op, property, lit))
  }

  /** A comparison arm: the operand converted to the unwrapped property type, then
      compared. */
  function Comparison(rev: Revision, rt: Runtime, property: Expr, propType: ClrType, op: Operation, operand: string)
    : Result<Expr, Exception>
  {
    var c :- ConvertToType(rev, rt, operand, Unwrap(propType));
    BuildComparison(property, propType, op, c)
  }

  /** The `range` arm: the lower bound is converted and compared before the second
      comma part is even looked up. */
  function Range(rev: Revision, rt: Runtime, property: Expr, propType: ClrType, operand: string): Result<Expr, Exception> {
    var bounds := Split(operand, ',');
    var u := Unwrap(propType);
    var low :- ConvertToType(rev, rt, bounds[0], u);
    var lower :- BuildComparison(property, propType, GreaterThanOrEqual, low);
    if |bounds| < 2 then Failure(IndexOutOfRangeException)
    else
      var high :- ConvertToType(rev, rt, bounds[1], u);
      var upper :- BuildComparison(property, propType, LessThanOrEqual, high);
      Success(AndAlso(lower, upper))
  }

  /** `(TProperty)ConvertToType(v, targetType)` for one operand part. As written
      the case-insensitive arms leave the part as it is; the corrected revision
      lower-cases it, as it does the property. */
  function ConvertItem(rev: Revision, rt: Runtime, part: string, u: ClrType, propType: ClrType, caseInsensitive: bool): Result<Value, Exception> {
    var c :- ConvertToType(rev, rt, if caseInsensitive && rev.Corrected? then ToLower(part) else part, u);
    Unbox(c, propType)
  }

  /** Every part converts to the property's type. */
  predicate AllConvert(rev: Revision, rt: Runtime, parts: seq<string>, u: ClrType, propType: ClrType, caseInsensitive: bool) {
    forall i :: 0 <= i < |parts| ==> ConvertItem(rev, rt, parts[i], u, propType, caseInsensitive).Success?
  }

  /** The parts converted in order; the first failure escapes. */
  function ConvertAll(rev: Revision, rt: Runtime, parts: seq<string>, u: ClrType, propType: ClrType, caseInsensitive: bool)
    : Result<seq<Value>, Exception>
    decreases |parts|
  {
    if |parts| == 0 then Success([])
    else
      var head :- ConvertItem(rev, rt, parts[0], u, propType, caseInsensitive);
      var tail :- ConvertAll(rev, rt, parts[1..], u, propType, caseInsensitive);
      Success([head] + tail)
  }

  /** The parts convert exactly when each of them does, and then the values are the
      parts' conversions, one per part and in order. */
  lemma ConvertAllMeaning(rev: Revision, rt: Runtime, parts: seq<string>, u: ClrType, propType: ClrType, caseInsensitive: bool)
    ensures var r := ConvertAll(rev, rt, parts, u, propType, caseInsensitive);
            (r.Success? <==> AllConvert(rev, rt, parts, u, propType, caseInsensitive))
            && (r.Success? ==> (|r.value| == |parts| &&
                  forall i :: 0 <= i < |parts| ==> ConvertItem(rev, rt, parts[i], u, propType, caseInsensitive) == Success(r.value[i])))
  {
    ConvertAllValues(rev, rt, parts, u, propType, caseInsensitive);
    if AllConvert(rev, rt, parts, u, propType, caseInsensitive) {
      ConvertAllSucceeds(rev, rt, parts, u, propType, caseInsensitive);
    }
  }

  lemma {:induction false} ConvertAllSucceeds(rev: Revision, rt: Runtime, parts: seq<string>, u: ClrType, propType: ClrType,
                                              caseInsensitive: bool)
    requires AllConvert(rev, rt, parts, u, propType, caseInsensitive)
    ensures ConvertAll(rev, rt, parts, u, propType, caseInsensitive).Success?
    decreases |parts|
  {
    if |parts| > 0 {
      var tailParts := parts[1..];
      assert ConvertItem(rev, rt, parts[0], u, propType, caseInsensitive).Success?;
      forall i | 0 <= i < |tailParts|
        ensures ConvertItem(rev, rt, tailParts[i], u, propType, caseInsensitive).Success?
      {
        assert tailParts[i] == parts[i + 1];
      }
      ConvertAllSucceeds(rev, rt, tailParts, u, propType, caseInsensitive);
    }
  }

  lemma {:induction false} ConvertAllValues(rev: Revision, rt: Runtime, parts: seq<string>, u: ClrType, propType: ClrType,
                                            caseInsensitive: bool)
    ensures var r := ConvertAll(rev, rt, parts, u, propType, caseInsensitive);
            r.Success? ==> (|r.value| == |parts| &&
              forall i :: 0 <= i < |parts| ==> ConvertItem(rev, rt, parts[i], u, propType, caseInsensitive) == Success(r.value[i]))
    decreases |parts|
  {
    var r := ConvertAll(rev, rt, parts, u, propType, caseInsensitive);
    if |parts| > 0 && r.Success? {
      var tailParts := parts[1..];
      ConvertAllValues(rev, rt, tailParts, u, propType, caseInsensitive);
      var head := ConvertItem(rev, rt, parts[0], u, propType, caseInsensitive);
      var tail := ConvertAll(rev, rt, tailParts, u, propType, caseInsensitive);
      assert head.Success? && tail.Success?;
      var values := [head.value] + tail.value;
      assert r.value == values;
      forall i | 0 <= i < |parts|
        ensures ConvertItem(rev, rt, parts[i], u, propType, caseInsensitive) == Success(values[i])
      {
        if i > 0 {
          assert values[i] == tail.value[i - 1];
          assert parts[i] == tailParts[i - 1];
        }
      }
    }
  }

  /** `new HashSet<string>(parts)` enumerated: first occurrences, in order. */
  function Distinct(parts: seq<string>): (r: seq<string>)
    ensures forall s :: s in r <==> s in parts
    ensures forall i, j :: 0 <= i < j < |r| ==> r[i] != r[j]
    ensures |parts| > 0 ==> |r| > 0
  {
    if |parts| == 0 then []
    else
      var rest := Distinct(parts[..|parts| - 1]);
      assert forall s :: s in parts <==> s in parts[..|parts| - 1] || s == parts[|parts| - 1];
      if parts[|parts| - 1] in rest then rest else rest + [parts[|parts| - 1]]
  }

  function LowerAll(parts: seq<string>): (r: seq<string>)
    ensures |r| == |parts| && forall i :: 0 <= i < |parts| ==> r[i] == ToLower(parts[i])
  {
    seq(|parts|, i requires 0 <= i < |parts| => ToLower(parts[i]))
  }

  /** `Aggregate(Expression.OrElse)`: nested to the left. */
  function OrFold(cs: seq<Expr>): Expr
    requires |cs| >= 1
  {
    if |cs| == 1 then cs[0] else OrElse(OrFold(cs[..|cs| - 1]), cs[|cs| - 1])
  }

  lemma {:induction false} OrFoldMeaning(cs: seq<Expr>, env: map<nat, Value>, fns: Delegates)
    requires |cs| >= 1
    ensures Holds(OrFold(cs), env, fns) <==> exists i :: 0 <= i < |cs| && Holds(cs[i], env, fns)
  {
    if |cs| > 1 {
      var init := cs[..|cs| - 1];
      OrFoldMeaning(init, env, fns);
      ConnectiveMeaning(OrFold(init), cs[|cs| - 1], 0, 0, env, fns);
      if Holds(OrFold(cs), env, fns) && !Holds(cs[|cs| - 1], env, fns) {
        var k :| 0 <= k < |init| && Holds(init[k], env, fns);
        assert cs[k] == init[k];
      }
      if exists i :: 0 <= i < |cs| && Holds(cs[i], env, fns) {
        var k :| 0 <= k < |cs| && Holds(cs[k], env, fns);
        if k < |init| {
          assert init[k] == cs[k];
        }
      }
    }
  }

  /** The `Contains` tests of `inlike`, one per distinct part. */
  function ContainsTests(property: Expr, needles: seq<string>): (cs: seq<Expr>)
    ensures |cs| == |needles| && forall i :: 0 <= i < |needles| ==> cs[i] == Contains(property, needles[i])
  {
    seq(|needles|, i requires 0 <= i < |needles| => Contains(property, needles[i]))
  }

  /** The local `BuildInExpression`. */
  function BuildIn(rev: Revision, rt: Runtime, property: Expr, propType: ClrType, parts: seq<string>,
                   isNotIn: bool, caseInsensitive: bool, isLike: bool): Result<Expr, Exception>
  {
    var u := Unwrap(propType);
    var prop := if caseInsensitive && u == String then Lower(property) else property;
    if isLike && u == String then
      var needles := Distinct(if caseInsensitive then LowerAll(parts) else parts);
      if |needles| == 0 then Success(Lit(Truth(isNotIn)))
      else
        var any := OrFold(ContainsTests(prop, needles));
        Success(if isNotIn then Negate(any) else any)
    else
      var items :- ConvertAll(rev, rt, parts, u, propType, caseInsensitive);
      var test := InSet((set v | v in items), prop);
      Success(if isNotIn then Negate(test) else test)
  }

  /** The flags each of the eight `in`-shaped arms passes to `BuildInExpression`. */
  datatype InFlags = InFlags(isNotIn: bool, caseInsensitive: bool, isLike: bool)

  function InShape(k: Token): Option<InFlags> {
    match k
    case In => Some(InFlags(false, false, false))
    case Nin => Some(InFlags(true, false, false))
    case InCi => Some(InFlags(false, true, false))
    case NinCi => Some(InFlags(true, true, false))
    case InLike => Some(InFlags(false, false, true))
    case NinLike => Some(InFlags(true, false, true))
    case InLikeCi => Some(InFlags(false, true, true))
    case NinLikeCi => Some(InFlags(true, true, true))
    case _ => None
  }

  /** The body the `switch` builds for a token, or `None` for the default arm. The
      six comparison arms differ only in their operator and the eight `in`-shaped
      arms only in their flags, so each family is one case here. */
  function Arm(rev: Revision, rt: Runtime, property: Expr, targetType: ClrType, k: Token, operand: string)
    : Option<Result<Expr, Exception>>
  {
    var isString := targetType == String;
    if ComparisonOp(k).Some? then Some(Comparison(rev, rt, property, targetType, ComparisonOp(k).value, operand))
    else if InShape(k).Some? then
      var f := InShape(k).value;
      if IsStringOnly(k) && !isString then None
      else Some(BuildIn(rev, rt, property, targetType, Split(operand, ','), f.isNotIn, f.caseInsensitive, f.isLike))
    else
      match k
      case EqCi => if isString then Some(Success(Compare(Equal, Lower(property), Lit(Str(ToLower(operand)))))) else None
      case Like => Some(if isString then Success(Contains(property, operand)) else Failure(ArgumentException))
      case LikeCi => Some(if isString then Success(Contains(Lower(property), ToLower(operand))) else Failure(ArgumentException))
      case RangeOp => Some(Range(rev, rt, property, targetType, operand))
      case _ => None
  }

  /** `defaultExpression ?? throw new ArgumentException(...)`. */
  function OrThrow(default: Option<Pred>): Result<Pred, Exception> {
    if default.Some? then Success(default.value) else Failure(ArgumentException)
  }

  /** The switch for an already split token and operand. */
  function ParseParts(rev: Revision, rt: Runtime, sel: Selector, targetType: ClrType, k: Token, operand: string,
                      default: Option<Pred>): Result<Pred, Exception>
  {
    match Arm(rev, rt, sel.body, targetType, k, operand)
    case None => OrThrow(default)
    case Some(Failure(e)) => Failure(e)
    case Some(Success(body)) => Success(Combiner.Lambda(sel.param, body))
  }

  /** `ToConditionalExpression(propertySelector, value, defaultExpression)`. */
  function Parse(rev: Revision, rt: Runtime, sel: Selector, targetType: ClrType, value: Option<string>,
                 default: Option<Pred>): Result<Pred, Exception>
  {
    if !IsQueryString(value) then OrThrow(default)
    else
      var pieces := Split(value.value, ':');
      SplitHasTwoPartsIff(value.value, ':');
      ParseParts(rev, rt, sel, targetType, Classify(ToLower(pieces[0])), pieces[1], default)
  }

  /** The parser with both defects repaired; the rest of the model uses this one. */
  function ToConditionalExpression(rt: Runtime, sel: Selector, targetType: ClrType, value: Option<string>,
                                   default: Option<Pred>): (r: Result<Pred, Exception>)
    ensures !IsQueryString(value) && default.Some? ==> r == Success(default.value)
    ensures !IsQueryString(value) && default.None? ==> r == Failure(ArgumentException)
    ensures r.Success? ==> Some(r.value) == default || (r.value.Lambda? && r.value.param == sel.param)
  {
    Parse(Corrected, rt, sel, targetType, value, default)
  }

  /** The value of the selected property of entity `x`. */
  function PropertyValue(sel: Selector, x: Value, fns: Delegates): Value {
    Eval(sel.body, map[sel.param := x], fns)
  }

  // ---- The switch unfolded one family of arms at a time

  /** `ParseParts` wraps the arm's body in a lambda over the selector's parameter,
      passes its exception on, and falls back to the default without an arm. */
  lemma LiftArm(rev: Revision, rt: Runtime, sel: Selector, targetType: ClrType, k: Token, operand: string,
                default: Option<Pred>)
    ensures var a := Arm(rev, rt, sel.body, targetType, k, operand);
            ParseParts(rev, rt, sel, targetType, k, operand, default)
              == if a.None? then OrThrow(default)
                 else if a.value.Success? then Success(Combiner.Lambda(sel.param, a.value.value))
                 else Failure(a.value.error)
  {
  }

  lemma ComparisonArm(rev: Revision, rt: Runtime, property: Expr, targetType: ClrType, k: Token, operand: string)
    requires ComparisonOp(k).Some?
    ensures Arm(rev, rt, property, targetType, k, operand)
         == Some(Comparison(rev, rt, property, targetType, ComparisonOp(k).value, operand))
  {
  }

  lemma InShapedArm(rev: Revision, rt: Runtime, property: Expr, targetType: ClrType, k: Token, operand: string)
    requires InShape(k).Some?
    ensures IsStringOnly(k) && targetType != String ==> Arm(rev, rt, property, targetType, k, operand).None?
    ensures !(IsStringOnly(k) && targetType != String) ==>
      var f := InShape(k).value;
      Arm(rev, rt, property, targetType, k, operand)
        == Some(BuildIn(rev, rt, property, targetType, Split(operand, ','), f.isNotIn, f.caseInsensitive, f.isLike))
  {
  }

  lemma RangeArm(rev: Revision, rt: Runtime, property: Expr, targetType: ClrType, operand: string)
    ensures Arm(rev, rt, property, targetType, RangeOp, operand) == Some(Range(rev, rt, property, targetType, operand))
  {
  }

  lemma StringArms(rev: Revision, rt: Runtime, property: Expr, targetType: ClrType, operand: string)
    ensures targetType != String ==> Arm(rev, rt, property, targetType, EqCi, operand).None?
    ensures targetType == String ==>
      Arm(rev, rt, property, targetType, EqCi, operand) == Some(Success(Compare(Equal, Lower(property), Lit(Str(ToLower(operand))))))
    ensures Arm(rev, rt, property, targetType, Like, operand)
         == Some(if targetType == String then Success(Contains(property, operand)) else Failure(ArgumentException))
    ensures Arm(rev, rt, property, targetType, LikeCi, operand)
         == Some(if targetType == String then Success(Contains(Lower(property), ToLower(operand))) else Failure(ArgumentException))
  {
  }

  lemma UnknownArm(rev: Revision, rt: Runtime, property: Expr, targetType: ClrType, operand: string)
    ensures Arm(rev, rt, property, targetType, Unknown, operand).None?
  {
  }

  // ---- Properties

  /** A value that is null, empty, white space or colon-free yields the default
      predicate, or `ArgumentException` without one. Otherwise the token is the text
      before the first colon, lower-cased, and the operand the text between the first
      and the second colon; later segments are dropped. */
  lemma SplitsTokenAndOperand(rev: Revision, rt: Runtime, sel: Selector, targetType: ClrType, value: Option<string>,
                              default: Option<Pred>)
    ensures !(value.Some? && ':' in value.value) ==> Parse(rev, rt, sel, targetType, value, default) == OrThrow(default)
    ensures default.None? && !(value.Some? && ':' in value.value) ==>
      Parse(rev, rt, sel, targetType, value, default) == Failure(ArgumentException)
    ensures value.Some? && ':' in value.value ==>
      var s := value.value;
      var i := IndexOf(s, ':');
      Parse(rev, rt, sel, targetType, value, default)
        == ParseParts(rev, rt, sel, targetType, Classify(ToLower(s[..i])), Split(s[i + 1..], ':')[0], default)
  {
    IsQueryStringIff(value);
    if value.Some? && ':' in value.value {
      SplitHead(value.value, ':');
    }
  }

  /** The operand never contains a colon. */
  lemma OperandHasNoColon(s: string)
    requires ':' in s
    ensures ':' !in Split(s[IndexOf(s, ':') + 1..], ':')[0]
  {
  }

  /** An unknown token, or a string-only token on a property of another type, reaches
      the default arm. */
  lemma DefaultArm(rev: Revision, rt: Runtime, sel: Selector, targetType: ClrType, k: Token, operand: string,
                   default: Option<Pred>)
    ensures k == Unknown ==> ParseParts(rev, rt, sel, targetType, k, operand, default) == OrThrow(default)
    ensures IsStringOnly(k) && targetType != String ==>
      ParseParts(rev, rt, sel, targetType, k, operand, default) == OrThrow(default)
    ensures !IsStringOnly(k) && k != Unknown ==> Arm(rev, rt, sel.body, targetType, k, operand).Some?
  {
    LiftArm(rev, rt, sel, targetType, k, operand, default);
    if k == Unknown {
      UnknownArm(rev, rt, sel.body, targetType, operand);
    } else if ComparisonOp(k).Some? {
      ComparisonArm(rev, rt, sel.body, targetType, k, operand);
    } else if InShape(k).Some? {
      InShapedArm(rev, rt, sel.body, targetType, k, operand);
    } else if k == RangeOp {
      RangeArm(rev, rt, sel.body, targetType, operand);
    } else {
      StringArms(rev, rt, sel.body, targetType, operand);
    }
  }

  /** `lt`/`lte`/`gt`/`gte`/`eq`/`ne`: one comparison of the property with the operand
      converted to the unwrapped property type. It fails exactly when the conversion
      fails, the constant does not fit the property type, or an ordering is asked of a
      type without one. */
  lemma ComparisonMeaning(rev: Revision, rt: Runtime, sel: Selector, targetType: ClrType, k: Token, operand: string,
                          default: Option<Pred>, x: Value, fns: Delegates)
    requires ComparisonOp(k).Some?
    ensures var r := ParseParts(rev, rt, sel, targetType, k, operand, default);
            var c := ConvertToType(rev, rt, operand, Unwrap(targetType));
            var op := ComparisonOp(k).value;
            (r.Success? <==> c.Success? && IsAssignable(c.value, targetType) && (IsOrdering(op) ==> SupportsOrdering(targetType)))
            && (r.Success? ==> (Combiner.Matches(r.value, x, fns) <==> CompareValues(op, PropertyValue(sel, x, fns), c.value)))
  {
    var c := ConvertToType(rev, rt, operand, Unwrap(targetType));
    LiftArm(rev, rt, sel, targetType, k, operand, default);
    ComparisonArm(rev, rt, sel.body, targetType, k, operand);
    if c.Success? {
      TestMeaning(sel.body, ComparisonOp(k).value, c.value, "", {}, map[sel.param := x], fns);
    }
  }

  /** The `range` arm on its own: fewer than two comma parts always fail, and a
      success is the conjunction of the two inclusive bounds. */
  lemma RangeArmMeaning(rev: Revision, rt: Runtime, property: Expr, propType: ClrType, operand: string,
                        env: map<nat, Value>, fns: Delegates)
    ensures var r := Range(rev, rt, property, propType, operand);
            var bounds := Split(operand, ',');
            var u := Unwrap(propType);
            (|bounds| < 2 ==> r.Failure?)
            && (r.Success? ==>
                  |bounds| >= 2 && ConvertToType(rev, rt, bounds[0], u).Success? && ConvertToType(rev, rt, bounds[1], u).Success?
                  && (Holds(r.value, env, fns) <==>
                        CompareValues(GreaterThanOrEqual, Eval(property, env, fns), ConvertToType(rev, rt, bounds[0], u).value)
                        && CompareValues(LessThanOrEqual, Eval(property, env, fns), ConvertToType(rev, rt, bounds[1], u).value)))
  {
    var r := Range(rev, rt, property, propType, operand);
    if r.Success? {
      var bounds := Split(operand, ',');
      var u := Unwrap(propType);
      var lo := ConvertToType(rev, rt, bounds[0], u).value;
      var hi := ConvertToType(rev, rt, bounds[1], u).value;
      var lower := Compare(GreaterThanOrEqual, property, Lit(lo));
      var upper := Compare(LessThanOrEqual, property, Lit(hi));
      assert r.value == AndAlso(lower, upper);
      ConnectiveMeaning(lower, upper, 0, 0, env, fns);
      TestMeaning(property, GreaterThanOrEqual, lo, "", {}, env, fns);
      TestMeaning(property, LessThanOrEqual, hi, "", {}, env, fns);
    }
  }

  /** `range:a,b` is `a <= v && v <= b`; an operand with fewer than two comma parts
      always fails, and parts after the second are ignored. */
  lemma RangeMeaning(rev: Revision, rt: Runtime, sel: Selector, targetType: ClrType, operand: string,
                     default: Option<Pred>, x: Value, fns: Delegates)
    ensures var r := ParseParts(rev, rt, sel, targetType, RangeOp, operand, default);
            var bounds := Split(operand, ',');
            var u := Unwrap(targetType);
            (|bounds| < 2 ==> r.Failure?)
            && (r.Success? ==>
                  |bounds| >= 2 && ConvertToType(rev, rt, bounds[0], u).Success? && ConvertToType(rev, rt, bounds[1], u).Success?
                  && (Combiner.Matches(r.value, x, fns) <==>
                        CompareValues(GreaterThanOrEqual, PropertyValue(sel, x, fns), ConvertToType(rev, rt, bounds[0], u).value)
                        && CompareValues(LessThanOrEqual, PropertyValue(sel, x, fns), ConvertToType(rev, rt, bounds[1], u).value)))
  {
    LiftArm(rev, rt, sel, targetType, RangeOp, operand, default);
    RangeArm(rev, rt, sel.body, targetType, operand);
    RangeArmMeaning(rev, rt, sel.body, targetType, operand, map[sel.param := x], fns);
  }

  /** The entity satisfies an `in`-shaped test exactly when the tested value equals
      one of the converted parts. */
  lemma InSetMeaning(rev: Revision, rt: Runtime, targetType: ClrType, parts: seq<string>, caseInsensitive: bool, v: Value)
    requires ConvertAll(rev, rt, parts, Unwrap(targetType), targetType, caseInsensitive).Success?
    ensures var items := ConvertAll(rev, rt, parts, Unwrap(targetType), targetType, caseInsensitive).value;
            v in (set w | w in items) <==>
              exists i :: 0 <= i < |parts| && ConvertItem(rev, rt, parts[i], Unwrap(targetType), targetType, caseInsensitive) == Success(v)
  {
    var items := ConvertAll(rev, rt, parts, Unwrap(targetType), targetType, caseInsensitive).value;
    ConvertAllMeaning(rev, rt, parts, Unwrap(targetType), targetType, caseInsensitive);
    if v in (set w | w in items) {
      var k :| 0 <= k < |items| && items[k] == v;
      assert ConvertItem(rev, rt, parts[k], Unwrap(targetType), targetType, caseInsensitive) == Success(v);
    }
  }

  /** The conversion branch of `BuildInExpression`: the set test on the converted
      parts, or the first conversion error. */
  lemma BuildInConverting(rev: Revision, rt: Runtime, property: Expr, propType: ClrType, parts: seq<string>,
                          isNotIn: bool, caseInsensitive: bool)
    ensures var u := Unwrap(propType);
            var tested := if caseInsensitive && u == String then Lower(property) else property;
            var all := ConvertAll(rev, rt, parts, u, propType, caseInsensitive);
            var r := BuildIn(rev, rt, property, propType, parts, isNotIn, caseInsensitive, false);
            && (all.Failure? ==> r == Failure(all.error))
            && (all.Success? ==>
                  var test := InSet((set w | w in all.value), tested);
                  r == Success(if isNotIn then Negate(test) else test))
  {
  }

  /** One `in`-shaped arm that takes the conversion branch: it fails exactly when a
      part does not convert, and otherwise holds when the (possibly lower-cased)
      property equals a converted part, negated for the `nin` forms. */
  lemma InArmMeaning(rev: Revision, rt: Runtime, property: Expr, propType: ClrType, parts: seq<string>,
                     isNotIn: bool, caseInsensitive: bool, env: map<nat, Value>, fns: Delegates)
    ensures var r := BuildIn(rev, rt, property, propType, parts, isNotIn, caseInsensitive, false);
            var u := Unwrap(propType);
            var tested := if caseInsensitive && u == String then Lower(property) else property;
            (r.Success? <==> AllConvert(rev, rt, parts, u, propType, caseInsensitive))
            && (r.Success? ==>
                  (Holds(r.value, env, fns) <==>
                     (exists i :: 0 <= i < |parts| && ConvertItem(rev, rt, parts[i], u, propType, caseInsensitive) == Success(Eval(tested, env, fns)))
                     != isNotIn))
  {
    var u := Unwrap(propType);
    var tested := if caseInsensitive && u == String then Lower(property) else property;
    var all := ConvertAll(rev, rt, parts, u, propType, caseInsensitive);
    ConvertAllMeaning(rev, rt, parts, u, propType, caseInsensitive);
    BuildInConverting(rev, rt, property, propType, parts, isNotIn, caseInsensitive);
    if all.Success? {
      var values := set w | w in all.value;
      var test := InSet(values, tested);
      InSetMeaning(rev, rt, propType, parts, caseInsensitive, Eval(tested, env, fns));
      TestMeaning(tested, Equal, Null, "", values, env, fns);
      ConnectiveMeaning(test, test, 0, 0, env, fns);
    }
  }

  /** `in:v1,...,vn` holds exactly when the property equals one of the converted parts,
      and `nin` is its negation: the two succeed or fail together, and fail exactly
      when some part does not convert. */
  lemma InNinMeaning(rev: Revision, rt: Runtime, sel: Selector, targetType: ClrType, operand: string,
                     default: Option<Pred>, x: Value, fns: Delegates)
    ensures ParseParts(rev, rt, sel, targetType, In, operand, default).Success? <==>
            ParseParts(rev, rt, sel, targetType, Nin, operand, default).Success?
    ensures var r := ParseParts(rev, rt, sel, targetType, In, operand, default);
            var parts := Split(operand, ',');
            r.Success? <==> AllConvert(rev, rt, parts, Unwrap(targetType), targetType, false)
    ensures var r := ParseParts(rev, rt, sel, targetType, In, operand, default);
            var n := ParseParts(rev, rt, sel, targetType, Nin, operand, default);
            var parts := Split(operand, ',');
            var u := Unwrap(targetType);
            (r.Success? ==>
                  (Combiner.Matches(r.value, x, fns) <==>
                     (exists i :: 0 <= i < |parts| && ConvertItem(rev, rt, parts[i], u, targetType, false) == Success(PropertyValue(sel, x, fns))))
                  && Combiner.Matches(n.value, x, fns) == !Combiner.Matches(r.value, x, fns))
  {
    var parts := Split(operand, ',');
    var env := map[sel.param := x];
    InShapedArm(rev, rt, sel.body, targetType, In, operand);
    InShapedArm(rev, rt, sel.body, targetType, Nin, operand);
    LiftArm(rev, rt, sel, targetType, In, operand, default);
    LiftArm(rev, rt, sel, targetType, Nin, operand, default);
    InArmMeaning(rev, rt, sel.body, targetType, parts, false, false, env, fns);
    InArmMeaning(rev, rt, sel.body, targetType, parts, true, false, env, fns);
  }

  /** On a property of a type other than string, `inlike`/`ninlike` take the
      conversion branch and behave exactly like `in`/`nin`. */
  lemma InLikeOnNonStringIsIn(rev: Revision, rt: Runtime, sel: Selector, targetType: ClrType, operand: string,
                              default: Option<Pred>)
    requires Declarable(targetType) && targetType != String
    ensures ParseParts(rev, rt, sel, targetType, InLike, operand, default)
         == ParseParts(rev, rt, sel, targetType, In, operand, default)
    ensures ParseParts(rev, rt, sel, targetType, NinLike, operand, default)
         == ParseParts(rev, rt, sel, targetType, Nin, operand, default)
  {
    LikeOffStringToken(rev, rt, sel, targetType, InLike, In, false, operand, default);
    LikeOffStringToken(rev, rt, sel, targetType, NinLike, Nin, true, operand, default);
  }

  /** One `like` token and its plain counterpart off a string property. */
  lemma LikeOffStringToken(rev: Revision, rt: Runtime, sel: Selector, targetType: ClrType, like: Token, plain: Token,
                           isNotIn: bool, operand: string, default: Option<Pred>)
    requires Declarable(targetType) && targetType != String
    requires InShape(like) == Some(InFlags(isNotIn, false, true)) && InShape(plain) == Some(InFlags(isNotIn, false, false))
    ensures ParseParts(rev, rt, sel, targetType, like, operand, default)
         == ParseParts(rev, rt, sel, targetType, plain, operand, default)
  {
    UnwrapString(targetType);
    InShapedArm(rev, rt, sel.body, targetType, like, operand);
    InShapedArm(rev, rt, sel.body, targetType, plain, operand);
    BuildInLikeOffString(rev, rt, sel.body, targetType, Split(operand, ','), isNotIn);
    LiftArm(rev, rt, sel, targetType, like, operand, default);
    LiftArm(rev, rt, sel, targetType, plain, operand, default);
  }

  /** Off a string property the `like` flag of `BuildInExpression` changes nothing. */
  lemma BuildInLikeOffString(rev: Revision, rt: Runtime, property: Expr, propType: ClrType, parts: seq<string>, isNotIn: bool)
    requires Unwrap(propType) != String
    ensures BuildIn(rev, rt, property, propType, parts, isNotIn, false, true) == BuildIn(rev, rt, property, propType, parts, isNotIn, false, false)
  {
  }

  /** Whether the text contains one of the needles. */
  predicate ContainsAny(text: string, needles: seq<string>) {
    exists i :: 0 <= i < |needles| && ContainsText(text, needles[i])
  }

  /** The `Contains` disjunction over the distinct needles holds exactly when the
      string tested contains one of the original parts. */
  lemma ContainsFoldMeaning(prop: Expr, parts: seq<string>, env: map<nat, Value>, fns: Delegates)
    requires |parts| >= 1
    ensures var p := Eval(prop, env, fns);
            Holds(OrFold(ContainsTests(prop, Distinct(parts))), env, fns) <==> p.Str? && ContainsAny(p.s, parts)
  {
    var needles := Distinct(parts);
    var cs := ContainsTests(prop, needles);
    var p := Eval(prop, env, fns);
    OrFoldMeaning(cs, env, fns);
    forall i | 0 <= i < |cs|
      ensures Holds(cs[i], env, fns) <==> p.Str? && ContainsText(p.s, needles[i])
    {
      TestMeaning(prop, Equal, Null, needles[i], {}, env, fns);
    }
    if p.Str? && ContainsAny(p.s, parts) {
      var k :| 0 <= k < |parts| && ContainsText(p.s, parts[k]);
      assert parts[k] in needles;
      var j :| 0 <= j < |needles| && needles[j] == parts[k];
      assert Holds(cs[j], env, fns);
    }
    if Holds(OrFold(cs), env, fns) {
      var j :| 0 <= j < |cs| && Holds(cs[j], env, fns);
      assert needles[j] in parts;
      var k :| 0 <= k < |parts| && parts[k] == needles[j];
      assert ContainsText(p.s, parts[k]);
    }
  }

  /** One `inlike`-shaped arm on a string property: never fails, holds exactly when
      the (possibly lower-cased) property contains one of the (possibly lower-cased)
      parts, negated for the `nin` forms. The constant branch for an empty part list is
      never taken because splitting always yields a part. */
  lemma InLikeArmMeaning(rev: Revision, rt: Runtime, property: Expr, parts: seq<string>, isNotIn: bool, caseInsensitive: bool,
                         env: map<nat, Value>, fns: Delegates)
    requires |parts| >= 1
    ensures var r := BuildIn(rev, rt, property, String, parts, isNotIn, caseInsensitive, true);
            var tested := if caseInsensitive then Lower(property) else property;
            var needles := if caseInsensitive then LowerAll(parts) else parts;
            var p := Eval(tested, env, fns);
            r.Success? && (Holds(r.value, env, fns) <==> (p.Str? && ContainsAny(p.s, needles)) != isNotIn)
  {
    var tested := if caseInsensitive then Lower(property) else property;
    var needles := if caseInsensitive then LowerAll(parts) else parts;
    ContainsFoldMeaning(tested, needles, env, fns);
    var any := OrFold(ContainsTests(tested, Distinct(needles)));
    ConnectiveMeaning(any, any, 0, 0, env, fns);
  }

  /** One `inlike`-shaped token on a string property, through the switch: the
      predicate exists and holds exactly when the arm's test does. */
  lemma InLikeToken(rev: Revision, rt: Runtime, sel: Selector, k: Token, operand: string,
                    default: Option<Pred>, x: Value, fns: Delegates)
    requires InShape(k).Some? && InShape(k).value.isLike
    ensures var f := InShape(k).value;
            var parts := Split(operand, ',');
            var tested := if f.caseInsensitive then Lower(sel.body) else sel.body;
            var needles := if f.caseInsensitive then LowerAll(parts) else parts;
            var p := Eval(tested, map[sel.param := x], fns);
            var r := ParseParts(rev, rt, sel, String, k, operand, default);
            r.Success? && (Combiner.Matches(r.value, x, fns) <==> (p.Str? && ContainsAny(p.s, needles)) != f.isNotIn)
  {
    var f := InShape(k).value;
    InShapedArm(rev, rt, sel.body, String, k, operand);
    LiftArm(rev, rt, sel, String, k, operand, default);
    InLikeArmMeaning(rev, rt, sel.body, Split(operand, ','), f.isNotIn, f.caseInsensitive, map[sel.param := x], fns);
  }

  /** On a string property `inlike` holds when the property contains one of the parts
      and `ninlike` is its negation; neither can fail. */
  lemma InLikeMeaning(rev: Revision, rt: Runtime, sel: Selector, operand: string,
                      default: Option<Pred>, x: Value, fns: Delegates)
    ensures var parts := Split(operand, ',');
            var v := PropertyValue(sel, x, fns);
            var il := ParseParts(rev, rt, sel, String, InLike, operand, default);
            var nl := ParseParts(rev, rt, sel, String, NinLike, operand, default);
            il.Success? && nl.Success?
            && (Combiner.Matches(il.value, x, fns) <==> v.Str? && ContainsAny(v.s, parts))
            && Combiner.Matches(nl.value, x, fns) == !Combiner.Matches(il.value, x, fns)
  {
    InLikeToken(rev, rt, sel, InLike, operand, default, x, fns);
    InLikeToken(rev, rt, sel, NinLike, operand, default, x, fns);
  }

  /** `inlikeci`/`ninlikeci` on a string property: the lower-cased property contains
      one of the lower-cased parts, or none of them. */
  lemma InLikeCiMeaning(rev: Revision, rt: Runtime, sel: Selector, operand: string,
                        default: Option<Pred>, x: Value, fns: Delegates)
    ensures var parts := Split(operand, ',');
            var v := PropertyValue(sel, x, fns);
            var ilc := ParseParts(rev, rt, sel, String, InLikeCi, operand, default);
            var nlc := ParseParts(rev, rt, sel, String, NinLikeCi, operand, default);
            ilc.Success? && nlc.Success?
            && (Combiner.Matches(ilc.value, x, fns) <==> v.Str? && ContainsAny(ToLower(v.s), LowerAll(parts)))
            && Combiner.Matches(nlc.value, x, fns) == !Combiner.Matches(ilc.value, x, fns)
  {
    InLikeCiToken(rev, rt, sel, InLikeCi, operand, default, x, fns);
    InLikeCiToken(rev, rt, sel, NinLikeCi, operand, default, x, fns);
  }

  /** `inlikeci` or `ninlikeci` on a string property, through the switch. */
  lemma InLikeCiToken(rev: Revision, rt: Runtime, sel: Selector, k: Token, operand: string,
                      default: Option<Pred>, x: Value, fns: Delegates)
    requires k == InLikeCi || k == NinLikeCi
    ensures var v := PropertyValue(sel, x, fns);
            var r := ParseParts(rev, rt, sel, String, k, operand, default);
            r.Success?
            && (Combiner.Matches(r.value, x, fns) <==>
                  (v.Str? && ContainsAny(ToLower(v.s), LowerAll(Split(operand, ',')))) != (k == NinLikeCi))
  {
    LowerMeaning(sel.body, map[sel.param := x], fns);
    InLikeToken(rev, rt, sel, k, operand, default, x, fns);
  }

  /** `like`, `likeci` and `eqci` on a string property: containment, containment of
      lower-cased text, and equality of lower-cased text. `like` and `likeci` on any
      other property type throw `ArgumentException`. */
  lemma LikeMeaning(rev: Revision, rt: Runtime, sel: Selector, targetType: ClrType, operand: string,
                    default: Option<Pred>, x: Value, fns: Delegates)
    ensures targetType != String ==>
      ParseParts(rev, rt, sel, targetType, Like, operand, default) == Failure(ArgumentException)
      && ParseParts(rev, rt, sel, targetType, LikeCi, operand, default) == Failure(ArgumentException)
    ensures targetType == String ==>
      var v := PropertyValue(sel, x, fns);
      var l := ParseParts(rev, rt, sel, targetType, Like, operand, default);
      var lc := ParseParts(rev, rt, sel, targetType, LikeCi, operand, default);
      var e := ParseParts(rev, rt, sel, targetType, EqCi, operand, default);
      l.Success? && lc.Success? && e.Success?
      && (Combiner.Matches(l.value, x, fns) <==> v.Str? && ContainsText(v.s, operand))
      && (Combiner.Matches(lc.value, x, fns) <==> v.Str? && ContainsText(ToLower(v.s), ToLower(operand)))
      && (Combiner.Matches(e.value, x, fns) <==> v.Str? && ToLower(v.s) == ToLower(operand))
  {
    StringArms(rev, rt, sel.body, targetType, operand);
    LiftArm(rev, rt, sel, targetType, Like, operand, default);
    LiftArm(rev, rt, sel, targetType, LikeCi, operand, default);
    LiftArm(rev, rt, sel, targetType, EqCi, operand, default);
    if targetType == String {
      var env := map[sel.param := x];
      TestMeaning(sel.body, Equal, Null, operand, {}, env, fns);
      TestMeaning(Lower(sel.body), Equal, Str(ToLower(operand)), ToLower(operand), {}, env, fns);
    }
  }


  /** A string part converts to itself under any runtime, lower-cased in the corrected
      case-insensitive arms. */
  lemma StringItemConverts(rev: Revision, rt: Runtime, part: string, caseInsensitive: bool)
    ensures ConvertItem(rev, rt, part, String, String, caseInsensitive)
         == Success(Str(if caseInsensitive && rev.Corrected? then ToLower(part) else part))
  {
  }

  /** One `inci`-shaped arm on a string property: never fails, and holds exactly when
      the lower-cased property equals one of the parts as the revision converts them,
      negated for `ninci`. */
  lemma InciArmMeaning(rev: Revision, rt: Runtime, property: Expr, parts: seq<string>, isNotIn: bool,
                       env: map<nat, Value>, fns: Delegates)
    ensures var r := BuildIn(rev, rt, property, String, parts, isNotIn, true, false);
            var p := Eval(property, env, fns);
            r.Success?
            && (Holds(r.value, env, fns) <==>
                  (p.Str? && exists i :: 0 <= i < |parts| && ToLower(p.s) == (if rev.Corrected? then ToLower(parts[i]) else parts[i]))
                  != isNotIn)
  {
    forall i | 0 <= i < |parts|
      ensures ConvertItem(rev, rt, parts[i], String, String, true)
           == Success(Str(if rev.Corrected? then ToLower(parts[i]) else parts[i]))
    {
      StringItemConverts(rev, rt, parts[i], true);
    }
    TestMeaning(property, Equal, Null, "", {}, env, fns);
    InArmMeaning(rev, rt, property, String, parts, isNotIn, true, env, fns);
  }

  /** `inci`/`ninci` of a revision: the property matches when its lower-cased text
      equals one of the parts, lower-cased in the corrected revision and taken as they
      are in the code as written; `ninci` is the negation. */
  lemma InciMeaning(rev: Revision, rt: Runtime, sel: Selector, operand: string, default: Option<Pred>, x: Value, fns: Delegates)
    ensures var parts := Split(operand, ',');
            var v := PropertyValue(sel, x, fns);
            var r := ParseParts(rev, rt, sel, String, InCi, operand, default);
            var n := ParseParts(rev, rt, sel, String, NinCi, operand, default);
            r.Success? && n.Success?
            && (Combiner.Matches(r.value, x, fns) <==>
                  v.Str? && exists i :: 0 <= i < |parts| && ToLower(v.s) == (if rev.Corrected? then ToLower(parts[i]) else parts[i]))
            && Combiner.Matches(n.value, x, fns) == !Combiner.Matches(r.value, x, fns)
  {
    InciToken(rev, rt, sel, InCi, operand, default, x, fns);
    InciToken(rev, rt, sel, NinCi, operand, default, x, fns);
  }

  /** `inci` or `ninci` on a string property, through the switch. */
  lemma InciToken(rev: Revision, rt: Runtime, sel: Selector, k: Token, operand: string, default: Option<Pred>,
                  x: Value, fns: Delegates)
    requires k == InCi || k == NinCi
    ensures var parts := Split(operand, ',');
            var v := PropertyValue(sel, x, fns);
            var r := ParseParts(rev, rt, sel, String, k, operand, default);
            r.Success?
            && (Combiner.Matches(r.value, x, fns) <==>
                  (v.Str? && exists i :: 0 <= i < |parts| && ToLower(v.s) == (if rev.Corrected? then ToLower(parts[i]) else parts[i]))
                  != (k == NinCi))
  {
    InShapedArm(rev, rt, sel.body, String, k, operand);
    LiftArm(rev, rt, sel, String, k, operand, default);
    InciArmMeaning(rev, rt, sel.body, Split(operand, ','), k == NinCi, map[sel.param := x], fns);
  }

  // ---- Findings

  /** As written, `inci` lower-cases the property but not the parts, so an upper-case
      part never matches: `"inci:ABC"` rejects an entity whose property is `"ABC"`,
      while the corrected parser accepts it. */
  lemma InciAsWrittenIgnoresCase(rt: Runtime, fns: Delegates)
    ensures var sel := Selector(0, Member(Param(0), "Name"));
            var x := Record("Country", map["Name" := Str("ABC")]);
            var asWritten := ParseParts(AsWritten, rt, sel, String, InCi, "ABC", None);
            var corrected := ParseParts(Corrected, rt, sel, String, InCi, "ABC", None);
            asWritten.Success? && !Combiner.Matches(asWritten.value, x, fns)
            && corrected.Success? && Combiner.Matches(corrected.value, x, fns)
  {
    var sel := Selector(0, Member(Param(0), "Name"));
    var x := Record("Country", map["Name" := Str("ABC")]);
    assert PropertyValue(sel, x, fns) == Str("ABC");
    assert Split("ABC", ',') == ["ABC"];
    assert ToLower("ABC") == "abc";
    assert ToLower("ABC") != "ABC";
    InciToken(AsWritten, rt, sel, InCi, "ABC", None, x, fns);
    InciToken(Corrected, rt, sel, InCi, "ABC", None, x, fns);
  }

  /** `"inci:ABC"` reaches the `inci` arm with operand `"ABC"`. */
  lemma InciQueryString(rev: Revision, rt: Runtime, sel: Selector, default: Option<Pred>)
    ensures Parse(rev, rt, sel, String, Some("inci:ABC"), default) == ParseParts(rev, rt, sel, String, InCi, "ABC", default)
  {
    var s := "inci:ABC";
    InciQueryPieces();
    InShapedNames(InCi);
    assert Classify(ToLower(s[..IndexOf(s, ':')])) == InCi;
    assert Split(s[IndexOf(s, ':') + 1..], ':')[0] == "ABC";
    SplitsTokenAndOperand(rev, rt, sel, String, Some(s), default);
  }

  /** How `"inci:ABC"` splits: the token `inci`, already lower case, and the operand `ABC`. */
  lemma InciQueryPieces()
    ensures var s := "inci:ABC";
            ':' in s && IndexOf(s, ':') == 4 && s[..4] == Name(InCi) && ToLower(Name(InCi)) == Name(InCi)
            && Split(s[5..], ':')[0] == "ABC"
  {
    var s := "inci:ABC";
    assert s[4] == ':';
    assert s[5..] == "ABC";
    assert Split("ABC", ':') == ["ABC"];
  }


  /** As written, a comparison on a `DateTimeOffset` property always fails once the
      date parses: the parse yields a `DateTime`, which the typed constant rejects;
      the same holds for `in`, where the cast to `DateTimeOffset` fails. The corrected
      conversion yields a `DateTimeOffset` and the predicate compares with it. */
  lemma DateTimeOffsetAsWrittenFails(rt: Runtime, sel: Selector, targetType: ClrType, k: Token, operand: string,
                                     default: Option<Pred>, x: Value, fns: Delegates)
    requires targetType == DateTimeOffset || targetType == Nullable(DateTimeOffset)
    requires ComparisonOp(k).Some? && rt.tryParseDate(operand).Some?
    ensures ParseParts(AsWritten, rt, sel, targetType, k, operand, default) == Failure(ArgumentException)
    ensures var r := ParseParts(Corrected, rt, sel, targetType, k, operand, default);
            r.Success?
            && (Combiner.Matches(r.value, x, fns) <==>
                  CompareValues(ComparisonOp(k).value, PropertyValue(sel, x, fns),
                                Moment(DateTimeOffset, rt.tryParseDate(operand).value)))
    ensures ',' !in operand ==>
      ParseParts(AsWritten, rt, sel, targetType, In, operand, default) == Failure(InvalidCastException)
  {
    ComparisonMeaning(Corrected, rt, sel, targetType, k, operand, default, x, fns);
    ComparisonMeaning(AsWritten, rt, sel, targetType, k, operand, default, x, fns);
    if ',' !in operand {
      SplitHead(operand, ',');
      assert Split(operand, ',') == [operand];
      InShapedArm(AsWritten, rt, sel.body, targetType, In, operand);
      LiftArm(AsWritten, rt, sel, targetType, In, operand, default);
    }
  }
}
