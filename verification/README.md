# A Dafny model of EntityFrameworkCore.Specification

The library describes database queries as data. A *specification* holds a
criteria predicate, include paths, ordering keys, tracking and split-query flags
and an optional primary key. The evaluator turns a specification into a LINQ
query. Around that core sit:

- a predicate algebra (`ExpressionCombiner`, `ExpressionBuilder`,
  `ParameterRebinder`): AND, OR and NOT of expression trees, n-ary folds, and a
  `True` / `False` sentinel;
- a small query language (`Specification.ToConditionalExpression`) that turns
  strings such as `"gte:10"`, `"range:1,5"` or `"inlikeci:ab,cd"` into predicates;
- a generator of `ExecuteUpdate` setter chains (`ExpressionGenerator`), typed
  or driven by a `Dictionary<string, object>` of dotted property paths;
- flattening of nested dictionaries and JSON elements (`DictionaryHelper`);
- include-path extraction from lambdas (`IncludePathBuilder`);
- the `OrderableSpecification` wrapper with `ThenBy` / `ThenByDescending`;
- small helpers: numeric and comparable type tests, and, from the test and
  benchmark projects, `Pageable`, `Sortable` and the benchmark `TypeExtension`.

The model is functional. Expression trees, JSON elements, boxed values, CLR types
and the specification record are immutable datatypes. Every operation is a pure
function, and an operation that throws returns a `Result` whose failure names the
.NET exception type. Predicates have an evaluation semantics (`Expressions.Eval`,
`Combiner.Matches`), so the lemmas state what a built predicate *means* for every
entity. The evaluator is an operator log (`Evaluator.GenerateQuery`) plus a
reference execution over a sequence of rows (`Evaluator.Run`). The database key,
the provider's ordering, opaque delegates and the type-specific rules of
`Convert.ChangeType` and `DateTime.TryParse` are parameters.

Two readings of the code appear where the model records a defect (see
"## Findings"). `Types.Revision` selects either the code as written (`AsWritten`)
or the evidently intended behaviour (`Corrected`). Both are proved about, and the
rest of the model uses `Corrected` (`Conditional.ToConditionalExpression`).

Files under `Implementation/` and `Abstraction/` belong to two versions of the
library. The wrapper and the extension methods use members that the shown
`Specification.cs` lacks (`OrderByExpressions`, `AppendThenBy`, `IncludeActions`,
`ExecuteUpdateProperties`, `ToConditionalExpressionInternal`). The record
`Specification.Spec` is the union of the fields of both versions. `AppendThenBy`
is modelled as an append of `(key, isDescending)` to `OrderByExpressions`, as the
wrapper's use of it implies (OrderableSpecification.cs:78).

One module per source component:

| file | module | models |
|---|---|---|
| wrappers.dfy | Wrappers | `Option` and `Result` |
| types.dfy | Types | CLR types, boxed values, JSON elements, `Convert.ChangeType`, casts, the member schema, `TypeExtension` |
| text.dfy | Text | `Split`, `Join`, `ToLower`, white space, `Contains` |
| expressions.dfy | Expressions | expression trees, their evaluation, `ParameterRebinder`, `Expression.Constant` |
| combiner.dfy | Combiner | `ExpressionCombiner` |
| builder.dfy | Builder | `ExpressionBuilder` |
| operations.dfy | Operations | the `EqualOperation` / `CompareOperation` mappings of `SpecificationExtension` |
| conditional.dfy | Conditional | `ToConditionalExpression` and its local functions |
| dictionary.dfy | Dictionary | `DictionaryHelper` |
| generator.dfy | Generator | both `BuildUpdateExpression` overloads |
| includepath.dfy | IncludePath | `IncludePathBuilder` |
| specification.dfy | Specification | the record, its constructors and mutators |
| orderable.dfy | Orderable | `OrderableSpecification` |
| evaluator.dfy | Evaluator | `SpecificationEvaluator.GenerateQuery` |
| paging.dfy | Paging | `Pageable` |
| sorting.dfy | Sorting | `Sortable` |
| helpers.dfy | Helpers | the benchmark `TypeExtension` and `PagedData` |

## Model

| member | source | states |
|---|---|---|
| Combiner.True | src/Softoverse.EntityFrameworkCore.Specification/Helpers/ExpressionCombiner.cs:106-109 | `True()` is a closed lambda that admits every entity. |
| Combiner.False | src/Softoverse.EntityFrameworkCore.Specification/Helpers/ExpressionCombiner.cs:111-114 | `False()` is a closed lambda that admits no entity. |
| Combiner.SentinelMeaning | src/Softoverse.EntityFrameworkCore.Specification/Helpers/ExpressionCombiner.cs:106-114 | `True()` admits every entity and `False()` admits none. |
| Combiner.Rebound | src/Softoverse.EntityFrameworkCore.Specification/Helpers/ExpressionCombiner.cs:12-15 | A body moved onto the shared parameter mentions no other parameter. |
| Combiner.ReboundMeaning | src/Softoverse.EntityFrameworkCore.Specification/Helpers/ParameterRebinder.cs:21-24 | The rebound body answers, for every entity, what the original lambda answers. |
| Combiner.And | src/Softoverse.EntityFrameworkCore.Specification/Helpers/ExpressionCombiner.cs:7-18 | The combined predicate is a closed lambda over the one new parameter, whatever the operands. |
| Combiner.Or | src/Softoverse.EntityFrameworkCore.Specification/Helpers/ExpressionCombiner.cs:26-37 | The combined predicate is a closed lambda over the one new parameter. |
| Combiner.Not | src/Softoverse.EntityFrameworkCore.Specification/Helpers/ExpressionCombiner.cs:45-53 | The negated predicate is a closed lambda over the one new parameter. |
| Combiner.AndMeaning | src/Softoverse.EntityFrameworkCore.Specification/Helpers/ExpressionCombiner.cs:7-18 | `And` holds for an entity exactly when both operands hold; this includes the sentinel shortcut, which returns the other operand. |
| Combiner.OrMeaning | src/Softoverse.EntityFrameworkCore.Specification/Helpers/ExpressionCombiner.cs:26-37 | `Or` of two operands other than the `True` sentinel holds exactly when one of them holds. |
| Combiner.OrSentinelIsIdentity | src/Softoverse.EntityFrameworkCore.Specification/Helpers/ExpressionCombiner.cs:28-29 | `Or(True, p)` and `Or(p, True)` are `p` itself, so `Or(True, False)` admits nothing although `true || false` holds. |
| Combiner.NotMeaning | src/Softoverse.EntityFrameworkCore.Specification/Helpers/ExpressionCombiner.cs:45-53 | `Not` maps `True` to `False` and `False` to `True`, and holds exactly when its operand does not. |
| Combiner.AndChain | src/Softoverse.EntityFrameworkCore.Specification/Helpers/ExpressionCombiner.cs:63-68 | The left-nested AND loop yields a closed lambda. |
| Combiner.OrChain | src/Softoverse.EntityFrameworkCore.Specification/Helpers/ExpressionCombiner.cs:78-83 | The left-nested OR loop yields a closed lambda. |
| Combiner.NotChain | src/Softoverse.EntityFrameworkCore.Specification/Helpers/ExpressionCombiner.cs:93-98 | The AND-NOT loop yields a closed lambda. |
| Combiner.CombineWithAnd | src/Softoverse.EntityFrameworkCore.Specification/Helpers/ExpressionCombiner.cs:61-74 | The AND fold of well-formed predicates is a closed lambda. |
| Combiner.CombineWithOr | src/Softoverse.EntityFrameworkCore.Specification/Helpers/ExpressionCombiner.cs:76-89 | The OR fold of well-formed predicates is a closed lambda. |
| Combiner.CombineWithNot | src/Softoverse.EntityFrameworkCore.Specification/Helpers/ExpressionCombiner.cs:91-104 | The NOT fold of well-formed predicates is a closed lambda. |
| Combiner.CombineShape | src/Softoverse.EntityFrameworkCore.Specification/Helpers/ExpressionCombiner.cs:61-89 | An empty list folds to `True`, a one-element list to that element, and a longer list nests to the left. |
| Combiner.CombineWithAndMeaning | src/Softoverse.EntityFrameworkCore.Specification/Helpers/ExpressionCombiner.cs:61-74 | The AND fold holds for an entity exactly when every element holds. |
| Combiner.OrChainNotSentinel | src/Softoverse.EntityFrameworkCore.Specification/Helpers/ExpressionCombiner.cs:76-89 | An OR chain over elements other than `True` never produces `True`. |
| Combiner.CombineWithOrMeaning | src/Softoverse.EntityFrameworkCore.Specification/Helpers/ExpressionCombiner.cs:76-89 | Without `True` among the elements, a non-empty OR fold holds exactly when some element holds, and an empty one is `True`. |
| Combiner.CombineWithNotMeaning | src/Softoverse.EntityFrameworkCore.Specification/Helpers/ExpressionCombiner.cs:91-104 | The NOT fold holds exactly when the first element holds and none of the others do. |
| Combiner.When | src/Softoverse.EntityFrameworkCore.Specification/Helpers/ExpressionCombiner.cs:116-119 | With a true condition the expression itself is returned; otherwise the result admits every entity; a closed operand gives a closed result. |
| Combiner.WhenMeaning | src/Softoverse.EntityFrameworkCore.Specification/Helpers/ExpressionCombiner.cs:116-119 | `When(false, e)` is `True`, which admits everything, and `When(true, e)` is `e`. |
| Combiner.Call1 | src/Softoverse.EntityFrameworkCore.Specification/Helpers/ExpressionCombiner.cs:126 | `x => f(x)` mentions only its own parameter. |
| Combiner.ToExpression | src/Softoverse.EntityFrameworkCore.Specification/Helpers/ExpressionCombiner.cs:123-127 | Wrapping a delegate, or the null delegate, yields a closed lambda. |
| Combiner.DelegateLambdaMeaning | src/Softoverse.EntityFrameworkCore.Specification/Helpers/ExpressionCombiner.cs:123-127 | `x => f(x)` admits exactly the entities the delegate accepts. |
| Combiner.WhenFunc | src/Softoverse.EntityFrameworkCore.Specification/Helpers/ExpressionCombiner.cs:144-147 | With a false condition or a null delegate the result admits everything; otherwise it admits exactly what the delegate accepts. |
| Combiner.AndFunc | src/Softoverse.EntityFrameworkCore.Specification/Helpers/ExpressionCombiner.cs:129-132 | The delegate conjunction is a closed lambda. |
| Combiner.OrFunc | src/Softoverse.EntityFrameworkCore.Specification/Helpers/ExpressionCombiner.cs:134-137 | The delegate disjunction is a closed lambda. |
| Combiner.NotFunc | src/Softoverse.EntityFrameworkCore.Specification/Helpers/ExpressionCombiner.cs:139-142 | The delegate negation is a closed lambda. |
| Combiner.FuncOverloadsMeaning | src/Softoverse.EntityFrameworkCore.Specification/Helpers/ExpressionCombiner.cs:123-147 | The delegate overloads compute `&&`, `||` and `!` of the delegates' answers, and `ToExpression(null)` and `When(false, f)` are `True`. |
| Combiner.CapturedInvokeNeverReturns | src/Softoverse.EntityFrameworkCore.Specification/Helpers/ExpressionCombiner.cs:149-162 | As written, a delegate fold of two or more delegates never returns, whatever the stack depth; a single delegate answers as itself. |
| Combiner.FuncChainMeaning | src/Softoverse.EntityFrameworkCore.Specification/Helpers/ExpressionCombiner.cs:149-192 | The intended closure chain computes all of, some of, or the first-and-none-of-the-rest of the delegates. |
| Combiner.CombineWithAndFunc | src/Softoverse.EntityFrameworkCore.Specification/Helpers/ExpressionCombiner.cs:149-162 | The corrected delegate AND fold is a closed lambda, and an empty one admits everything; its meaning is `Combiner.CombineFuncMeaning`. |
| Combiner.CombineWithOrFunc | src/Softoverse.EntityFrameworkCore.Specification/Helpers/ExpressionCombiner.cs:164-177 | The corrected delegate OR fold is a closed lambda, and an empty one admits everything; its meaning is `Combiner.CombineFuncMeaning`. |
| Combiner.CombineWithNotFunc | src/Softoverse.EntityFrameworkCore.Specification/Helpers/ExpressionCombiner.cs:179-192 | The corrected delegate AND-NOT fold is a closed lambda, and an empty one admits everything; its meaning is `Combiner.CombineFuncMeaning`. |
| Combiner.CombineFuncMeaning | src/Softoverse.EntityFrameworkCore.Specification/Helpers/ExpressionCombiner.cs:149-192 | The corrected delegate folds hold for all, some, or first-but-no-other delegates, and are `True` when there are none. |
| Builder.And | src/Softoverse.EntityFrameworkCore.Specification/Helpers/ExpressionBuilder.cs:7-14 | The result is null exactly when both sides are null, and is well formed. |
| Builder.Or | src/Softoverse.EntityFrameworkCore.Specification/Helpers/ExpressionBuilder.cs:16-23 | The result is null exactly when both sides are null, and is well formed. |
| Builder.Not | src/Softoverse.EntityFrameworkCore.Specification/Helpers/ExpressionBuilder.cs:25-30 | The result is a closed lambda, even for a null operand. |
| Builder.CombineWithAnd | src/Softoverse.EntityFrameworkCore.Specification/Helpers/ExpressionBuilder.cs:32-37 | The result is a closed lambda for a null, empty or present sequence. |
| Builder.CombineWithOr | src/Softoverse.EntityFrameworkCore.Specification/Helpers/ExpressionBuilder.cs:39-44 | The result is a closed lambda for a null, empty or present sequence. |
| Builder.CombineWithNot | src/Softoverse.EntityFrameworkCore.Specification/Helpers/ExpressionBuilder.cs:46-51 | The result is a closed lambda for a null, empty or present sequence. |
| Builder.When | src/Softoverse.EntityFrameworkCore.Specification/Helpers/ExpressionBuilder.cs:63-66 | With a true condition the expression is returned as is, otherwise `True`. |
| Builder.AndMeaning | src/Softoverse.EntityFrameworkCore.Specification/Helpers/ExpressionBuilder.cs:7-14 | A null side is no constraint: the result admits an entity exactly when both sides do, a null side yields the other side, and `And(null, null)` is null, never `True`. |
| Builder.OrMeaning | src/Softoverse.EntityFrameworkCore.Specification/Helpers/ExpressionBuilder.cs:16-23 | A null side yields the other side unchanged, `Or(null, null)` is null, and two present non-sentinel sides give their disjunction. |
| Builder.NotMeaning | src/Softoverse.EntityFrameworkCore.Specification/Helpers/ExpressionBuilder.cs:25-30 | `Not(null)` admits everything; otherwise the result is the combiner's negation and holds exactly when the operand does not. |
| Builder.CombineDelegates | src/Softoverse.EntityFrameworkCore.Specification/Helpers/ExpressionBuilder.cs:32-51 | A present sequence is passed to the combiner unchanged, and a null sequence gives `True`. |
| Builder.AndFunc | src/Softoverse.EntityFrameworkCore.Specification/Helpers/ExpressionBuilder.cs:69-76 | The result is a closed lambda, even when both sides are null. |
| Builder.OrFunc | src/Softoverse.EntityFrameworkCore.Specification/Helpers/ExpressionBuilder.cs:78-85 | The result is a closed lambda, even when both sides are null. |
| Builder.NotFunc | src/Softoverse.EntityFrameworkCore.Specification/Helpers/ExpressionBuilder.cs:87-92 | The result is a closed lambda, even for a null delegate. |
| Builder.FuncMeaning | src/Softoverse.EntityFrameworkCore.Specification/Helpers/ExpressionBuilder.cs:69-97 | Delegate `And` treats a null side as no constraint, so `And(null, null)` is `True`; `Or` of two delegates is their disjunction and a null side yields the other; `Not(null)` is `True`; `When` defers to the combiner. |
| Builder.WhenFunc | src/Softoverse.EntityFrameworkCore.Specification/Helpers/ExpressionBuilder.cs:94-97 | A false condition or a null delegate gives a lambda admitting everything; otherwise the lambda admits exactly what the delegate accepts. |
| Builder.CombineWithAndFunc | src/Softoverse.EntityFrameworkCore.Specification/Helpers/ExpressionBuilder.cs:99-104 | Corrected fold. A closed lambda; a null or empty sequence admits everything, as the source does. A present sequence goes to the corrected combiner fold, whose meaning is `Builder.CombineFuncMeaning`; as written, two or more delegates never return (`Builder.FuncFoldsAsWrittenNeverReturn`). |
| Builder.CombineWithOrFunc | src/Softoverse.EntityFrameworkCore.Specification/Helpers/ExpressionBuilder.cs:106-111 | Corrected fold. A closed lambda; a null or empty sequence admits everything, as the source does. A present sequence goes to the corrected combiner fold, whose meaning is `Builder.CombineFuncMeaning`; as written, two or more delegates never return (`Builder.FuncFoldsAsWrittenNeverReturn`). |
| Builder.CombineWithNotFunc | src/Softoverse.EntityFrameworkCore.Specification/Helpers/ExpressionBuilder.cs:113-118 | Corrected fold. A closed lambda; a null or empty sequence admits everything, as the source does. A present sequence goes to the corrected combiner fold, whose meaning is `Builder.CombineFuncMeaning`; as written, two or more delegates never return (`Builder.FuncFoldsAsWrittenNeverReturn`). |
| Builder.CombineFuncMeaning | src/Softoverse.EntityFrameworkCore.Specification/Helpers/ExpressionBuilder.cs:99-118 | Corrected folds: `True` for a null or empty sequence, as the source does, and otherwise they hold for all, some, or first-but-no-other delegates. This is the evidently intended meaning, not what the source computes for two or more delegates. |
| Builder.FuncFoldsAsWrittenNeverReturn | src/Softoverse.EntityFrameworkCore.Specification/Helpers/ExpressionBuilder.cs:99-118 | As written, a present sequence of two or more delegates reaches the combiner's self-capturing closure, which does not return under any stack depth for all three folds. A single delegate is invoked as is. |
| Expressions.ConnectiveMeaning | src/Softoverse.EntityFrameworkCore.Specification/Helpers/ExpressionCombiner.cs:129-141 | `&&`, `||`, `!` and a delegate call in a tree evaluate as their C# counterparts. |
| Expressions.TestMeaning | src/Softoverse.EntityFrameworkCore.Specification/Implementation/Specification.cs:191-204 | A comparison with a constant, `string.Contains`, `HashSet.Contains` and `ToLower` in a tree evaluate as their C# counterparts. |
| Expressions.RebindParams | src/Softoverse.EntityFrameworkCore.Specification/Helpers/ParameterRebinder.cs:16-19 | Rebinding renames exactly the old parameter and leaves every other parameter where it was. |
| Expressions.RebindRemovesOld | src/Softoverse.EntityFrameworkCore.Specification/Helpers/ParameterRebinder.cs:18 | After rebinding to a different parameter the old parameter no longer occurs. |
| Expressions.RebindSelf | src/Softoverse.EntityFrameworkCore.Specification/Helpers/ParameterRebinder.cs:18 | Rebinding a parameter to itself leaves the tree unchanged. |
| Expressions.RebindKeepsShape | src/Softoverse.EntityFrameworkCore.Specification/Helpers/ParameterRebinder.cs:16-24 | Rebinding keeps the tree's shape and size. |
| Expressions.RebindEval | src/Softoverse.EntityFrameworkCore.Specification/Helpers/ParameterRebinder.cs:21-24 | The rebound tree with `x` bound to the new parameter evaluates as the original with `x` bound to the old one. |
| Expressions.Constant | src/Softoverse.EntityFrameworkCore.Specification/Implementation/Specification.cs:204 | A typed constant is built exactly when the value is assignable to the type, and otherwise throws. |
| Operations.Ordinal | src/Softoverse.EntityFrameworkCore.Specification/Implementation/Operation.cs:3-11 | Each operator has one of the six positions of the `CompareOperation` declaration. |
| Operations.FromEqualOperation | src/Softoverse.EntityFrameworkCore.Specification/Extensions/SpecificationExtension.cs:37-42 | Only the two named `EqualOperation` members map, each to the same-named operator; any other value throws `ArgumentException`. |
| Operations.FromCompareOperation | src/Softoverse.EntityFrameworkCore.Specification/Extensions/SpecificationExtension.cs:94-103 | Exactly the six named `CompareOperation` members map, each to the same-named operator; any other value throws `ArgumentException`. |
| Operations.CompareOperationBijective | src/Softoverse.EntityFrameworkCore.Specification/Extensions/SpecificationExtension.cs:94-103 | Every operator is reached from its own member, and no two members reach the same operator. |
| Operations.EqualOperationAgrees | src/Softoverse.EntityFrameworkCore.Specification/Extensions/SpecificationExtension.cs:73-78 | The string and bool overloads map `Equal` and `NotEqual` as the numeric overload does, and never to an ordering operator. |
| Text.Split | src/Softoverse.EntityFrameworkCore.Specification/Implementation/Specification.cs:93 | Splitting yields at least one segment, and no segment contains the separator. |
| Text.Utf16Length | src/Softoverse.EntityFrameworkCore.Specification/Helpers/DictionaryHelper.cs:47-51 | `string.Length` counts UTF-16 units: between one and two per character. `Text.OneUtf16Unit` shows that a length of one means exactly one character from the Basic Multilingual Plane. |
| Text.OneUtf16Unit | src/Softoverse.EntityFrameworkCore.Specification/Helpers/DictionaryHelper.cs:47-51 | A string is one UTF-16 unit long exactly when it is one character no higher than U+FFFF. |
| Text.SplitHasTwoPartsIff | src/Softoverse.EntityFrameworkCore.Specification/Implementation/Specification.cs:93-94 | There is a second segment exactly when the separator occurs. |
| Text.SplitHead | src/Softoverse.EntityFrameworkCore.Specification/Implementation/Specification.cs:93-94 | The first segment is the text before the first separator, or the whole text when there is none. |
| Text.JoinSplit | src/Softoverse.EntityFrameworkCore.Specification/Implementation/Specification.cs:93 | Joining the segments with the separator restores the input. |
| Text.SplitJoin | src/Softoverse.EntityFrameworkCore.Specification/Implementation/Specification.cs:143 | Splitting a join of separator-free segments gives the segments back. |
| Types.Unwrap | src/Softoverse.EntityFrameworkCore.Specification/Implementation/Specification.cs:100 | `Nullable<T>` unwraps to `T`, and every other type to itself. |
| Types.IsNumeric | src/Softoverse.EntityFrameworkCore.Specification/Extensions/TypeExtension.cs:5-11 | A numeric type is a comparable value type that is its own unwrapping; `Nullable<T>`, `bool`, `char`, `string` and `DateTime` are not numeric. |
| Types.IsComparable | src/Softoverse.EntityFrameworkCore.Specification/Extensions/TypeExtension.cs:13-16 | `string`, `bool`, `char`, `DateTime` and `decimal` are comparable; `Nullable<T>` and `object` are not. |
| Types.ComparableIffScalar | src/Softoverse.EntityFrameworkCore.Specification/Extensions/TypeExtension.cs:5-16 | Exactly the scalar types are comparable; `Nullable<T>`, `object`, arrays and entity classes are not; every numeric type is comparable. |
| Types.UnwrapString | src/Softoverse.EntityFrameworkCore.Specification/Implementation/Specification.cs:99-100 | Only `string` itself unwraps to `string`. |
| Types.TypeOf | src/Softoverse.EntityFrameworkCore.Specification/Helpers/ExpressionGenerator.cs:34 | `GetType()` has an answer exactly for non-null values. |
| Types.ChangeType | src/Softoverse.EntityFrameworkCore.Specification/Helpers/ExpressionGenerator.cs:86 | `Convert.ChangeType` keeps a value already of the target type, turns null into null only for a reference target (a `Nullable<T>` target is a value type and throws `InvalidCastException`), and rejects a value that is not `IConvertible`. |
| Types.Converting | src/Softoverse.EntityFrameworkCore.Specification/Implementation/Specification.cs:212 | A conversion succeeds exactly when `ChangeType` converted, and a rejected cast throws `InvalidCastException`. |
| Types.Unbox | src/Softoverse.EntityFrameworkCore.Specification/Implementation/Specification.cs:253 | The cast from `object` succeeds exactly when the value is assignable to the type, and keeps the value. |
| Types.PropertyOrField | src/Softoverse.EntityFrameworkCore.Specification/Helpers/ExpressionGenerator.cs:68 | Among entity classes, a member is found exactly when the owner declares it, and has the declared type; members of built-in types are not modelled. |
| Types.PropertyOnly | tests/Benchmark/Models/Sortable.cs:21 | A member is found only when it is a property, never a field. |
| Conditional.ToConditionalExpression | src/Softoverse.EntityFrameworkCore.Specification/Implementation/Specification.cs:59-262 | A value that is not a query string yields the default expression, or `ArgumentException` when there is none; any success is the default or a lambda over the selector's parameter. |
| Conditional.IsQueryStringIff | src/Softoverse.EntityFrameworkCore.Specification/Implementation/Specification.cs:185-188 | A value is a query string exactly when it is present and contains a colon. |
| Conditional.ClassifyName | src/Softoverse.EntityFrameworkCore.Specification/Implementation/Specification.cs:67-89 | The token names and the switch arms correspond one to one. |
| Conditional.ConvertToType | src/Softoverse.EntityFrameworkCore.Specification/Implementation/Specification.cs:208-221 | A date target succeeds exactly when the text parses as a date, and otherwise throws `ArgumentException`. |
| Conditional.BuildComparison | src/Softoverse.EntityFrameworkCore.Specification/Implementation/Specification.cs:191-205 | A comparison is built exactly when the constant fits the property type and an ordering operator has an ordering on that type. |
| Conditional.ConvertAllMeaning | src/Softoverse.EntityFrameworkCore.Specification/Implementation/Specification.cs:253 | The parts convert exactly when each part converts, one value per part, in order. |
| Conditional.Distinct | src/Softoverse.EntityFrameworkCore.Specification/Implementation/Specification.cs:236 | The set of needles has the same members as the parts, no repeats, and is non-empty when the parts are. |
| Conditional.LowerAll | src/Softoverse.EntityFrameworkCore.Specification/Implementation/Specification.cs:236 | Each part is lower-cased, position by position. |
| Conditional.OrFoldMeaning | src/Softoverse.EntityFrameworkCore.Specification/Implementation/Specification.cs:247 | The `Aggregate(OrElse)` chain holds exactly when one of its tests holds. |
| Conditional.ContainsTests | src/Softoverse.EntityFrameworkCore.Specification/Implementation/Specification.cs:238-240 | One `Contains` test per needle, in order. |
| Conditional.SplitsTokenAndOperand | src/Softoverse.EntityFrameworkCore.Specification/Implementation/Specification.cs:59-107 | A value that is not a query string yields the default predicate, or `ArgumentException` without one; otherwise the token is the lower-cased text before the first colon and the operand is the next segment, later segments dropped. |
| Conditional.OperandHasNoColon | src/Softoverse.EntityFrameworkCore.Specification/Implementation/Specification.cs:93-107 | The operand never contains a colon. |
| Conditional.DefaultArm | src/Softoverse.EntityFrameworkCore.Specification/Implementation/Specification.cs:103-182 | An unknown token, or a string-only token on a property of another type, reaches the default arm; every other token has an arm. |
| Conditional.ComparisonMeaning | src/Softoverse.EntityFrameworkCore.Specification/Implementation/Specification.cs:105-108 | `lt` to `ne` fail exactly when the operand does not convert to the unwrapped type, the constant does not fit, or an ordering is asked of an unordered type; otherwise the predicate is that one comparison. |
| Conditional.RangeMeaning | src/Softoverse.EntityFrameworkCore.Specification/Implementation/Specification.cs:133-139 | `range:a,b` holds exactly when the property is at least `a` and at most `b`; fewer than two parts always fails, and further parts are ignored. |
| Conditional.InSetMeaning | src/Softoverse.EntityFrameworkCore.Specification/Implementation/Specification.cs:252-260 | The set test holds exactly when the value equals one of the converted parts. |
| Conditional.InArmMeaning | src/Softoverse.EntityFrameworkCore.Specification/Implementation/Specification.cs:250-261 | An `in`-shaped arm fails exactly when a part does not convert, and otherwise holds when the property equals a converted part, negated for the `nin` forms. |
| Conditional.InNinMeaning | src/Softoverse.EntityFrameworkCore.Specification/Implementation/Specification.cs:141-149 | `in` and `nin` succeed or fail together; `in` holds exactly when the property equals a converted part, and `nin` is its negation. |
| Conditional.InLikeOnNonStringIsIn | src/Softoverse.EntityFrameworkCore.Specification/Implementation/Specification.cs:161-169 | On a property that is not a string, `inlike` behaves as `in` and `ninlike` as `nin`. |
| Conditional.ContainsFoldMeaning | src/Softoverse.EntityFrameworkCore.Specification/Implementation/Specification.cs:236-247 | The `Contains` disjunction over the distinct needles holds exactly when the text contains one of the original parts. |
| Conditional.InLikeArmMeaning | src/Softoverse.EntityFrameworkCore.Specification/Implementation/Specification.cs:224-249 | On a string property a like-arm never fails, and holds exactly when the property contains a part, negated for the `nin` forms. |
| Conditional.InLikeMeaning | src/Softoverse.EntityFrameworkCore.Specification/Implementation/Specification.cs:161-169 | On a string property `inlike` holds when the property contains a part, `ninlike` is its negation, and neither fails. |
| Conditional.InLikeCiMeaning | src/Softoverse.EntityFrameworkCore.Specification/Implementation/Specification.cs:171-179 | `inlikeci` holds when the lower-cased property contains a lower-cased part, and `ninlikeci` is its negation. |
| Conditional.LikeMeaning | src/Softoverse.EntityFrameworkCore.Specification/Implementation/Specification.cs:110-131 | On a string property `like` is containment, `likeci` containment of lower-cased text and `eqci` equality of lower-cased text; `like` and `likeci` on another type throw `ArgumentException`. |
| Conditional.StringItemConverts | src/Softoverse.EntityFrameworkCore.Specification/Implementation/Specification.cs:208-212 | A part converts to a string as itself under any runtime, lower-cased in the corrected case-insensitive arms. |
| Conditional.InciMeaning | src/Softoverse.EntityFrameworkCore.Specification/Implementation/Specification.cs:151-159 | `inci` holds when the lower-cased property equals a part, lower-cased when corrected and as given when as written; `ninci` is its negation. |
| Conditional.InciAsWrittenIgnoresCase | src/Softoverse.EntityFrameworkCore.Specification/Implementation/Specification.cs:226-253 | As written, `"inci:ABC"` rejects an entity whose property is `"ABC"`; corrected, it admits it. |
| Conditional.InciQueryString | src/Softoverse.EntityFrameworkCore.Specification/Implementation/Specification.cs:93-94 | `"inci:ABC"` reaches the `inci` arm with the operand `"ABC"`. |
| Conditional.DateTimeOffsetAsWrittenFails | src/Softoverse.EntityFrameworkCore.Specification/Implementation/Specification.cs:208-219 | As written, a comparison on a `DateTimeOffset` property throws `ArgumentException` for every date that parses, and `in` throws `InvalidCastException`; corrected, the comparison is built and compares with the parsed moment. |
| Dictionary.ParseInt64 | src/Softoverse.EntityFrameworkCore.Specification/Helpers/DictionaryHelper.cs:55-57 | A number read as `long` lies within the range of `long`. |
| Dictionary.Int64TextRoundTrip | src/Softoverse.EntityFrameworkCore.Specification/Helpers/DictionaryHelper.cs:55-57 | The printed text of an integer reads back as that integer exactly when it fits a `long`. |
| Dictionary.ConvertJson | src/Softoverse.EntityFrameworkCore.Specification/Helpers/DictionaryHelper.cs:41-99 | Conversion fails only on a repeated property name, with `ArgumentException`; every result has the shape the switch produces. |
| Dictionary.ConvertItems | src/Softoverse.EntityFrameworkCore.Specification/Helpers/DictionaryHelper.cs:87-89 | An array converts element-wise, one value per element. |
| Dictionary.ConvertMembers | src/Softoverse.EntityFrameworkCore.Specification/Helpers/DictionaryHelper.cs:90-92 | An object converts member-wise, keys in document order. |
| Dictionary.ToJsonRoundTrip | src/Softoverse.EntityFrameworkCore.Specification/Helpers/DictionaryHelper.cs:41-99 | Every value of the converted shape is the conversion of some JSON element, so the image of the conversion is exactly that shape. |
| Dictionary.ItemsRoundTrip | src/Softoverse.EntityFrameworkCore.Specification/Helpers/DictionaryHelper.cs:87-89 | Every array of converted values is the conversion of some JSON array. |
| Dictionary.MembersRoundTrip | src/Softoverse.EntityFrameworkCore.Specification/Helpers/DictionaryHelper.cs:90-92 | Every list of converted members is the conversion of some JSON object. |
| Dictionary.ConvertJsonKinds | src/Softoverse.EntityFrameworkCore.Specification/Helpers/DictionaryHelper.cs:44-92 | A string whose `Length` is one UTF-16 unit becomes a `char`, any other string stays a string, one non-BMP character included, a number becomes a `long` exactly when its text is an in-range integer, `null` comes from JSON null or undefined, and arrays and objects stay arrays and dictionaries. |
| Dictionary.SurrogatePairStaysString | src/Softoverse.EntityFrameworkCore.Specification/Helpers/DictionaryHelper.cs:47-51 | The one-character string U+1F600 has `Length` 2, so it stays a string. |
| Dictionary.Resolve | src/Softoverse.EntityFrameworkCore.Specification/Helpers/DictionaryHelper.cs:17-21 | A JSON element is converted before the dictionary test, and any other value is kept. |
| Dictionary.Put | src/Softoverse.EntityFrameworkCore.Specification/Helpers/DictionaryHelper.cs:34 | Writing a key overwrites its entry in place or appends it, keeps keys distinct, and keeps every value a leaf. |
| Dictionary.PutAll | src/Softoverse.EntityFrameworkCore.Specification/Helpers/DictionaryHelper.cs:26-29 | Copying the nested result keeps keys distinct and values leaves. |
| Dictionary.PutLookup | src/Softoverse.EntityFrameworkCore.Specification/Helpers/DictionaryHelper.cs:34 | After writing `k`, looking up `k` gives the new value and every other key is unchanged. |
| Dictionary.PutRepresents | src/Softoverse.EntityFrameworkCore.Specification/Helpers/DictionaryHelper.cs:34 | A write to the dictionary has the outcome of appending the write to the list of writes. |
| Dictionary.PutAllRepresents | src/Softoverse.EntityFrameworkCore.Specification/Helpers/DictionaryHelper.cs:26-29 | Copying a nested dictionary has the outcome of appending its entries to the writes. |
| Dictionary.Replay | src/Softoverse.EntityFrameworkCore.Specification/Helpers/DictionaryHelper.cs:26-29 | Copying a flattened dictionary has the outcome of replaying the writes that produced it. |
| Dictionary.FlattenDictionary | src/Softoverse.EntityFrameworkCore.Specification/Helpers/DictionaryHelper.cs:7-39 | The flattened dictionary has distinct keys and no dictionary among its values. |
| Dictionary.FlattenInto | src/Softoverse.EntityFrameworkCore.Specification/Helpers/DictionaryHelper.cs:11-36 | The loop keeps the keys distinct and the values leaves. |
| Dictionary.LeafStep | src/Softoverse.EntityFrameworkCore.Specification/Helpers/DictionaryHelper.cs:31-35 | A leaf entry is written under its full key. |
| Dictionary.DictStep | src/Softoverse.EntityFrameworkCore.Specification/Helpers/DictionaryHelper.cs:23-30 | A nested dictionary contributes its own flattened leaves under the extended key. |
| Dictionary.FlattenIntoMeaning | src/Softoverse.EntityFrameworkCore.Specification/Helpers/DictionaryHelper.cs:11-36 | The loop replays the leaf writes of the entries on top of what was already written, and fails exactly when a JSON element cannot be converted. |
| Dictionary.FlattenMeaning | src/Softoverse.EntityFrameworkCore.Specification/Helpers/DictionaryHelper.cs:7-39 | Each full dotted key maps to the last leaf written under it, no other key appears, and the result exists exactly when every JSON element converts. |
| Dictionary.EmptyNestedVanishes | src/Softoverse.EntityFrameworkCore.Specification/Helpers/DictionaryHelper.cs:23-29 | A nested empty dictionary leaves no key behind. |
| Dictionary.CollisionLastWriteWins | src/Softoverse.EntityFrameworkCore.Specification/Helpers/DictionaryHelper.cs:28-34 | A literal dotted key and a nested one collide; the later write wins, in the position of the first. |
| Dictionary.JsonObjectFlattened | src/Softoverse.EntityFrameworkCore.Specification/Helpers/DictionaryHelper.cs:18-29 | A JSON object under a key is converted and flattened like a dictionary. |
| Generator.TypedSetter | src/Softoverse.EntityFrameworkCore.Specification/Helpers/ExpressionGenerator.cs:31-44 | A setter exists exactly when the read value is not null (else `NullReferenceException`); it is typed by the value's runtime type, carries the value, and wraps the selector in a `Convert` only when the static type differs. |
| Generator.BuildFromSelectors | src/Softoverse.EntityFrameworkCore.Specification/Helpers/ExpressionGenerator.cs:23-48 | The typed overload succeeds exactly when no selected value is null, and then emits one setter per selector, in order. |
| Generator.TypedSettersCopyModel | src/Softoverse.EntityFrameworkCore.Specification/Helpers/ExpressionGenerator.cs:29-44 | Each setter's property, read on the model, gives that setter's value: the update writes back what the model holds. |
| Generator.Access | src/Softoverse.EntityFrameworkCore.Specification/Helpers/ExpressionGenerator.cs:66-69 | Resolving a path fails only with `ArgumentException`. |
| Generator.ResolvePath | src/Softoverse.EntityFrameworkCore.Specification/Helpers/ExpressionGenerator.cs:61-72 | A resolved selector is a lambda over the entity parameter; an unknown segment throws `ArgumentException`. |
| Generator.GetOrAdd | src/Softoverse.EntityFrameworkCore.Specification/Helpers/ExpressionGenerator.cs:61 | A cached path returns its cached selector; otherwise the selector is computed and stored under the path. |
| Generator.ConvertedValue | src/Softoverse.EntityFrameworkCore.Specification/Helpers/ExpressionGenerator.cs:82-92 | Null stays null; a converted value is used; a rejected cast keeps the raw value; only format and overflow failures escape. |
| Generator.SetPropertyCall | src/Softoverse.EntityFrameworkCore.Specification/Helpers/ExpressionGenerator.cs:94-96 | The call is built exactly when the type argument is the selector's type and the value fits it, and otherwise throws `ArgumentException`. |
| Generator.BuildFromDictionary | src/Softoverse.EntityFrameworkCore.Specification/Helpers/ExpressionGenerator.cs:50-100 | One setter per entry, and the cache only grows. |
| Generator.CachedStep | src/Softoverse.EntityFrameworkCore.Specification/Helpers/ExpressionGenerator.cs:61-96 | From a consistent cache, one entry gives the setter it would give with no cache, and the cache stays consistent. |
| Generator.CacheIsTransparent | src/Softoverse.EntityFrameworkCore.Specification/Helpers/ExpressionGenerator.cs:55-97 | From a consistent cache, the dictionary overload yields exactly the uncached setters. |
| Generator.AccessNames | src/Softoverse.EntityFrameworkCore.Specification/Helpers/ExpressionGenerator.cs:66-69 | The member chain of a resolved path names its segments in order. |
| Generator.ResolvedPathRoundTrip | src/Softoverse.EntityFrameworkCore.Specification/Helpers/ExpressionGenerator.cs:61-72 | The include path of a resolved selector is the dictionary key it was resolved from. |
| Generator.DictionarySetterMeaning | src/Softoverse.EntityFrameworkCore.Specification/Helpers/ExpressionGenerator.cs:74-96 | An entry's setter uses its path's selector and converted value; as written every `Nullable<T>` property is rejected, corrected it is accepted whenever the value fits. |
| Generator.NullableUpdateAsWrittenFails | src/Softoverse.EntityFrameworkCore.Specification/Helpers/ExpressionGenerator.cs:74-96 | As written, a `Nullable<int>` property cannot be set to `null` or to `5`; corrected, both updates succeed. |
| IncludePath.StripConverts | src/Softoverse.EntityFrameworkCore.Specification/Helpers/IncludeChainBuilder.cs:29-34 | The peeled expression is not a conversion, and member accesses, calls and parameters are kept as they are. |
| IncludePath.GetPropertyPath | src/Softoverse.EntityFrameworkCore.Specification/Helpers/IncludeChainBuilder.cs:13-16 | The path is the member chain joined by `.` after conversions are stripped, and `""` for any other body. |
| IncludePath.GetThenIncludePropertyPath | src/Softoverse.EntityFrameworkCore.Specification/Helpers/IncludeChainBuilder.cs:21-24 | The then-include path is the same function of the lambda body. |
| IncludePath.MemberNames | src/Softoverse.EntityFrameworkCore.Specification/Helpers/IncludeChainBuilder.cs:44-55 | A member chain is non-empty exactly for a member access. |
| IncludePath.PathLemma | src/Softoverse.EntityFrameworkCore.Specification/Helpers/IncludeChainBuilder.cs:26-64 | The path of any body is the joined member chain after stripping, or `""` for a call, a parameter or anything else. |
| IncludePath.PathRoundTrip | src/Softoverse.EntityFrameworkCore.Specification/Helpers/IncludeChainBuilder.cs:44-55 | With well-formed member names, splitting the path on `.` gives the member names back, root first. |
| IncludePath.PathHasNoStrayDot | src/Softoverse.EntityFrameworkCore.Specification/Helpers/IncludeChainBuilder.cs:46-54 | A non-empty path neither starts nor ends with `.`, and the path is empty exactly when the stripped body is not a member access. |
| IncludePath.ConvertedParentContributesNothing | src/Softoverse.EntityFrameworkCore.Specification/Helpers/IncludeChainBuilder.cs:49-52 | A conversion between two member accesses cuts the chain, an outer conversion does not, and a filtered include or a bare parameter gives `""`. |
| Specification.Blank | src/Softoverse.EntityFrameworkCore.Specification/Implementation/Specification.cs:32-46 | A fresh record has no key, criteria or ordering, and both flags off. |
| Specification.FromExpressions | src/Softoverse.EntityFrameworkCore.Specification/Implementation/Specification.cs:14-23 | The list constructor sets a well-formed criteria, no primary key, the given flags, and no includes or ordering. |
| Specification.FromPrimaryKey | src/Softoverse.EntityFrameworkCore.Specification/Implementation/Specification.cs:25-30 | The primary-key constructor stores the key as given and leaves the criteria null. |
| Specification.FromExpressionsMeaning | src/Softoverse.EntityFrameworkCore.Specification/Implementation/Specification.cs:14-23 | With `And` the criteria holds when every expression does; with `Or` over expressions other than `True`, when some does; an empty list admits everything. |
| Specification.ApplyIffFramed | src/Softoverse.EntityFrameworkCore.Specification/Implementation/Specification.cs:48-57 | A record is the result of an edit exactly when it shows the edit's argument in the edit's own field and agrees with the old record on every other field. |
| Specification.Apply | src/Softoverse.EntityFrameworkCore.Specification/Implementation/Specification.cs:48-57 | `Add*` of a list appends; the ordering slots are overwritten; `AppendThenBy` appends a key with its direction; every other field is untouched. |
| Specification.IncludeStringsAccumulate | src/Softoverse.EntityFrameworkCore.Specification/Implementation/Specification.cs:50 | Successive `AddIncludeString` calls accumulate in call order, and nothing else changes. |
| Specification.OrderSlotsOverwrite | src/Softoverse.EntityFrameworkCore.Specification/Implementation/Specification.cs:52-54 | Only the latest `AddOrderBy` is kept, and `AddOrderByDescending` leaves the ascending slot alone. |
| Orderable.ThenBy | src/Softoverse.EntityFrameworkCore.Specification/Implementation/OrderableSpecification.cs:27-32 | `ThenBy(k)` appends `(k, ascending)` to the wrapped record's order keys. |
| Orderable.ThenByDescending | src/Softoverse.EntityFrameworkCore.Specification/Implementation/OrderableSpecification.cs:34-39 | `ThenByDescending(k)` appends `(k, descending)`. |
| Orderable.Forward | src/Softoverse.EntityFrameworkCore.Specification/Implementation/OrderableSpecification.cs:100-131 | A forwarded member sets its own field of the wrapped record to its argument, or appends the argument to its own list, and moves no other field; in particular it leaves the `ThenBy` keys alone. |
| Orderable.ChainIsTransparent | src/Softoverse.EntityFrameworkCore.Specification/Implementation/OrderableSpecification.cs:42-98 | A chain of calls through wrappers leaves the record as the same edits made directly on it. |
| Orderable.ThenChainAccumulates | src/Softoverse.EntityFrameworkCore.Specification/Implementation/OrderableSpecification.cs:27-39 | Chained `ThenBy` / `ThenByDescending` calls accumulate in call order on one list, and change nothing else. |
| Evaluator.IncludeOps | src/Softoverse.EntityFrameworkCore.Specification/Implementation/SpecificationEvaluator.cs:30-31 | Every include expression in list order, then every include string in list order. |
| Evaluator.GenerateQuery | src/Softoverse.EntityFrameworkCore.Specification/Implementation/SpecificationEvaluator.cs:11-53 | The includes come first; a primary key ends the query with a lookup; a filter occurs exactly when there is no key and a criteria, with that criteria; at most one sort, ascending when the `OrderBy` slot is set, else descending when the other slot is. |
| Evaluator.FlagsAreIgnored | src/Softoverse.EntityFrameworkCore.Specification/Implementation/SpecificationEvaluator.cs:13-16 | The tracking and split-query flags do not change the query. |
| Evaluator.Filter | src/Softoverse.EntityFrameworkCore.Specification/Implementation/SpecificationEvaluator.cs:33-36 | The filtered rows are exactly the admitted rows, each as often as in the input. |
| Evaluator.FilterKeepsOrder | src/Softoverse.EntityFrameworkCore.Specification/Implementation/SpecificationEvaluator.cs:33-36 | `Where` keeps the admitted rows in their input order: filtering a concatenation filters each part in place, and a single row stays exactly when it is admitted. |
| Evaluator.SortBy | src/Softoverse.EntityFrameworkCore.Specification/Implementation/SpecificationEvaluator.cs:38-45 | Sorting is a permutation and leaves the rows ordered by the key in the chosen direction. |
| Evaluator.FindIn | src/Softoverse.EntityFrameworkCore.Specification/Implementation/SpecificationEvaluator.cs:24-25 | The lookup returns at most one row, and one exactly when some row has the key. |
| Evaluator.IncludesKeepRows | src/Softoverse.EntityFrameworkCore.Specification/Implementation/SpecificationEvaluator.cs:28-31 | Include operators leave the root rows as they are. |
| Evaluator.Run | src/Softoverse.EntityFrameworkCore.Specification/Implementation/SpecificationEvaluator.cs:11-53 | The query operators are applied in order, each to the rows the previous one left; `Evaluator.RunKeepsRows` and `Evaluator.GenerateQueryMeaning` state what the run computes. |
| Evaluator.RunKeepsRows | src/Softoverse.EntityFrameworkCore.Specification/Implementation/SpecificationEvaluator.cs:11-53 | No query invents a row: the result is a sub-multiset of the input rows for every operator sequence. |
| Evaluator.GenerateQueryMeaning | src/Softoverse.EntityFrameworkCore.Specification/Implementation/SpecificationEvaluator.cs:18-45 | With a key the result is the lookup; without one it holds exactly the admitted rows with their multiplicities, sorted by the chosen slot, or in table order. |
| Evaluator.PrimaryKeyShortCircuits | src/Softoverse.EntityFrameworkCore.Specification/Implementation/SpecificationEvaluator.cs:18-26 | A lookup by key ignores the criteria and ordering and returns at most one row. |
| Paging.New | tests/TestConsole/Models/Pageable.cs:5-9 | A fresh `Pageable` has page size 20, page number 1, `AsPage` and not `AsDropdown`. |
| Paging.SetPageNumber | tests/TestConsole/Models/Pageable.cs:17-20 | A positive number is stored as given and any other stores 1; nothing else changes. |
| Paging.SetPageSize | tests/TestConsole/Models/Pageable.cs:29-32 | A positive size is stored as given and any other stores 20; nothing else changes. |
| Paging.AlwaysValid | tests/TestConsole/Models/Pageable.cs:11-33 | Page number and size stay positive under any sequence of assignments. |
| Paging.Skip | tests/TestConsole/Models/Pageable.cs:37 | `Skip(n)` drops the first `n` elements, or none for `n <= 0`. |
| Paging.Take | tests/TestConsole/Models/Pageable.cs:38 | `Take(n)` keeps the first `n` elements, or none for `n <= 0`. |
| Paging.ApplyPagination | tests/TestConsole/Models/Pageable.cs:35-41 | The result is page `n` of size `k`, the slice from `(n - 1) * k` to `n * k` cut at the end, so no longer than the page size. |
| Paging.PagesAreContiguous | tests/TestConsole/Models/Pageable.cs:37-38 | Pages `n` and `n + 1` are adjacent slices with no element in both. |
| Paging.PagesCover | tests/TestConsole/Models/Pageable.cs:37-38 | The first `m` pages cover the input in order up to position `m * k`. |
| Sorting.Default | tests/Benchmark/Models/Sortable.cs:7-8 | A fresh `Sortable` has no name and sorts descending. |
| Sorting.SortingOp | tests/Benchmark/Models/Sortable.cs:12-38 | A blank name or an unknown property adds no sort; otherwise one sort by `x => x.Name`, ascending exactly when `IsAscending`. |
| Sorting.ApplySorting | tests/Benchmark/Models/Sortable.cs:10-45 | The sorted query holds the same rows. |
| Sorting.ApplySortingMeaning | tests/Benchmark/Models/Sortable.cs:10-45 | A blank or unknown name leaves the rows unchanged; otherwise they are ordered by the named property in the chosen direction. |
| Sorting.NameOnlySortsDescending | tests/Benchmark/Models/Sortable.cs:8-27 | Setting only a name sorts descending. |
| Sorting.DottedNameIsIgnored | tests/Benchmark/Models/Sortable.cs:21 | A dotted path is not resolved, so it sorts nothing. |
| Helpers.IsNullOrEmptyValue | tests/Benchmark/Helpers/TypeExtension.cs:10-14 | True exactly for null and for strings of white space only (the empty string included), false for every other value. |
| Helpers.IsBetween | tests/Benchmark/Helpers/TypeExtension.cs:37-41 | `CompareTo` against both bounds; `Helpers.IsBetweenInclusive` gives its meaning on integers. |
| Helpers.IsBetweenInclusive | tests/Benchmark/Helpers/TypeExtension.cs:37-41 | On integers the range test is `min <= v <= max`: both bounds belong, and reversed bounds admit nothing. |
| Helpers.HasAnyNull | tests/Benchmark/Helpers/TypeExtension.cs:46-49 | An empty sequence has no null, and a one-element sequence has one exactly when its element is null. |
| Helpers.HasAllNull | tests/Benchmark/Helpers/TypeExtension.cs:54-57 | An empty sequence is all null, and a one-element sequence is exactly when its element is null. |
| Helpers.NullScansRelated | tests/Benchmark/Helpers/TypeExtension.cs:43-57 | Both scans hold for a null source; on an empty sequence all-null holds and any-null does not; otherwise all-null implies any-null. |
| Helpers.HasAnyNullAsDocumented | tests/Benchmark/Helpers/TypeExtension.cs:43-45 | The documented scan holds for a null source and an empty sequence, and agrees with the code on every non-empty one. |
| Helpers.HasAnyNullEmptyDisagrees | tests/Benchmark/Helpers/TypeExtension.cs:43-49 | On the empty sequence the code answers false where its comment promises true. |
| Helpers.ToPagedData | tests/Benchmark/Helpers/TypeExtension.cs:59-69 | The four counters are copied as given, and a null source gives empty content. |
| Helpers.PagedPageFits | tests/Benchmark/Helpers/TypeExtension.cs:59-69 | One page of a `Pageable`, wrapped, has content no longer than its page size, and that content is the page. |

## Left out

- The sentinel test `expression1 == True<TEntity>()` compares references against a freshly built lambda, so in .NET it never holds. The model reads it as "the operand is the `True` node", which makes the `Or(True, p) == p` quirk visible.
- Combiner.CombineWithAnd, Combiner.CombineWithOr, Combiner.CombineWithNot: the elements of the sequence are never null. In the source a null element before the first non-null one is skipped, because `combined` stays null, and a null element after it throws `NullReferenceException` when `And` / `Or` / `Not` read its `Body`. The model's elements are always lambdas, so neither behaviour is represented.
- Builder.CombineWithAndFunc, Builder.CombineWithOrFunc, Builder.CombineWithNotFunc, Builder.CombineFuncMeaning: these state the corrected delegate folds. As written, `ExpressionBuilder` forwards a present sequence to `ExpressionCombiner`, whose closure captures the variable `combined`, so two or more delegates recurse without end; that behaviour is stated separately by `Builder.FuncFoldsAsWrittenNeverReturn` and `Combiner.CapturedInvokeNeverReturns`, and is not what these members promise.
- Types.PropertyOrField, Generator.Access, Expressions.Eval: members of built-in types are not modelled. `Expression.PropertyOrField` resolves `string.Length`, `DateTime.Year`, `Nullable<T>.Value` and `Nullable<T>.HasValue`, and EF Core translates several of them; in the model the lookup only finds members declared by entity classes, so a built-in member fails with `ArgumentException`, and reading a member on anything but such a record evaluates to `null`.
- Builder.CombineWithAnd, Builder.CombineWithOr, Builder.CombineWithNot: the same holds behind the null-or-empty check on the sequence itself. A null element inside a present sequence is not modelled, and after a non-null element it would throw `NullReferenceException`.
- `ExpressionCombiner` calls a two-argument `ReplaceParameters` that the shown `ParameterRebinder` does not declare; the model rebinds each operand's own parameter onto the new one with the three-argument form.
- `Expression.Convert` failing for a type pair without a conversion (typed `BuildUpdateExpression`) is not modelled; the conversion node is always built.
- The compiled-selector cache of the typed overload only saves compilation, so it is left out; its answers are those of the selector.
- `Expression.Property` and `Expression.PropertyOrField` look names up case-insensitively; the model's lookup is exact.
- `Guid` ordering, floating-point numbers and decimals are not interpreted. A JSON number that is not an in-range integer stays an uninterpreted number, and the `TryGetDouble` ... `GetDouble` chain is not modelled.
- `Convert.ChangeType` and `DateTime.TryParse` are parameters (`Types.Runtime`). Only their generic rules are fixed: same type, null, not `IConvertible`.
- `ToLower` is modelled on ASCII letters only.
- `TryGetInt64` is modelled as accepting plain integer text (optional minus sign, digits); exponent forms such as `1e3` are not read as integers.
- `ToConditionalExpressionInternal`, which the `SpecificationExtension` overloads call, is not part of this model (its body is not in the shown `Specification.cs`); only the enum mappings are modelled.
- `AppendThenBy`, and the bodies of the `Include` / `OrderBy` members the wrapper forwards to, are not shown; `AppendThenBy` is modelled as an append, and the rest as record edits.
- The `(DbSet<TEntity>)` casts of the primary-key branch (SpecificationEvaluator.cs:20-21) throw `InvalidCastException` when a specification with a key has any include; the model treats includes as not changing the rows.
- Includes load navigation properties and never change which root rows a query returns, so the model's include operators keep the rows.
- EF Core I/O, `async`, `CancellationToken`, `AsNoTracking` and `AsSplitQuery` effects, SQL translation, and the thread safety of the static `ConcurrentDictionary` caches are left out. The caches are modelled as plain maps.
- The provider's ordering of keys is a parameter (`rank`), and the sort it performs is modelled as a stable insertion sort.
- Paging.ApplyPagination: the product `(PageNumber - 1) * PageSize` is computed on unbounded integers; the 32-bit overflow of the source for very large pages is not modelled.
- `Percentage` (floating point), `ProjectionExtensions` (reflection and `MemberInit`), `PredicateBuilder` (a copy of the combiner's `And` / `Or`), `IncludableSpecificationExtensions`, the repositories, the database context, the benchmark and console programs, and the interfaces beyond their use as record fields are left out.
- `Expression<Func<TEntity, object>>` key selectors box value-typed keys in a `Convert` node; the model keeps key selectors as plain bodies.

## Findings

| source | as written | input that shows it | evidently intended | confidence | as-written member | corrected member |
|---|---|---|---|---|---|---|
| src/Softoverse.EntityFrameworkCore.Specification/Helpers/ExpressionCombiner.cs:149-192 | each step assigns `combined = x => combined(x) op predicate(x)`, and the lambda captures the variable `combined`, not its current value | any two delegates, e.g. `CombineWithAnd([f, g])`, invoked on any entity: the final closure calls itself forever | each step calls the previous step's closure | high, not executed | Combiner.CapturedInvokeNeverReturns | Combiner.CombineFuncMeaning |
| src/Softoverse.EntityFrameworkCore.Specification/Implementation/Specification.cs:226-253 | `inci` / `ninci` lower-case the property but convert the parts unchanged | `"inci:ABC"` on an entity whose property is `"ABC"` gives false | both sides lower-cased, as in `inlikeci` | high, not executed | Conditional.InciAsWrittenIgnoresCase | Conditional.InciMeaning |
| src/Softoverse.EntityFrameworkCore.Specification/Implementation/Specification.cs:208-219 | `ConvertToType` returns a `DateTime` for a `DateTimeOffset` target | `"gt:2024-01-01"` on a `DateTimeOffset` property: `Expression.Constant` rejects the `DateTime` (`ArgumentException`); `"in:2024-01-01"` fails the cast (`InvalidCastException`) | a `DateTimeOffset` constant for a `DateTimeOffset` target | medium, not executed | Conditional.DateTimeOffsetAsWrittenFails | Conditional.ComparisonMeaning |
| src/Softoverse.EntityFrameworkCore.Specification/Helpers/ExpressionGenerator.cs:74-96 | the unwrapped type `T` of a `Nullable<T>` property is used as the type argument of `SetProperty`, while the selector still returns `T?` | the key `"Age"` of a `Nullable<int>` property, with the value `null` or `5`: `Expression.Constant` or `Expression.Call` throws `ArgumentException` | the declared type `T?` as type argument and constant type | medium, not executed | Generator.NullableUpdateAsWrittenFails | Generator.DictionarySetterMeaning |
| tests/Benchmark/Helpers/TypeExtension.cs:43-49 | `source is null \|\| source.Any(item => item == null)` | an empty, non-null sequence: the code answers false | the comment promises true when no item is passed | low, not executed | Helpers.HasAnyNullEmptyDisagrees | Helpers.HasAnyNullAsDocumented |
