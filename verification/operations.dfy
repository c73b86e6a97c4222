/** `SpecificationExtension`: the typed `ToConditionalExpression` overloads translate
    the public `EqualOperation` / `CompareOperation` enums into the internal
    `Operation`. A C# enum is an integer and any integer can be cast to it, so an
    enum argument is modelled by its numeric value. */
module Operations {
  import opened Wrappers
  import opened Types
  import opened Expressions

  /** Declared values of `EqualOperation`. */
  const EqualOperationEqual: int := 0
  const EqualOperationNotEqual: int := 1

  /** Declared values of `CompareOperation`; the members are declared in the same
      order as those of `Operation`. */
  const CompareOperationCount: int := 6

  /** Position of an operator in the declaration of `Operation` (and of
      `CompareOperation`, whose members carry the same names in the same order). */
  function Ordinal(op: Operation): (n: nat)
    ensures n < CompareOperationCount
  {
    match op
    case Equal => 0
    case NotEqual => 1
    case GreaterThan => 2
    case GreaterThanOrEqual => 3
    case LessThan => 4
    case LessThanOrEqual => 5
  }

  /** The `switch` of the `bool` overload and of the `string` overload: the two
      named members map to the same-named operators, anything else throws
      `ArgumentException("Invalid operation")`. */
  function FromEqualOperation(code: int): (r: Result<Operation, Exception>)
    ensures r.Success? <==> code == EqualOperationEqual || code == EqualOperationNotEqual
    ensures r.Success? ==> Ordinal(r.value) == code
    ensures r.Failure? ==> r.error == ArgumentException
  {
    if code == EqualOperationEqual then Success(Equal)
    else if code == EqualOperationNotEqual then Success(NotEqual)
    else Failure(ArgumentException)
  }

  /** The `switch` of the numeric overload: each of the six members maps to the
      same-named operator; any other value throws `ArgumentException`. */
  function FromCompareOperation(code: int): (r: Result<Operation, Exception>)
    ensures r.Success? <==> 0 <= code < CompareOperationCount
    ensures r.Success? ==> Ordinal(r.value) == code
    ensures r.Failure? ==> r.error == ArgumentException
  {
    if code == 0 then Success(Equal)
    else if code == 1 then Success(NotEqual)
    else if code == 2 then Success(GreaterThan)
    else if code == 3 then Success(GreaterThanOrEqual)
    else if code == 4 then Success(LessThan)
    else if code == 5 then Success(LessThanOrEqual)
    else Failure(ArgumentException)
  }

  /** Every operator is reached from its own member and from no other: the
      mapping is a bijection between the six members and `Operation`. */
  lemma CompareOperationBijective(op: Operation, a: int, b: int)
    ensures FromCompareOperation(Ordinal(op)) == Success(op)
    ensures FromCompareOperation(a).Success? && FromCompareOperation(a) == FromCompareOperation(b) ==> a == b
  {
  }

  /** The `EqualOperation` mapping is the `CompareOperation` mapping restricted to
      its first two members, so `Equal` and `NotEqual` mean the same operator in
      every overload; it never yields an ordering operator. */
  lemma EqualOperationAgrees(code: int)
    ensures FromEqualOperation(code).Success? ==> FromEqualOperation(code) == FromCompareOperation(code)
    ensures FromEqualOperation(code).Success? ==> FromEqualOperation(code).value in {Equal, NotEqual}
    ensures FromEqualOperation(code).Failure? && FromCompareOperation(code).Success? ==>
              FromCompareOperation(code).value !in {Equal, NotEqual}
  {
  }
}
