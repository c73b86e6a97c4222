/** `IncludePathBuilder` (file `IncludeChainBuilder.cs`): the dotted navigation path
    named by the body of an `Include` / `ThenInclude` lambda, or `""` for a body
    that is not a plain member chain. */
module IncludePath {
  import opened Expressions
  import opened Text

  /** The loop that peels `Convert` and `ConvertChecked` nodes off the body. */
  function StripConverts(e: Expr): (r: Expr)
    ensures !r.Convert?
    ensures Size(r) <= Size(e)
    ensures e.Member? || e.Call? || e.Param? ==> r == e
  {
    if e.Convert? then StripConverts(e.operand) else e
  }

  /** `GetPropertyPathInternal`. */
  function PathOf(e: Expr): string
    decreases Size(e)
  {
    var s := StripConverts(e);
    match s
    case Call(_, _) => ""
    case Member(target, name) =>
      (if target.Member? then PathOf(target) + "." else "") + name
    case _ => ""
  }

  /** `GetPropertyPath`: the path of the lambda's body; the parameter is not used. */
  function GetPropertyPath(param: nat, body: Expr): (r: string)
    ensures StripConverts(body).Member? ==> r == Join(MemberNames(StripConverts(body)), '.')
    ensures !StripConverts(body).Member? ==> r == ""
  {
    PathLemma(body);
    PathOf(body)
  }

  /** `GetThenIncludePropertyPath`: the same computation on the body of a lambda
      over the previously included type. */
  function GetThenIncludePropertyPath(param: nat, body: Expr): (r: string)
    ensures r == GetPropertyPath(param, body)
  {
    PathOf(body)
  }

  /** Reference definition: the member names of the chain that ends at `e`, root
      first, collected while the parent is itself a member access; the chain of a
      node that is not a member access is empty. */
  function MemberNames(e: Expr): (names: seq<string>)
    ensures e.Member? <==> |names| >= 1
  {
    if !e.Member? then []
    else if e.target.Member? then MemberNames(e.target) + [e.name]
    else [e.name]
  }

  /** Names C# allows for members: non-empty and without a dot. */
  predicate WellFormedNames(names: seq<string>) {
    forall i :: 0 <= i < |names| ==> |names[i]| > 0 && '.' !in names[i]
  }

  /** The path is the member chain joined with `.`, after the outer conversions are
      stripped; any other body (a call, a parameter, anything else) gives `""`. */
  lemma {:induction false} PathLemma(e: Expr)
    ensures StripConverts(e).Member? ==> PathOf(e) == Join(MemberNames(StripConverts(e)), '.')
    ensures !StripConverts(e).Member? ==> PathOf(e) == ""
    decreases Size(e)
  {
    var s := StripConverts(e);
    if s.Member? && s.target.Member? {
      PathLemma(s.target);
      var front := MemberNames(s.target);
      JoinSnoc(front, s.name, '.');
    }
  }

  /** Appending one segment to a join appends a separator and the segment. */
  lemma {:induction false} JoinSnoc(parts: seq<string>, last: string, sep: char)
    requires |parts| >= 1
    ensures Join(parts + [last], sep) == Join(parts, sep) + [sep] + last
    decreases |parts|
  {
    if |parts| == 1 {
      assert (parts + [last])[1..] == [last];
    } else {
      assert (parts + [last])[1..] == parts[1..] + [last];
      JoinSnoc(parts[1..], last, sep);
    }
  }

  /** With well-formed member names the path names the chain without loss:
      splitting it on `.` gives the member names back, root first. */
  lemma PathRoundTrip(e: Expr)
    requires StripConverts(e).Member?
    requires WellFormedNames(MemberNames(StripConverts(e)))
    ensures Split(PathOf(e), '.') == MemberNames(StripConverts(e))
  {
    PathLemma(e);
    SplitJoin(MemberNames(StripConverts(e)), '.');
  }

  /** A non-empty path never starts or ends with `.`: its first and last
      characters come from the first and last member names. */
  lemma {:induction false} PathHasNoStrayDot(e: Expr)
    requires WellFormedNames(MemberNames(StripConverts(e)))
    ensures PathOf(e) != "" ==> PathOf(e)[0] != '.' && PathOf(e)[|PathOf(e)| - 1] != '.'
    ensures StripConverts(e).Member? <==> PathOf(e) != ""
  {
    PathLemma(e);
    var s := StripConverts(e);
    if s.Member? {
      var names := MemberNames(s);
      JoinEnds(names, '.');
    }
  }

  /** A join of non-empty segments starts with the first segment's first character
      and ends with the last segment's last character. */
  lemma {:induction false} JoinEnds(parts: seq<string>, sep: char)
    requires |parts| >= 1
    requires forall i :: 0 <= i < |parts| ==> |parts[i]| > 0
    ensures |Join(parts, sep)| > 0
    ensures Join(parts, sep)[0] == parts[0][0]
    ensures Join(parts, sep)[|Join(parts, sep)| - 1] == parts[|parts| - 1][|parts[|parts| - 1]| - 1]
    decreases |parts|
  {
    if |parts| > 1 {
      JoinEnds(parts[1..], sep);
    }
  }

  /** A conversion between two member accesses cuts the chain: in `((T)x.A).B` the
      parent is a `Convert` node, so only `B` is reported; a filtered include such
      as `x.Items.Where(...)` reports `""`. */
  lemma ConvertedParentContributesNothing(x: nat, t: Types.ClrType)
    ensures PathOf(Member(Convert(Member(Param(x), "A"), t, false), "B")) == "B"
    ensures PathOf(Convert(Member(Member(Param(x), "A"), "B"), t, true)) == "A.B"
    ensures PathOf(Call("Where", Member(Param(x), "Items"))) == ""
    ensures PathOf(Param(x)) == ""
  {
  }
}
