/** `Pageable` (test console model): page number and size with clamping setters,
    and `ApplyPagination` as `Skip((PageNumber - 1) * PageSize).Take(PageSize)`.
    Integers are unbounded here; the 32-bit product in the source is not modelled. */
module Paging {
  /** The state behind the four properties. */
  datatype Pageable = Pageable(pageSize: int, pageNumber: int, asPage: bool, asDropdown: bool)

  const DefaultPageSize: int := 20
  const DefaultPageNumber: int := 1

  /** A fresh `Pageable`, as the field initialisers leave it. */
  function New(): (p: Pageable)
    ensures p.pageSize == 20 && p.pageNumber == 1 && p.asPage && !p.asDropdown
    ensures Valid(p)
  {
    Pageable(DefaultPageSize, DefaultPageNumber, true, false)
  }

  /** What every reachable `Pageable` satisfies. */
  predicate Valid(p: Pageable) {
    p.pageNumber >= 1 && p.pageSize >= 1
  }

  /** The `PageNumber` setter: a value that is not positive stores 1. */
  function SetPageNumber(p: Pageable, value: int): (r: Pageable)
    ensures value > 0 ==> r.pageNumber == value
    ensures value <= 0 ==> r.pageNumber == DefaultPageNumber
    ensures r.pageNumber >= 1
    ensures r.(pageNumber := p.pageNumber) == p
  {
    p.(pageNumber := if value <= 0 then DefaultPageNumber else value)
  }

  /** The `PageSize` setter: a value that is not positive stores 20. */
  function SetPageSize(p: Pageable, value: int): (r: Pageable)
    ensures value > 0 ==> r.pageSize == value
    ensures value <= 0 ==> r.pageSize == DefaultPageSize
    ensures r.pageSize >= 1
    ensures r.(pageSize := p.pageSize) == p
  {
    p.(pageSize := if value <= 0 then DefaultPageSize else value)
  }

  /** Any assignment a caller can make to a `Pageable`. */
  datatype Assignment = PageNumberTo(n: int) | PageSizeTo(n: int) | AsPageTo(b: bool) | AsDropdownTo(b: bool)

  function Assign(p: Pageable, a: Assignment): Pageable {
    match a
    case PageNumberTo(n) => SetPageNumber(p, n)
    case PageSizeTo(n) => SetPageSize(p, n)
    case AsPageTo(b) => p.(asPage := b)
    case AsDropdownTo(b) => p.(asDropdown := b)
  }

  function AssignAll(p: Pageable, assignments: seq<Assignment>): Pageable
    decreases |assignments|
  {
    if |assignments| == 0 then p else AssignAll(Assign(p, assignments[0]), assignments[1..])
  }

  /** Page number and size stay positive under any sequence of assignments made
      to a fresh `Pageable`. */
  lemma {:induction false} AlwaysValid(p: Pageable, assignments: seq<Assignment>)
    requires Valid(p)
    ensures Valid(AssignAll(p, assignments))
    decreases |assignments|
  {
    if |assignments| > 0 {
      AlwaysValid(Assign(p, assignments[0]), assignments[1..]);
    }
  }

  function Min(a: int, b: int): int {
    if a <= b then a else b
  }

  /** `Enumerable.Skip`: a count that is not positive skips nothing. */
  function Skip<T>(s: seq<T>, n: int): (r: seq<T>)
    ensures n <= 0 ==> r == s
    ensures 0 <= n ==> r == s[Min(n, |s|)..]
  {
    if n <= 0 then s else if n >= |s| then [] else s[n..]
  }

  /** `Enumerable.Take`: a count that is not positive takes nothing. */
  function Take<T>(s: seq<T>, n: int): (r: seq<T>)
    ensures n <= 0 ==> r == []
    ensures 0 <= n ==> r == s[..Min(n, |s|)]
  {
    if n <= 0 then [] else if n >= |s| then s else s[..n]
  }

  /** Reference definition of page `n` of size `k`: the elements at positions
      `(n - 1) * k` up to `n * k`, cut at the end of the sequence. */
  function Page<T>(s: seq<T>, n: int, k: int): seq<T>
    requires n >= 1 && k >= 1
  {
    var lo := Min(|s|, (n - 1) * k);
    var hi := Min(|s|, n * k);
    assert (n - 1) * k >= 0 && lo <= hi by {
      assert (n - 1) * k + k == n * k;
    }
    s[lo..hi]
  }

  /** `ApplyPagination`. */
  function ApplyPagination<T>(p: Pageable, s: seq<T>): (r: seq<T>)
    ensures Valid(p) ==> r == Page(s, p.pageNumber, p.pageSize)
    ensures Valid(p) ==> |r| <= p.pageSize
  {
    var r := Take(Skip(s, (p.pageNumber - 1) * p.pageSize), p.pageSize);
    assert Valid(p) ==> (p.pageNumber - 1) * p.pageSize >= 0;
    assert (p.pageNumber - 1) * p.pageSize + p.pageSize == p.pageNumber * p.pageSize;
    r
  }

  /** Pages `n` and `n + 1` are contiguous: together they are the slice from the
      start of page `n` to the end of page `n + 1`, with no element in both. */
  lemma PagesAreContiguous<T>(s: seq<T>, n: int, k: int)
    requires n >= 1 && k >= 1
    ensures Page(s, n, k) + Page(s, n + 1, k) == s[Min(|s|, (n - 1) * k)..Min(|s|, (n + 1) * k)]
  {
    assert (n + 1 - 1) * k == n * k;
    assert (n - 1) * k + k == n * k;
    assert n * k + k == (n + 1) * k;
  }

  /** The first `m` pages, in order. */
  function FirstPages<T>(s: seq<T>, m: nat, k: int): seq<T>
    requires k >= 1
  {
    if m == 0 then [] else FirstPages(s, m - 1, k) + Page(s, m, k)
  }

  /** The first `m` pages cover the sequence in order up to position `m * k`:
      no element is skipped or repeated. */
  lemma {:induction false} PagesCover<T>(s: seq<T>, m: nat, k: int)
    requires k >= 1
    ensures m * k >= 0
    ensures FirstPages(s, m, k) == s[..Min(|s|, m * k)]
  {
    if m > 0 {
      PagesCover(s, m - 1, k);
      assert (m - 1) * k + k == m * k;
      var lo := Min(|s|, (m - 1) * k);
      var hi := Min(|s|, m * k);
      assert s[..lo] + s[lo..hi] == s[..hi];
    }
  }
}
