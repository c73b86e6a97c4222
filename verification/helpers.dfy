/** The benchmark's `TypeExtension` helpers: a null-or-blank test for any value,
    an inclusive range test, null scans over a sequence, and the `PagedData`
    envelope. A null sequence is `None`. */
module Helpers {
  import opened Wrappers
  import opened Types
  import opened Text
  import Paging

  /** `IsNullOrEmpty<TSource>`: null, or a string that is empty or white space. The
      `IsNullOrEmpty` half of the source's disjunction adds nothing, since an
      empty string is already white space only. */
  function IsNullOrEmptyValue(v: Value): (b: bool)
    ensures b <==> v.Null? || (v.Str? && forall i :: 0 <= i < |v.s| ==> IsWhiteSpace(v.s[i]))
    ensures v.Str? && |v.s| == 0 ==> b
    ensures !v.Null? && !v.Str? ==> !b
  {
    v.Null? || (v.Str? && (IsNullOrWhiteSpace(Some(v.s)) || IsNullOrEmpty(Some(v.s))))
  }

  /** `IsBetween`: `CompareTo` against both bounds, inclusive at each end. */
  function IsBetween<T>(value: T, minRange: T, maxRange: T, compareTo: (T, T) -> int): bool {
    compareTo(value, minRange) >= 0 && compareTo(value, maxRange) <= 0
  }

  /** `int.CompareTo`: the sign of the difference. */
  function IntCompareTo(a: int, b: int): (c: int)
    ensures c < 0 <==> a < b
    ensures c > 0 <==> a > b
  {
    if a < b then -1 else if a > b then 1 else 0
  }

  /** On integers the range test is `minRange <= value <= maxRange`: both bounds
      belong to the range, and a range whose bounds are reversed is empty. */
  lemma IsBetweenInclusive(value: int, minRange: int, maxRange: int)
    ensures IsBetween(value, minRange, maxRange, IntCompareTo) <==> minRange <= value <= maxRange
    ensures minRange <= maxRange ==> IsBetween(minRange, minRange, maxRange, IntCompareTo)
    ensures minRange <= maxRange ==> IsBetween(maxRange, minRange, maxRange, IntCompareTo)
    ensures minRange > maxRange ==> !IsBetween(value, minRange, maxRange, IntCompareTo)
  {
  }

  /** `HasAnyNull`: a null sequence, or one with a null element (`Any`). */
  function HasAnyNull(source: Option<seq<Value>>): (b: bool)
    ensures source.Some? && |source.value| == 0 ==> !b
    ensures source.Some? && |source.value| == 1 ==> (b <==> source.value[0].Null?)
  {
    source.None? || exists i :: 0 <= i < |source.value| && source.value[i].Null?
  }

  /** `HasAllNull`: a null sequence, or one whose elements are all null (`All`,
      which holds for an empty sequence). */
  function HasAllNull(source: Option<seq<Value>>): (b: bool)
    ensures source.Some? && |source.value| == 0 ==> b
    ensures source.Some? && |source.value| == 1 ==> (b <==> source.value[0].Null?)
  {
    source.None? || forall i :: 0 <= i < |source.value| ==> source.value[i].Null?
  }

  /** The two scans agree except on the empty sequence: there `HasAllNull` holds
      and `HasAnyNull` does not; otherwise all-null implies any-null, and
      any-null without all-null means the sequence mixes null and non-null. */
  lemma NullScansRelated(source: Option<seq<Value>>)
    ensures source.None? ==> HasAnyNull(source) && HasAllNull(source)
    ensures source.Some? && |source.value| == 0 ==> HasAllNull(source) && !HasAnyNull(source)
    ensures source.Some? && |source.value| > 0 && HasAllNull(source) ==> HasAnyNull(source)
    ensures source.Some? && HasAnyNull(source) && !HasAllNull(source) ==>
              (exists i :: 0 <= i < |source.value| && source.value[i].Null?) &&
              (exists j :: 0 <= j < |source.value| && !source.value[j].Null?)
  {
    if source.Some? && |source.value| > 0 && HasAllNull(source) {
      assert source.value[0].Null?;
    }
  }

  /** What the comment on `HasAnyNull` promises: true for a null sequence, for a
      sequence with no items, and for one with a null item. */
  function HasAnyNullAsDocumented(source: Option<seq<Value>>): (b: bool)
    ensures source.Some? && |source.value| == 0 ==> b
    ensures source.Some? && |source.value| > 0 ==> b == HasAnyNull(source)
    ensures source.None? ==> b
  {
    source.None? || |source.value| == 0 || HasAnyNull(source)
  }

  /** The code and its comment part on the empty sequence: `Any` over no items is
      false, so the code answers false where the comment promises true. */
  lemma HasAnyNullEmptyDisagrees()
    ensures !HasAnyNull(Some([]))
    ensures HasAnyNullAsDocumented(Some([]))
  {
  }

  /** `PagedData<T>`: the four counters and the content. */
  datatype PagedData<T> = PagedData(pageSize: int, pageNumber: int, totalPage: int, totalRecord: int, content: seq<T>)

  /** `ToPagedData`: the counters are copied as given, and a null source gives
      empty content. */
  function ToPagedData<T>(source: Option<seq<T>>, pageSize: int, pageNumber: int, totalPage: int, totalRecord: int)
    : (r: PagedData<T>)
    ensures r.pageSize == pageSize && r.pageNumber == pageNumber
    ensures r.totalPage == totalPage && r.totalRecord == totalRecord
    ensures source.None? ==> r.content == []
    ensures source.Some? ==> r.content == source.value
  {
    PagedData(pageSize, pageNumber, totalPage, totalRecord, if source.None? then [] else source.value)
  }

  /** Wrapping one page of a `Pageable` gives content no longer than the page size
      it reports, and that content is the page. */
  lemma PagedPageFits<T>(p: Paging.Pageable, s: seq<T>, totalPage: int, totalRecord: int)
    requires Paging.Valid(p)
    ensures var d := ToPagedData(Some(Paging.ApplyPagination(p, s)), p.pageSize, p.pageNumber, totalPage, totalRecord);
      |d.content| <= d.pageSize && d.content == Paging.Page(s, d.pageNumber, d.pageSize)
  {
  }
}
