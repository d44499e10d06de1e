/** The page slice shown by the holiday table: `Array.prototype.slice`
    semantics and the fixed page size. */
module Paging {

  /** The number of rows on one page of the table. */
  const HolidaysPerPage: nat := 10

  function Min(a: int, b: int): int
  {
    if a <= b then a else b
  }

  /** How `slice` normalises one bound: a negative index counts from the end
      and is floored at 0; an index past the end is clamped to the length. */
  function SliceBound(i: int, len: nat): (r: nat)
    ensures r <= len
    ensures 0 <= i ==> r == Min(i, len)
  {
    if i < 0 then (if len + i < 0 then 0 else len + i)
    else if i > len then len
    else i
  }

  /** JavaScript's array slice from start to end: never fails, and an empty
      or inverted range of non-negative bounds gives []. */
  function Slice<T>(s: seq<T>, start: int, end: int): (r: seq<T>)
    ensures 0 <= start <= end ==> r == s[Min(start, |s|)..Min(end, |s|)]
    ensures start <= end ==> |r| <= end - start
    ensures 0 <= end <= start ==> r == []
  {
    var from, to := SliceBound(start, |s|), SliceBound(end, |s|);
    if from < to then s[from..to] else []
  }

  /** The index of the first row of page `page` (counting from 1). */
  function PageStart(page: int, size: nat): (start: int)
    ensures page >= 1 ==> start >= 0
  {
    (page - 1) * size
  }

  /** The rows of page `page`: the slice of `size` rows from its start. */
  function Paginate<T>(s: seq<T>, page: int, size: nat): (r: seq<T>)
    ensures |r| <= size
    ensures page >= 1 ==> r == s[Min(PageStart(page, size), |s|)..Min(PageStart(page, size) + size, |s|)]
    ensures page >= 1 && PageStart(page, size) >= |s| ==> r == []
    ensures page >= 1 ==> forall k :: 0 <= k < |r| ==>
      PageStart(page, size) + k < |s| && r[k] == s[PageStart(page, size) + k]
  {
    var start := PageStart(page, size);
    Slice(s, start, start + size)
  }

  /** The next page is non-empty exactly when `page * size < |s|`, so the
      "Next" button's disabled test `page * size >= |s|` holds exactly when the
      page it would move to is empty. */
  lemma NextPageNonEmptyIff<T>(s: seq<T>, page: int, size: nat)
    requires page >= 1 && size > 0
    ensures page * size < |s| <==> Paginate(s, page + 1, size) != []
  {
    var r := Paginate(s, page + 1, size);
    assert PageStart(page + 1, size) == page * size;
    if page * size < |s| {
      assert |r| == Min(page * size + size, |s|) - page * size;
      assert |r| > 0;
    }
  }

  /** Every element of the list appears on exactly one page of the listing:
      element i is at position i % HolidaysPerPage of page i / HolidaysPerPage + 1,
      and no other page counted from 1 covers index i. */
  lemma PaginateLocates<T>(s: seq<T>, i: int)
    requires 0 <= i < |s|
    ensures i % HolidaysPerPage < |Paginate(s, i / HolidaysPerPage + 1, HolidaysPerPage)|
    ensures Paginate(s, i / HolidaysPerPage + 1, HolidaysPerPage)[i % HolidaysPerPage] == s[i]
    ensures forall p :: p >= 1 && p != i / HolidaysPerPage + 1 ==>
      !(PageStart(p, HolidaysPerPage) <= i < PageStart(p, HolidaysPerPage) + HolidaysPerPage)
  {
    var start := PageStart(i / HolidaysPerPage + 1, HolidaysPerPage);
    assert start <= i < start + HolidaysPerPage;
    assert start + i % HolidaysPerPage == i;
  }
}
