/** The filter effect of the holiday listing: a province pass followed by a
    case-insensitive search pass over the fetched holidays. */
module HolidayFilter {
  import opened Text

  /** One entry of a holiday's `provinces` list; only its id is consulted. */
  datatype ProvinceRef = ProvinceRef(id: string)

  /** A holiday record as delivered by the holiday provider. */
  datatype Holiday = Holiday(
    id: int,
    date: string,
    nameEn: string,
    nameFr: string,
    federal: bool,
    provinces: seq<ProvinceRef>)

  /** The province selector's sentinel for "no province filter". */
  const AllProvinces: string := "All"

  /** Some entry of the holiday's province list has the given id. */
  predicate ListsProvince(h: Holiday, province: string)
  {
    exists i :: 0 <= i < |h.provinces| && h.provinces[i].id == province
  }

  /** The province pass keeps federal holidays and those listing the province. */
  predicate InProvince(h: Holiday, province: string)
  {
    h.federal || ListsProvince(h, province)
  }

  /** The search pass: the lower-cased English name includes the lower-cased query. */
  predicate MatchesSearch(h: Holiday, query: string)
  {
    Includes(LowerStr(h.nameEn), LowerStr(query))
  }

  /** Whether a holiday survives both passes for the given selector and query. */
  predicate Matches(h: Holiday, province: string, query: string)
  {
    (province == AllProvinces || InProvince(h, province)) &&
    (query == "" || MatchesSearch(h, query))
  }

  /** `a` is an order-preserving subsequence of `b`. */
  ghost predicate IsSubsequence<T>(a: seq<T>, b: seq<T>)
    decreases |b|
  {
    a == [] ||
    (b != [] && ((a[0] == b[0] && IsSubsequence(a[1..], b[1..])) || IsSubsequence(a, b[1..])))
  }

  lemma {:induction false} SubsequenceRefl<T>(a: seq<T>)
    ensures IsSubsequence(a, a)
    decreases |a|
  {
    if a != [] {
      SubsequenceRefl(a[1..]);
    }
  }

  lemma {:induction false} SubsequenceTrans<T>(a: seq<T>, b: seq<T>, c: seq<T>)
    requires IsSubsequence(a, b) && IsSubsequence(b, c)
    ensures IsSubsequence(a, c)
    decreases |c|
  {
    if a != [] {
      if b[0] == c[0] && IsSubsequence(b[1..], c[1..]) {
        if a[0] == b[0] && IsSubsequence(a[1..], b[1..]) {
          SubsequenceTrans(a[1..], b[1..], c[1..]);
        } else {
          SubsequenceTrans(a, b[1..], c[1..]);
        }
      } else {
        SubsequenceTrans(a, b, c[1..]);
      }
    }
  }

  /** The province pass: keeps, in order, the holidays that are federal or list the province. */
  function ByProvince(hs: seq<Holiday>, province: string): (r: seq<Holiday>)
    ensures IsSubsequence(r, hs)
    ensures forall h :: multiset(r)[h] == if InProvince(h, province) then multiset(hs)[h] else 0
  {
    if hs == [] then []
    else
      var rest := ByProvince(hs[1..], province);
      assert hs == [hs[0]] + hs[1..];
      if InProvince(hs[0], province) then [hs[0]] + rest else rest
  }

  /** The search pass: keeps, in order, the holidays whose lower-cased English
      name includes the lower-cased query. */
  function BySearch(hs: seq<Holiday>, query: string): (r: seq<Holiday>)
    ensures IsSubsequence(r, hs)
    ensures forall h :: multiset(r)[h] == if MatchesSearch(h, query) then multiset(hs)[h] else 0
  {
    if hs == [] then []
    else
      var rest := BySearch(hs[1..], query);
      assert hs == [hs[0]] + hs[1..];
      if MatchesSearch(hs[0], query) then [hs[0]] + rest else rest
  }

  /** The filtered list: the province pass when a province is selected, then
      the search pass when the query is non-empty. The result keeps the input
      order and keeps every matching holiday as often as it occurs, and nothing else. */
  function Filter(hs: seq<Holiday>, province: string, query: string): (r: seq<Holiday>)
    ensures IsSubsequence(r, hs)
    ensures forall h :: multiset(r)[h] == if Matches(h, province, query) then multiset(hs)[h] else 0
  {
    var byProvince := if province != AllProvinces then ByProvince(hs, province) else hs;
    SubsequenceRefl(hs);
    if query != "" then
      var bySearch := BySearch(byProvince, query);
      SubsequenceTrans(bySearch, byProvince, hs);
      bySearch
    else
      byProvince
  }

  /** With no province and no query the list is shown unchanged. */
  lemma FilterAllUnfiltered(hs: seq<Holiday>)
    ensures Filter(hs, AllProvinces, "") == hs
  {
  }

  /** A holiday is in the filtered list exactly when it is in the raw list and
      passes both the province test and the search test. */
  lemma FilterMembership(hs: seq<Holiday>, province: string, query: string, h: Holiday)
    ensures h in Filter(hs, province, query) <==> h in hs && Matches(h, province, query)
  {
    var r := Filter(hs, province, query);
    assert h in r <==> multiset(r)[h] > 0;
    assert h in hs <==> multiset(hs)[h] > 0;
  }

  /** Soundness of the province pass: with a province selected, every retained
      holiday is federal or lists that province. */
  lemma FilterProvinceSound(hs: seq<Holiday>, province: string, query: string, h: Holiday)
    requires province != AllProvinces
    requires h in Filter(hs, province, query)
    ensures h.federal || exists i :: 0 <= i < |h.provinces| && h.provinces[i].id == province
  {
    FilterMembership(hs, province, query, h);
  }

  /** Completeness of the province pass: a federal holiday, or one listing the
      province, that also passes the search is retained. */
  lemma FilterProvinceComplete(hs: seq<Holiday>, province: string, query: string, h: Holiday)
    requires h in hs
    requires h.federal || exists i :: 0 <= i < |h.provinces| && h.provinces[i].id == province
    requires query == "" || MatchesSearch(h, query)
    ensures h in Filter(hs, province, query)
  {
    FilterMembership(hs, province, query, h);
  }

  /** Soundness of the search pass: with a non-empty query, every retained
      holiday's lower-cased English name has the lower-cased query as a substring. */
  lemma FilterSearchSound(hs: seq<Holiday>, province: string, query: string, h: Holiday)
    requires query != ""
    requires h in Filter(hs, province, query)
    ensures exists i :: OccursAt(LowerStr(h.nameEn), LowerStr(query), i)
  {
    FilterMembership(hs, province, query, h);
    IncludesIff(LowerStr(h.nameEn), LowerStr(query));
  }

  /** Completeness of the search pass: a holiday whose lower-cased name contains
      the lower-cased query at some position and that passes the province test is retained. */
  lemma FilterSearchComplete(hs: seq<Holiday>, province: string, query: string, h: Holiday, i: int)
    requires h in hs
    requires province == AllProvinces || InProvince(h, province)
    requires OccursAt(LowerStr(h.nameEn), LowerStr(query), i)
    ensures h in Filter(hs, province, query)
  {
    IncludesIff(LowerStr(h.nameEn), LowerStr(query));
    FilterMembership(hs, province, query, h);
  }

  /** An empty query retains every holiday that passes the province test. */
  lemma FilterEmptyQuery(hs: seq<Holiday>, province: string)
    ensures Filter(hs, province, "") == if province == AllProvinces then hs else ByProvince(hs, province)
  {
  }

  lemma {:induction false} ByProvinceKeepsAll(hs: seq<Holiday>, province: string)
    requires forall i :: 0 <= i < |hs| ==> InProvince(hs[i], province)
    ensures ByProvince(hs, province) == hs
    decreases |hs|
  {
    if hs != [] {
      ByProvinceKeepsAll(hs[1..], province);
    }
  }

  lemma {:induction false} BySearchKeepsAll(hs: seq<Holiday>, query: string)
    requires forall i :: 0 <= i < |hs| ==> MatchesSearch(hs[i], query)
    ensures BySearch(hs, query) == hs
    decreases |hs|
  {
    if hs != [] {
      BySearchKeepsAll(hs[1..], query);
    }
  }

  /** A list whose every holiday already matches passes the filter unchanged. */
  lemma FilterKeepsAllMatching(hs: seq<Holiday>, province: string, query: string)
    requires forall i :: 0 <= i < |hs| ==> Matches(hs[i], province, query)
    ensures Filter(hs, province, query) == hs
  {
    if province != AllProvinces {
      ByProvinceKeepsAll(hs, province);
    }
    if query != "" {
      BySearchKeepsAll(hs, query);
    }
  }

  /** Re-filtering the filtered list with the same province and query changes nothing. */
  lemma FilterIdempotent(hs: seq<Holiday>, province: string, query: string)
    ensures Filter(Filter(hs, province, query), province, query) == Filter(hs, province, query)
  {
    var r := Filter(hs, province, query);
    forall i | 0 <= i < |r|
      ensures Matches(r[i], province, query)
    {
      assert multiset(r)[r[i]] > 0;
    }
    FilterKeepsAllMatching(r, province, query);
  }
}
