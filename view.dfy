/** The state of the holiday listing page: the fetched holidays, the filter
    selectors, the derived filtered list and the page counter, with the
    setters, the synchronous filter effect and the previous/next controls. */
module HolidayView {
  import opened HolidayFilter
  import opened Paging

  /** What a settled fetch gives the page: the request failed (the promise
      rejected, or the body was JSON `null`, where reading `data.holidays`
      throws), the body's `holidays` was absent or falsy (this includes a body
      that is a number, string, boolean or array), or the body listed holidays. */
  datatype FetchOutcome = Failed | NoList | Listed(holidays: seq<Holiday>)

  /** The page the "Previous" handler moves to: one back, never below 1. */
  function PrevPage(p: int): (r: int)
    ensures r >= 1
    ensures p > 1 ==> r == p - 1
    ensures p <= 1 ==> r == 1
  {
    if p - 1 > 1 then p - 1 else 1
  }

  class HolidayPage {
    var holidays: seq<Holiday>
    var filtered: seq<Holiday>
    var year: int
    var province: string
    var searchQuery: string
    var currentPage: int

    /** The settled state: the page counter is positive and the filtered list
        is the filter of the current holidays, province and query. */
    ghost predicate Valid()
      reads this
    {
      currentPage >= 1 && filtered == Filter(holidays, province, searchQuery)
    }

    /** The counter names a page that exists: page 1, or one whose first row
        is within the filtered list. The buttons keep this; the handlers alone do not. */
    ghost predicate OnExistingPage()
      reads this
    {
      currentPage == 1 || PageStart(currentPage, HolidaysPerPage) < |filtered|
    }

    /** The initial state of the component. */
    constructor ()
      ensures Valid() && OnExistingPage()
      ensures holidays == [] && filtered == [] && year == 2024
      ensures province == AllProvinces && searchQuery == "" && currentPage == 1
    {
      holidays, filtered := [], [];
      year := 2024;
      province := AllProvinces;
      searchQuery := "";
      currentPage := 1;
    }

    /** The filter effect, run synchronously: narrow by province when one is
        selected, then by the query when it is non-empty, then publish the
        result and return to page 1. */
    method ApplyFilters()
      modifies this`filtered, this`currentPage
      ensures Valid() && OnExistingPage()
      ensures filtered == Filter(holidays, province, searchQuery) && currentPage == 1
    {
      var f := holidays;
      if province != AllProvinces {
        f := ByProvince(f, province);
      }
      if searchQuery != "" {
        f := BySearch(f, searchQuery);
      }
      filtered := f;
      currentPage := 1;
    }

    /** `setHolidays`: every call hands over a new list, so the filter effect
        always runs and the page returns to 1. */
    method SetHolidays(hs: seq<Holiday>)
      modifies this
      ensures Valid() && OnExistingPage()
      ensures holidays == hs && filtered == Filter(hs, province, searchQuery) && currentPage == 1
      ensures year == old(year) && province == old(province) && searchQuery == old(searchQuery)
    {
      holidays := hs;
      ApplyFilters();
    }

    /** The observable end of a fetch: a failed request leaves everything as it
        was, a body whose `holidays` is absent or falsy empties the list, a listed body replaces it. */
    method ReceiveHolidays(outcome: FetchOutcome)
      requires Valid() && OnExistingPage()
      modifies this
      ensures Valid() && OnExistingPage()
      ensures outcome.Failed? ==> holidays == old(holidays) && currentPage == old(currentPage)
      ensures outcome.NoList? ==> holidays == [] && currentPage == 1
      ensures outcome.Listed? ==> holidays == outcome.holidays && currentPage == 1
      ensures filtered == Filter(holidays, province, searchQuery)
      ensures year == old(year) && province == old(province) && searchQuery == old(searchQuery)
    {
      match outcome
      case Failed =>
      case NoList => SetHolidays([]);
      case Listed(hs) => SetHolidays(hs);
    }

    /** `setYear`: only the year changes; the new holidays arrive later through
        ReceiveHolidays. */
    method SetYear(y: int)
      requires Valid() && OnExistingPage()
      modifies this`year
      ensures Valid() && OnExistingPage()
      ensures year == y
    {
      year := y;
    }

    /** `setProvince`: a different value re-runs the filter effect and returns
        to page 1; the same value changes nothing. */
    method SetProvince(p: string)
      requires Valid() && OnExistingPage()
      modifies this
      ensures Valid() && OnExistingPage()
      ensures province == p && filtered == Filter(holidays, p, searchQuery)
      ensures currentPage == if p == old(province) then old(currentPage) else 1
      ensures holidays == old(holidays) && year == old(year) && searchQuery == old(searchQuery)
    {
      if p != province {
        province := p;
        ApplyFilters();
      }
    }

    /** `setSearchQuery`: a different value re-runs the filter effect and
        returns to page 1; the same value changes nothing. */
    method SetSearch(q: string)
      requires Valid() && OnExistingPage()
      modifies this
      ensures Valid() && OnExistingPage()
      ensures searchQuery == q && filtered == Filter(holidays, province, q)
      ensures currentPage == if q == old(searchQuery) then old(currentPage) else 1
      ensures holidays == old(holidays) && year == old(year) && province == old(province)
    {
      if q != searchQuery {
        searchQuery := q;
        ApplyFilters();
      }
    }

    /** `paginatedHolidays`: the rows shown on the current page. */
    function PageItems(): (r: seq<Holiday>)
      reads this
      ensures |r| <= HolidaysPerPage
      ensures currentPage >= 1 && PageStart(currentPage, HolidaysPerPage) < |filtered| ==> r != []
      ensures currentPage >= 1 ==> r == filtered[Min(PageStart(currentPage, HolidaysPerPage), |filtered|)..
                                                  Min(PageStart(currentPage, HolidaysPerPage) + HolidaysPerPage, |filtered|)]
      ensures currentPage >= 1 ==> forall k :: 0 <= k < |r| ==>
        PageStart(currentPage, HolidaysPerPage) + k < |filtered| &&
        r[k] == filtered[PageStart(currentPage, HolidaysPerPage) + k]
    {
      Paginate(filtered, currentPage, HolidaysPerPage)
    }

    /** The "Previous" button's `disabled` attribute: it holds exactly when
        the handler would leave the page where it is, and while it does not
        hold on an existing page, the page before has rows. */
    predicate PrevDisabled()
      reads this
      ensures currentPage >= 1 ==>
        (PrevDisabled() <==> PrevPage(currentPage) == currentPage)
      ensures currentPage > 1 && PageStart(currentPage, HolidaysPerPage) < |filtered| ==>
        Paginate(filtered, currentPage - 1, HolidaysPerPage) != []
    {
      currentPage == 1
    }

    /** The "Next" button's `disabled` attribute; on a positive page it holds
        exactly when the next page would be empty. */
    predicate NextDisabled()
      reads this
      ensures currentPage >= 1 ==>
        (NextDisabled() <==> Paginate(filtered, currentPage + 1, HolidaysPerPage) == [])
    {
      currentPage * HolidaysPerPage >= |filtered|
    }

    /** The "Previous" click handler: one page back, never below 1. */
    method Prev()
      requires Valid()
      modifies this`currentPage
      ensures Valid()
      ensures currentPage == PrevPage(old(currentPage))
    {
      currentPage := PrevPage(currentPage);
    }

    /** The "Next" click handler: one page forward, unchecked. */
    method Next()
      requires Valid()
      modifies this`currentPage
      ensures Valid()
      ensures currentPage == old(currentPage) + 1
    {
      currentPage := currentPage + 1;
    }

    /** A click on "Previous": nothing happens while it is disabled (on page 1);
        otherwise the page goes back by exactly one and still exists. */
    method ClickPrev()
      requires Valid() && OnExistingPage()
      modifies this`currentPage
      ensures Valid() && OnExistingPage()
      ensures old(currentPage) == 1 ==> currentPage == 1
      ensures old(currentPage) != 1 ==> currentPage == old(currentPage) - 1
    {
      if !PrevDisabled() {
        Prev();
      }
    }

    /** A click on "Next": nothing happens while it is disabled; otherwise the
        page goes forward by one and the page moved to is non-empty. */
    method ClickNext()
      requires Valid() && OnExistingPage()
      modifies this`currentPage
      ensures Valid() && OnExistingPage()
      ensures old(NextDisabled()) ==> currentPage == old(currentPage)
      ensures !old(NextDisabled()) ==> currentPage == old(currentPage) + 1 && PageItems() != []
    {
      if !NextDisabled() {
        Next();
      }
    }
  }
}
