# Holiday listing view state

A model of the view-state core of the Canadian holiday listing page
(`pages/index.jsx`). The page holds a fetched list of holidays, a province
selector (`"All"` or a province id), a free-text search query and a page
counter. A filter effect derives the filtered list from the holidays, the
province and the query, and returns to page 1 whenever one of those changes.
The table shows a slice of 10 rows of the filtered list, and "Previous" and
"Next" buttons move the page counter.

Modules:

- `Text` (text.dfy): an ASCII model of `toLowerCase` and of `includes`, with
  `Includes` proved to find exactly the substrings.
- `HolidayFilter` (filter.dfy): the `Holiday` record, the province pass
  `ByProvince`, the search pass `BySearch` and their composition `Filter`.
  `Filter` is an order-preserving subsequence of its input that keeps every
  matching holiday as often as it occurs and nothing else. The listed
  properties are lemmas about it: membership in both directions, province and
  search soundness and completeness, the unfiltered case and idempotence.
- `Paging` (paging.dfy): `Array.prototype.slice` with its negative-index and
  clamping rules, `Paginate`, and the link between the "Next" test and the
  next page being non-empty.
- `HolidayView` (view.dfy): the component as a class `HolidayPage` with
  the fields `holidays`, `filtered`, `year`, `province`, `searchQuery` and
  `currentPage`. The filter effect (`ApplyFilters`) runs synchronously inside
  `SetHolidays`, and inside `SetProvince` and `SetSearch` when the value
  changes; `SetYear` does not run it, as the year is not one of its
  dependencies. The invariant `Valid()` says the page is at least 1 and
  `filtered` is `Filter(holidays, province, searchQuery)`. The extra
  invariant `OnExistingPage()` says the counter names a page that has rows,
  or is page 1. Clicks that respect the buttons' `disabled` attributes
  (`ClickPrev`, `ClickNext`) keep both invariants.

## Notes on the code's behaviour

- A rejected `fetch` or `response.json()`, or a body that is JSON `null`,
  where reading `data.holidays` throws, never reaches `setHolidays`
  (pages/index.jsx:15-18), so the previous list stays. A body whose
  `holidays` is absent or falsy empties the list (`ReceiveHolidays`, outcome
  `NoList`); a body that is a number, string, boolean or array lands there too.
- Setting the province or the query to its current value does not re-run the
  effect, whose dependencies are unchanged, so the page is not reset then.
  `setHolidays` always receives a new array, so it always resets the page.

## Model

| member | source | states |
|---|---|---|
| `Text.LowerStr` | pages/index.jsx:36 | lower-casing keeps the length and maps every character through the ASCII lower-case map |
| `Text.IncludesIff` | pages/index.jsx:36 | `includes` holds exactly when the query occurs at some index of the string |
| `HolidayFilter.ByProvince` | pages/index.jsx:28-31 | the province pass is an ordered subsequence keeping each federal or province-listing holiday with its full multiplicity and dropping all others |
| `HolidayFilter.BySearch` | pages/index.jsx:34-38 | the search pass is an ordered subsequence keeping each holiday whose lower-cased name includes the lower-cased query, with its multiplicity, and dropping all others |
| `HolidayFilter.Filter` | pages/index.jsx:25-40 | the filtered list is an ordered subsequence of the raw list whose multiset is exactly the matching holidays of the raw list: no reordering, duplication or invention |
| `HolidayFilter.FilterAllUnfiltered` | pages/index.jsx:26-40 | with province "All" and an empty query the filtered list is the raw list |
| `HolidayFilter.FilterMembership` | pages/index.jsx:26-40 | a holiday is retained if and only if it is in the raw list and passes both tests |
| `HolidayFilter.FilterProvinceSound` | pages/index.jsx:28-31 | with a province selected, every retained holiday is federal or lists that province id |
| `HolidayFilter.FilterProvinceComplete` | pages/index.jsx:28-31 | a federal or province-listing holiday that passes the search test is retained |
| `HolidayFilter.FilterSearchSound` | pages/index.jsx:34-38 | with a non-empty query, every retained holiday's lower-cased name contains the lower-cased query as a substring |
| `HolidayFilter.FilterSearchComplete` | pages/index.jsx:34-38 | a holiday whose lower-cased name contains the lower-cased query and that passes the province test is retained |
| `HolidayFilter.FilterEmptyQuery` | pages/index.jsx:34-38 | an empty query retains everything the province pass kept |
| `HolidayFilter.ByProvinceKeepsAll` | pages/index.jsx:29-31 | the province pass leaves a list of matching holidays unchanged |
| `HolidayFilter.BySearchKeepsAll` | pages/index.jsx:35-37 | the search pass leaves a list of matching holidays unchanged |
| `HolidayFilter.FilterKeepsAllMatching` | pages/index.jsx:25-40 | a list whose every holiday matches passes the filter unchanged |
| `HolidayFilter.FilterIdempotent` | pages/index.jsx:25-40 | re-filtering the filtered list with the same province and query gives the same list |
| `Paging.SliceBound` | pages/index.jsx:53 | a slice bound is clamped into the list; a non-negative bound becomes its minimum with the length |
| `Paging.Slice` | pages/index.jsx:53 | a slice never fails; for 0 <= start <= end it is the clamped sub-range and never longer than end - start; for 0 <= end <= start it is empty |
| `Paging.PageStart` | pages/index.jsx:52 | the first row of a page counted from 1 is never negative |
| `Paging.Paginate` | pages/index.jsx:51-54 | a page has at most `size` rows, is `s[min(start,|s|)..min(start+size,|s|)]` for page at least 1, is empty past the end, and its k-th row is row start+k of the list |
| `Paging.NextPageNonEmptyIff` | pages/index.jsx:114 | on page p at least 1, `p*size < |s|` holds exactly when page p+1 is non-empty |
| `Paging.PaginateLocates` | pages/index.jsx:13 | with 10 rows per page, row i of the list is row i%10 of page i/10+1, and no other page counted from 1 covers row i |
| `HolidayView.HolidayPage.constructor` | pages/index.jsx:5-10 | the initial state: no holidays, year 2024, province "All", empty query, page 1 |
| `HolidayView.HolidayPage.ApplyFilters` | pages/index.jsx:25-42 | narrowing by province then by query yields `Filter` of the current state and resets the page to 1 |
| `HolidayView.HolidayPage.SetHolidays` | pages/index.jsx:18 | replacing the holidays recomputes the filtered list and resets the page to 1, leaving the selectors alone |
| `HolidayView.HolidayPage.ReceiveHolidays` | pages/index.jsx:15-19 | a failed fetch changes nothing, a body whose `holidays` is absent or falsy empties the list, a listed body replaces it; both of the latter reset the page |
| `HolidayView.HolidayPage.SetYear` | pages/index.jsx:61 | choosing a year changes only the year |
| `HolidayView.HolidayPage.SetProvince` | pages/index.jsx:41-42 | a new province recomputes the filtered list and resets the page to 1; the same province changes nothing |
| `HolidayView.HolidayPage.SetSearch` | pages/index.jsx:41-42 | a new query recomputes the filtered list and resets the page to 1; the same query changes nothing |
| `HolidayView.HolidayPage.PageItems` | pages/index.jsx:51-54 | the shown rows are exactly `filtered[min(start,|filtered|)..min(start+10,|filtered|)]` on a page of 1 or more: at most 10 rows, row k is row start+k of the filtered list, and non-empty when the page's start is within the list |
| `HolidayView.HolidayPage.PrevDisabled` | pages/index.jsx:107 | "Previous" is disabled exactly on page 1, which is exactly when its handler would leave the page unchanged; when enabled on an existing page, the page before it has rows |
| `HolidayView.HolidayPage.NextDisabled` | pages/index.jsx:114 | on a positive page, "Next" is disabled exactly when the page it would move to is empty |
| `HolidayView.PrevPage` | pages/index.jsx:106 | the page one back from p is p-1 when p > 1 and 1 otherwise, so never below 1 |
| `HolidayView.HolidayPage.Prev` | pages/index.jsx:106 | the handler sets the page to `PrevPage` of the old page: one back with a floor of 1, keeping the page at least 1 |
| `HolidayView.HolidayPage.Next` | pages/index.jsx:113 | the handler moves forward one page |
| `HolidayView.HolidayPage.ClickPrev` | pages/index.jsx:104-110 | a click on page 1 does nothing (the button is disabled); otherwise the page goes back by exactly one and still exists |
| `HolidayView.HolidayPage.ClickNext` | pages/index.jsx:111-117 | a click while disabled does nothing; otherwise the page goes forward by one and the page moved to has rows |

## Left out

- The network request in `fetchHolidays` (pages/index.jsx:15-23) is I/O: only its observable result is modelled, as the `FetchOutcome` given to `ReceiveHolidays`. The effect that starts a fetch when the year changes is not modelled.
- The address update through `router.push` (pages/index.jsx:44-49) is a framework side effect and is not modelled.
- React's scheduling of renders and effects is not modelled: each setter runs the filter effect synchronously, so intermediate states are not visible.
- Text.LowerStr: models `toLowerCase` for ASCII letters only; full Unicode case mapping is not modelled.
- The year `<select>` hands over a string, which the code interpolates into the request URL just as it would the number; the model takes an integer.
- The federal flag: the provider sends a number that the code uses as a truth value; the model takes a boolean.
- The JSX rendering is not modelled: the year options 2020-2030 (lines 61-65), the province options (67-73) and the table markup (83-102), including its "Federal" or comma-joined province cell.
