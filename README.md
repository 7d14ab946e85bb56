# HR dashboard: a verified model of the client-side logic

This project models the client-side core of the Next.js HR dashboard in
Dafny. That core is everything that turns the employee list and the user's
choices into what the pages show, plus the one piece of persisted state, the
bookmark list. It covers:

- **The home page** (`app/page.tsx`). Search, department and rating filters
  narrow the employee list, which is then cut into pages. The page resets to 1
  when the criteria or the page size change, and a newly created employee is
  put at the head of the list.
- **The page-number strip** (`components/pagination.tsx`). It shows
  "Showing X to Y", the page numbers with `...` gaps around a window of ±2
  pages, and the disabled first/previous/next/last buttons.
- **The filter panel** (`components/search-filter.tsx`). Toggles add a
  department or rating to the selection or take it out, clear-all resets
  everything, and an active-filter badge shows the selection count.
- **The bookmark store** (`lib/bookmark-context.tsx`). It is a list of
  employee ids, loaded from and written back to the browser's key-value
  storage under `"hr-bookmarks"`. The employee card's bookmark button toggles
  an id in it (`components/employee-card.tsx`), and the card also picks
  colours for ratings and departments.
- **The bookmarks page** (`app/bookmarks/page.tsx`): the bookmarked
  employees, the plural suffix, the empty state and the bulk actions.
- **The analytics page** (`app/analytics/page.tsx`):
  - per-department statistics, and the bar chart of department averages sorted
    highest first;
  - the top-ten leaderboard;
  - the rating pie chart;
  - the summary cards;
  - the top employee of each of the first six departments;
  - the in-place leaderboard sort, which reorders the page's own employee
    array, so that every render after the first groups the employees in
    leaderboard order rather than fetch order.
- **The "create employee" dialog** (`components/create-user-modal.tsx`):
  - per-field validation;
  - editing a field clears its error;
  - the record built for a new employee;
  - the form reset.

## Layout

| file | module | contents |
|---|---|---|
| `wrappers.dfy` | `Wrappers` | `Option` |
| `arith.dfy` | `Arith` | two integer facts the page arithmetic needs |
| `seqs.dfy` | `Seqs` | `Array.prototype.filter`, `slice`, remove-all and the toggle idiom, with their laws |
| `sorting.dfy` | `Sorting` | the engine's stable sort as an insertion sort, both on values and in place on an array |
| `text.dfy` | `Text` | ASCII `toLowerCase`, `String.prototype.includes`, `trim`, code-point order for `localeCompare`, decimal digits |
| `types.dfy` | `Types` | `Employee`, `Address`, `Company`, `Project`, `Feedback` |
| `search_filter.dfy` | `SearchFilter` | the filter selection and its toggles |
| `dashboard.dfy` | `Dashboard` | the filter predicate, page count and page slice, and the `HomePage` class holding the page state |
| `pagination.dfy` | `Pagination` | the "showing" bounds, the page strip (loop and reference function), the button conditions |
| `bookmarks.dfy` | `Bookmarks` | storage load/save and the `BookmarkStore` class |
| `employee_card.dfy` | `EmployeeCard` | the bookmark toggle and the colour lookups |
| `bookmarks_page.dfy` | `BookmarksPage` | the bookmarked view |
| `department_stats.dfy` | `DepartmentStats` | the department fold, chart rows, top employee per department |
| `leaderboard.dfy` | `Leaderboard` | the ranking sort and top ten |
| `rating_stats.dfy` | `RatingStats` | the rating histogram, pie-chart slices and summary |
| `analytics_page.dfy` | `AnalyticsPage` | one render of the analytics page in source order, and the first two renders after the fetch |
| `create_user.dfy` | `CreateUser` | the form, its validation, input changes and submission |

### How the JavaScript is modelled

- **Strings** are sequences of Unicode scalar values (code points), Dafny's `char`:
  - `toLowerCase` maps `A`–`Z` only;
  - `trim` removes the ECMAScript white-space and line-terminator characters;
  - `localeCompare` is plain code-point order. This is not the collation a
    browser uses: on mixed-case ASCII names such as "DeShawn" and "Dean" the
    two orders disagree.
- **`Array.prototype.sort`** is the engine's stable sort. It is modelled as an
  insertion sort. Its sortedness, its permutation property and its stability
  (equal elements keep their order) are proved in `Sorting`.
- **The `employees.sort(...)` calls** on the analytics page reorder the page's
  array in place. They are modelled as methods over a Dafny `array`
  (`Leaderboard.TopPerformers`, `DepartmentStats.TopOfDepartment`), proved
  against the value-level sort. The leaderboard sort reorders the state array
  itself (`app/analytics/page.tsx:79`), and the array keeps that order. The
  department `reduce` of every later render therefore runs over leaderboard
  order. On the first render after the fetch, departments, members and
  ties follow fetch order. On every render after that, including the one
  the 500 ms animation timer triggers (`app/analytics/page.tsx:42-49`), they
  follow leaderboard order. `AnalyticsPage` models both renders.
- **`toFixed(1)`** on an average is modelled as the exact quotient rounded to
  tenths (`DepartmentStats.RoundTenths`).
- **Ratings** lie between 1 and 5 wherever the application produces an
  employee:
  - `lib/api.ts:9-13` computes `floor(random * 5) + 1`;
  - `components/create-user-modal.tsx:106` does the same.

  `RatingStats.ValidRatings` states this, and the summary lemmas assume it.
- **`Number(age)`** is the parameter `toNumber: string -> Option<real>`. `None`
  stands for `NaN`.
- **`Date.now()` and `Math.random()`** are the parameters `id` and `roll` (with
  `0 <= roll < 1`).
- **React state setters** are assignments to the fields of a class.
  - The page-reset effect of `app/page.tsx:58-61` runs when a dependency changes
    identity. A new search string equal to the old one leaves the page alone.
  - Every array setter builds a new array, so it always resets the page.
- **`localStorage`** is a `map<string, seq<int>>` field of the bookmark store.
  The two mount effects of `lib/bookmark-context.tsx:18-27` together amount to
  load-then-save, and that combination is the store's constructor.

## Model

| member | source | states |
|---|---|---|
| Dashboard.FilteredIsSubseq | hr-dashboard/app/page.tsx:36-51 | the filtered list is an order-preserving subsequence of the employees; it holds exactly the employees that meet all three criteria; filtering it again changes nothing |
| Dashboard.MatchesSearchIff | hr-dashboard/app/page.tsx:38-42 | an employee matches the search iff the lower-cased term occurs in the lower-cased first name, last name, email or department |
| Dashboard.EmptySearchMatches | hr-dashboard/app/page.tsx:38-42 | the empty search term matches every employee |
| Dashboard.ClearedKeepsAll | hr-dashboard/app/page.tsx:36-51 | with no search term and empty department and rating selections, every employee is kept, in order |
| Dashboard.DepartmentSelection | hr-dashboard/app/page.tsx:44-45 | a non-empty department selection alone keeps exactly the employees whose department is selected |
| Dashboard.RatingSelection | hr-dashboard/app/page.tsx:47 | a non-empty rating selection alone keeps exactly the employees whose rating is selected |
| Dashboard.PrependFiltered | hr-dashboard/app/page.tsx:63-65 | after a new employee is prepended, the filtered list is the old filtered list, headed by the new employee exactly when it matches |
| Dashboard.FilteredFromNote | hr-dashboard/app/page.tsx:146 | the "(filtered from N total)" note appears iff some employee fails the filter, and then N is the unfiltered count |
| Dashboard.TotalPages | hr-dashboard/app/page.tsx:54 | the page count is the least number of pages of `pageSize` items that holds all items (ceiling division); it is 0 exactly for no items |
| Dashboard.PagerShownIff | hr-dashboard/app/page.tsx:175 | the pager is rendered (more than one page) iff there are more items than fit on one page |
| Dashboard.PageWindow | hr-dashboard/app/page.tsx:55-56 | the visible slice is `xs[min(s, n) .. min(s + size, n)]` with `s = (page - 1) * size`; it holds at most `size` items; it is empty past the end, and non-empty exactly on pages 1 to the page count |
| Dashboard.ItemPage | hr-dashboard/app/page.tsx:54-56 | every item `k` is shown on page `k / size + 1`, which is within the page count, at offset `k % size` |
| Dashboard.HomePage.constructor | hr-dashboard/app/page.tsx:13-19 | initial state: no employees, loading, no filters, page 1, page size 6 |
| Dashboard.HomePage.ShowsPager | hr-dashboard/app/page.tsx:175 | the pager shows iff the filtered count exceeds the page size |
| Dashboard.HomePage.LoadEmployees | hr-dashboard/app/page.tsx:21-34 | a successful fetch replaces the employee list, a failed one keeps it; either way loading ends and filters and page are untouched |
| Dashboard.HomePage.SetSearchTerm | hr-dashboard/app/page.tsx:58-61 | only the search term changes; the page resets to 1 iff the term differs from the old one |
| Dashboard.HomePage.SetSelectedDepartments | hr-dashboard/app/page.tsx:58-61 | only the department selection changes, and the page resets to 1 |
| Dashboard.HomePage.SetSelectedRatings | hr-dashboard/app/page.tsx:58-61 | only the rating selection changes, and the page resets to 1 |
| Dashboard.HomePage.ToggleDepartment | hr-dashboard/components/search-filter.tsx:44-50 | the page's filters become the panel's toggled selection, and the page resets to 1 |
| Dashboard.HomePage.ToggleRating | hr-dashboard/components/search-filter.tsx:52-58 | the page's filters become the panel's toggled rating selection, and the page resets to 1 |
| Dashboard.HomePage.ClearFilters | hr-dashboard/components/search-filter.tsx:60-64 | all criteria are cleared, the filtered list is then the whole employee list, and the page resets to 1 |
| Dashboard.HomePage.HandlePageChange | hr-dashboard/app/page.tsx:67-71 | the current page becomes the requested page and nothing else changes |
| Dashboard.HomePage.HandlePageSizeChange | hr-dashboard/app/page.tsx:73-76 | the page size is set and the page resets to 1; list and filters are untouched |
| Dashboard.HomePage.HandleUserCreated | hr-dashboard/app/page.tsx:63-65 | the new employee becomes element 0, the old list follows unchanged, and the filtered list gains it at the head iff it matches |
| Pagination.ShowingBounds | hr-dashboard/components/pagination.tsx:24-25 | on a page within the page count, `1 <= startItem <= endItem <= total`, and the items shown are exactly positions `startItem` to `endItem` (1-based) |
| Pagination.Run | hr-dashboard/components/pagination.tsx:32-34 | the window is the consecutive pages `lo, lo + 1, ..., hi`, empty when `lo > hi` |
| Pagination.GetVisiblePages | hr-dashboard/components/pagination.tsx:27-51 | the loop-and-push construction yields exactly the strip described by the reference function `VisiblePages` (head, window from `max(2, p - 2)` to `min(T - 1, p + 2)`, tail) |
| Pagination.VisiblePagesEnds | hr-dashboard/components/pagination.tsx:36-48 | the strip starts with page 1, ends with the last page when there is more than one, and is just `[1]` for a single page |
| Pagination.VisiblePagesGaps | hr-dashboard/components/pagination.tsx:36-45 | a leading gap appears iff `p - 2 > 2`, a trailing gap iff `p + 2 < T - 1`, and there is a gap iff one of the two holds |
| Pagination.WindowBounds | hr-dashboard/components/pagination.tsx:32 | the window never reaches page 1 or page T, starts at 2 when `p - 2 <= 2`, ends at `T - 1` when `p + 2 >= T - 1`, and is non-empty once there are three pages |
| Pagination.VisiblePagesRange | hr-dashboard/components/pagination.tsx:27-51 | every page number shown lies in `[1, T]` and the current page is among them |
| Pagination.VisiblePagesSpacing | hr-dashboard/components/pagination.tsx:27-51 | neighbouring page numbers are consecutive; each gap sits between two page numbers and hides at least one page; so the numbers strictly increase |
| Pagination.NavigationInRange | hr-dashboard/components/pagination.tsx:84-133 | first/previous are disabled iff `p == 1` and next/last iff `p == T`; an enabled previous or next button leads to a page in `[1, T]` |
| SearchFilter.HasActiveFilters | hr-dashboard/components/search-filter.tsx:66 | filters are active iff the selection differs from the cleared one (a department, a rating or a non-empty search term) |
| SearchFilter.ToggleDepartment | hr-dashboard/components/search-filter.tsx:44-50 | a selected department is removed everywhere with the rest kept in order; an unselected one is appended; only its membership flips; duplicate-freedom is kept; search and ratings are untouched |
| SearchFilter.ToggleRating | hr-dashboard/components/search-filter.tsx:52-58 | the same remove-everywhere / append semantics for ratings |
| SearchFilter.ClearFilters | hr-dashboard/components/search-filter.tsx:60-64 | the departments and ratings become empty and the search term `""`; afterwards no filter is active |
| SearchFilter.BadgeCount | hr-dashboard/components/search-filter.tsx:89-91 | the badge shows iff filters are active, and then shows the department count plus the rating count (the search term is not counted) |
| SearchFilter.ToggleDepartmentBadge | hr-dashboard/components/search-filter.tsx:44-50 | on a duplicate-free selection a toggle moves the count by one; the badge vanishes only when removing the sole selection with no search term; two toggles restore the selected set |
| SearchFilter.ToggleRatingTwice | hr-dashboard/components/search-filter.tsx:52-58 | two toggles of a rating restore the selection exactly when the rating was absent or last, and otherwise move it to the end |
| Seqs.ToggleTwice | hr-dashboard/components/search-filter.tsx:44-50 | the same law for any duplicate-free list: absent comes back out; present moves to the end |
| Bookmarks.Load | hr-dashboard/lib/bookmark-context.tsx:16-23 | a saved value under `"hr-bookmarks"` is loaded as the list; with none the list stays `[]` |
| Bookmarks.Save | hr-dashboard/lib/bookmark-context.tsx:25-27 | the whole list is written under `"hr-bookmarks"` and every other key is left as it was |
| Bookmarks.SaveLoad | hr-dashboard/lib/bookmark-context.tsx:16-27 | loading after a save gives back the saved list, and saving the same list twice is the same as once |
| Bookmarks.BookmarkStore.constructor | hr-dashboard/lib/bookmark-context.tsx:16-27 | at mount the list is what storage held (or empty) and is written back |
| Bookmarks.BookmarkStore.AddBookmark | hr-dashboard/lib/bookmark-context.tsx:29-31 | the id is appended with no de-duplication (its count rises by one); it is then bookmarked; the new list is saved |
| Bookmarks.BookmarkStore.RemoveBookmark | hr-dashboard/lib/bookmark-context.tsx:33-35 | every occurrence of the id is removed, the other ids keep their order and count, an absent id changes nothing; the new list is saved |
| Bookmarks.Reload | hr-dashboard/lib/bookmark-context.tsx:16-27 | mounting a fresh store on what an earlier store saved reproduces its list and its storage |
| EmployeeCard.HandleBookmark | hr-dashboard/components/employee-card.tsx:21-29 | the card removes a bookmarked id and adds a missing one: the id's membership flips, no other id's changes, the list is saved, and no duplicate ever arises |
| EmployeeCard.HandleBookmarkTwice | hr-dashboard/components/employee-card.tsx:21-29 | two presses restore the id's membership, and restore the list itself when the id was not bookmarked |
| EmployeeCard.RatingColor | hr-dashboard/components/employee-card.tsx:36-40 | lime iff the rating is at least 4, yellow iff it is 3, red iff it is below 3 |
| EmployeeCard.DepartmentColor | hr-dashboard/components/employee-card.tsx:42-56 | a known department gets its own hue's class; any other string gets the grey default |
| EmployeeCard.KnownDepartments | hr-dashboard/components/employee-card.tsx:43-54 | the colour table knows exactly the ten departments the filter panel offers |
| EmployeeCard.DepartmentColorsDistinct | hr-dashboard/components/employee-card.tsx:43-54 | two different known departments get different classes |
| EmployeeCard.DefaultColorIff | hr-dashboard/components/employee-card.tsx:52-55 | the grey default appears iff the department is Legal (whose own class is grey) or unknown |
| BookmarksPage.BookmarkedIsSubseq | hr-dashboard/app/bookmarks/page.tsx:32 | the bookmarked view is an order-preserving subsequence of the employees, in employee order; an employee is in it iff its id is bookmarked; repeated ids add no copies |
| BookmarksPage.BookmarkOrderIrrelevant | hr-dashboard/app/bookmarks/page.tsx:32 | two bookmark lists that agree on which employees' ids they contain give the same view (order, repetition and unknown ids do not matter) |
| BookmarksPage.PageView | hr-dashboard/app/bookmarks/page.tsx:78-107 | the count is the view's length; the `"s"` suffix shows iff the count is not 1; bulk actions show iff some employee is bookmarked, the empty state iff none is, never both |
| DepartmentStats.DepartmentsListed | hr-dashboard/app/analytics/page.tsx:52-64 | the accumulator's keys are exactly the departments that have an employee, each once |
| DepartmentStats.StatsOfSnoc | hr-dashboard/app/analytics/page.tsx:55-60 | folding in one more employee adds one to its department's count, adds its rating to the total and appends it to the members; other departments are unchanged |
| DepartmentStats.ComputeDepartmentStats | hr-dashboard/app/analytics/page.tsx:52-64 | the loop's accumulator has exactly the listed departments as keys, in the order they first appear in the array being rendered, each holding its member count, its rating sum and its members in input order |
| DepartmentStats.CountsAddUp | hr-dashboard/app/analytics/page.tsx:52-64 | the department counts sum to the number of employees |
| DepartmentStats.MembersOfListed | hr-dashboard/app/analytics/page.tsx:52-64 | a listed department has at least one member, and all its members are employees of that department |
| DepartmentStats.Label | hr-dashboard/app/analytics/page.tsx:69 | a name longer than 8 characters becomes its first 8 characters plus `"..."`; a shorter one is kept |
| DepartmentStats.RoundTenths | hr-dashboard/app/analytics/page.tsx:72 | the average in tenths is within half a tenth of `total / count` (rounded half up) |
| DepartmentStats.RoundTenthsBounds | hr-dashboard/app/analytics/page.tsx:72 | an average of values between `lo` and `hi` rounds to between `lo` and `hi` |
| DepartmentStats.UnsortedRows | hr-dashboard/app/analytics/page.tsx:67-74 | one row per department, in the order the departments first appear in the array being rendered, with its label, full name, count, rounded average and members |
| DepartmentStats.ChartDataSorted | hr-dashboard/app/analytics/page.tsx:67-75 | the chart rows are a permutation of the unsorted rows with non-increasing averages, and rows with equal averages keep the order in which their departments first appear in the array being rendered |
| DepartmentStats.ChartRowsMembers | hr-dashboard/app/analytics/page.tsx:67-75 | the chart has one bar per department, and each bar's member list is non-empty and holds only that department's employees |
| DepartmentStats.MaxRating | hr-dashboard/app/analytics/page.tsx:498 | the maximum rating of a non-empty list bounds every rating and is attained |
| DepartmentStats.TopEmployee | hr-dashboard/app/analytics/page.tsx:498 | the top employee belongs to the list and has the maximum rating |
| DepartmentStats.SortedHeadIsTop | hr-dashboard/app/analytics/page.tsx:498 | the head of the stable descending sort is the first member with the maximum rating |
| DepartmentStats.TopOfDepartment | hr-dashboard/app/analytics/page.tsx:498 | the department's member array is sorted in place by rating (descending, stably) and its head is the top employee |
| DepartmentStats.TopPerDepartment | hr-dashboard/app/analytics/page.tsx:497-498 | at most six cards, the `i`-th pairing row `i` with its top employee |
| DepartmentStats.DepartmentOverview | hr-dashboard/app/analytics/page.tsx:497-498 | the overview shows the first `min(6, bars)` chart rows, each with an employee of that department who is the top employee of the row's members |
| DepartmentStats.SumRatingsPerm | hr-dashboard/app/analytics/page.tsx:59 | the rating total does not depend on the order the employees are folded in |
| DepartmentStats.MembersPerm | hr-dashboard/app/analytics/page.tsx:52-64 | reordering the employees reorders each department's members and keeps its count and rating total |
| DepartmentStats.DepartmentsPerm | hr-dashboard/app/analytics/page.tsx:52-64 | reordering the employees lists the same departments, as many of them, possibly in another order |
| DepartmentStats.ChartRowsAreStats | hr-dashboard/app/analytics/page.tsx:52-75 | each bar is a department of the employees, with exactly that department's members in array order, their count and their rounded average; every department has a bar |
| DepartmentStats.TopEmployeeFirst | hr-dashboard/app/analytics/page.tsx:498 | the top employee is the first one in list order with the highest rating: everyone before it is rated lower |
| Leaderboard.ByRankPreorder | hr-dashboard/app/analytics/page.tsx:79-82 | the ranking comparator (rating descending, then first name descending) is a total preorder, so the sort is well defined |
| Leaderboard.TiedIff | hr-dashboard/app/analytics/page.tsx:79-82 | two employees tie in the ranking iff they have the same rating and the same first name |
| Leaderboard.TopTen | hr-dashboard/app/analytics/page.tsx:83-89 | the first `min(10, n)` ranked employees, with rank `index + 1` and score `rating * 20` |
| Leaderboard.LeaderboardOrdered | hr-dashboard/app/analytics/page.tsx:78-89 | the board has `min(10, n)` rows of employees from the list; ratings do not increase down the board and equal ratings come in reverse name order; no employee left off outranks one on it |
| Leaderboard.LeaderboardStable | hr-dashboard/app/analytics/page.tsx:79-82 | employees that tie in the ranking keep their original relative order |
| Leaderboard.TopPerformers | hr-dashboard/app/analytics/page.tsx:78-89 | the page's employee array is sorted in place by rank and the board is the top ten of the sorted list |
| Leaderboard.RankColor | hr-dashboard/app/analytics/page.tsx:172-177 | gold iff rank 1, silver iff rank 2, bronze iff rank 3, lime iff any other rank |
| RatingStats.RatingDistribution | hr-dashboard/app/analytics/page.tsx:92-98 | the histogram has a key exactly for each rating that occurs, mapped to its positive count; reading any rating with `|| 0` gives its count |
| RatingStats.NoRatingNoCount | hr-dashboard/app/analytics/page.tsx:92-103 | a rating no employee has counts zero, which is what the `|| 0` default supplies |
| RatingStats.AllSlices | hr-dashboard/app/analytics/page.tsx:100-130 | five slices, the `i`-th built from bucket `i` of ratings 5, 4, 3, 2, 1 with its label, colour and count |
| RatingStats.AllSlicesCounts | hr-dashboard/app/analytics/page.tsx:100-130 | the slices list ratings 5, 4, 3, 2, 1 in that order, each valued at its number of employees |
| RatingStats.RatingChartOfEmployees | hr-dashboard/app/analytics/page.tsx:100-131 | the chart data keeps the slices in order, holds a rating's slice iff some employee has that rating, and holds no empty slice |
| RatingStats.SumValuesPositive | hr-dashboard/app/analytics/page.tsx:131 | dropping the empty slices does not change the total |
| RatingStats.RatingChartTotal | hr-dashboard/app/analytics/page.tsx:92-131 | with ratings in 1..5 the slice values add up to the number of employees, and no employees give empty chart data |
| RatingStats.CountsCoverAll | hr-dashboard/app/analytics/page.tsx:92-131 | with ratings in 1..5 the five bucket counts add up to the number of employees |
| RatingStats.HighPerformersSplit | hr-dashboard/app/analytics/page.tsx:136 | with ratings in 1..5 the high performers (rating at least 4) are the 4- and 5-star employees |
| RatingStats.SumRatingsBounds | hr-dashboard/app/analytics/page.tsx:134-135 | with ratings in 1..5 the rating sum lies between `n` and `5n` |
| RatingStats.TenthsTextParses | hr-dashboard/app/analytics/page.tsx:135 | the text is decimal digits, a dot and one digit, and read back gives the number of tenths |
| RatingStats.ComputeSummary | hr-dashboard/app/analytics/page.tsx:133-137 | head count; average `"0"` iff there are no employees, otherwise the rounded average written with one decimal, between 1.0 and 5.0; high performers are the 4- and 5-star counts; the bookmark card shows the bookmark list's length |
| Text.IncludesIff | hr-dashboard/app/page.tsx:38-42 | `includes` holds iff the term occurs at some position |
| Text.IncludesEmpty | hr-dashboard/app/page.tsx:38-42 | every string includes the empty string |
| Text.TrimEmptyIff | hr-dashboard/components/create-user-modal.tsx:56-70 | a trimmed string is empty iff the string is all white space |
| Text.NatToStringParses | hr-dashboard/app/analytics/page.tsx:135 | the rendering is decimal digits, reads back as the number, and starts with "0" only for zero |
| Text.LexLeqTotal | hr-dashboard/app/analytics/page.tsx:81 | the name order compares any two names |
| Text.LexLeqTransitive | hr-dashboard/app/analytics/page.tsx:81 | the name order is transitive |
| Text.LexLeqAntisymmetric | hr-dashboard/app/analytics/page.tsx:81 | names that compare equal both ways are equal |
| Sorting.InsertionSortSorted | hr-dashboard/app/analytics/page.tsx:75-82 | the sort yields an ordered permutation of its input for any total preorder |
| Sorting.InsertionSortStable | hr-dashboard/app/analytics/page.tsx:75-82 | the sort is stable: elements tied with any given element keep their relative order |
| Sorting.FilterSorted | hr-dashboard/app/analytics/page.tsx:52-64 | picking the members of one department out of a sorted array keeps them sorted |
| Sorting.InsertionSortOfSorted | hr-dashboard/app/analytics/page.tsx:79-82 | sorting an array that is already in order leaves it unchanged |
| Sorting.SortInPlace | hr-dashboard/app/analytics/page.tsx:79-82 | sorting an array in place leaves it holding the stable sort of its old contents |
| AnalyticsPage.Ranked | hr-dashboard/app/analytics/page.tsx:79-82 | the array after one render is a sorted-by-rank permutation of the array before it |
| AnalyticsPage.RankedTop | hr-dashboard/app/analytics/page.tsx:498 | in a list sorted by rank, the top employee outranks everyone: no higher rating, and no later-sorting first name at the same rating |
| AnalyticsPage.ValidRatingsPerm | hr-dashboard/app/analytics/page.tsx:79-82 | reordering the employees keeps every rating in 1..5 |
| AnalyticsPage.CountRatingPerm | hr-dashboard/app/analytics/page.tsx:92-98 | reordering the employees keeps every rating's count |
| AnalyticsPage.SummaryPerm | hr-dashboard/app/analytics/page.tsx:133-137 | the summary cards of the reordered array equal those of the array before the sort |
| AnalyticsPage.BoardAfterRanking | hr-dashboard/app/analytics/page.tsx:78-89 | the leaderboard of a later render equals the first render's |
| AnalyticsPage.ChartAfterRanking | hr-dashboard/app/analytics/page.tsx:52-75 | after the reordering the chart has as many bars, each for a department of the employees with its count and rounded average, the members in leaderboard order, and every department has a bar; only ties between equal averages can reorder |
| AnalyticsPage.OverviewOnLoad | hr-dashboard/app/analytics/page.tsx:497-498 | on the first render each card shows the first member of its department, in fetch order, with the department's highest rating |
| AnalyticsPage.OverviewAfterRanking | hr-dashboard/app/analytics/page.tsx:497-498 | on later renders each card shows an employee of its department who outranks all of it: the highest rating, and among those the first name that sorts last |
| AnalyticsPage.CardOfMembers | hr-dashboard/app/analytics/page.tsx:497-498 | a card's employee is the top employee of its department's members in the array being rendered |
| AnalyticsPage.TopOutranksDepartment | hr-dashboard/app/analytics/page.tsx:498 | over a rank-sorted reordering, a department's top member belongs to it and outranks all its employees |
| AnalyticsPage.Render | hr-dashboard/app/analytics/page.tsx:51-137 | chart and overview come from the array as it stands, then the array is sorted in place and the board is its top ten; the histogram and summary match the array before the sort |
| AnalyticsPage.RenderAfterLoad | hr-dashboard/app/analytics/page.tsx:21-49 | the first render shows the fetched order's chart and overview, the timer's render shows the leaderboard order's; board, histogram and summary are the same in both |
| AnalyticsPage.DistributionPerm | hr-dashboard/app/analytics/page.tsx:92-98 | the rating histograms of two orderings of the same employees are the same map |
| CreateUser.FormData.With | hr-dashboard/components/create-user-modal.tsx:138 | setting a field gives it the new value and leaves every other field as it was |
| CreateUser.EmptyFormIsEmpty | hr-dashboard/components/create-user-modal.tsx:24-38 | every field of the initial form is empty |
| CreateUser.EmailLikeHasAtAndDot | hr-dashboard/components/create-user-modal.tsx:60 | an address that passes the pattern has an `@` followed later by a `.` |
| CreateUser.EmailLikeInContext | hr-dashboard/components/create-user-modal.tsx:60 | the pattern is unanchored: text around a passing address does not make it fail |
| CreateUser.BlankIsRequired | hr-dashboard/components/create-user-modal.tsx:56-70 | a required text field (first name, last name, email, phone, age, title) that is blank after trimming gets its "required" message |
| CreateUser.OptionalNeverFails | hr-dashboard/components/create-user-modal.tsx:53-74 | bio and address fields never get an error |
| CreateUser.ErrorsOnlyOnRequired | hr-dashboard/components/create-user-modal.tsx:53-74 | only the seven checked fields can carry an error |
| CreateUser.NoErrorsIff | hr-dashboard/components/create-user-modal.tsx:53-74 | no field has an error iff the form is acceptable: the six text fields are non-blank, the email passes the pattern, the age parses to a number in 18..100, and a department is chosen |
| CreateUser.EmptyFormErrors | hr-dashboard/components/create-user-modal.tsx:53-74 | submitting the empty form reports the "required" message on every checked field and nothing else |
| CreateUser.ValidateForm | hr-dashboard/components/create-user-modal.tsx:53-74 | the error map holds exactly the failing fields, each with its one message (all failures reported together), and the form is valid iff the map is empty |
| CreateUser.HandleInputChange | hr-dashboard/components/create-user-modal.tsx:137-142 | only the named field changes; its shown error is cleared while the key stays; other errors are untouched; no shown error means no change to the errors |
| CreateUser.InputChangeShowsNoNewError | hr-dashboard/components/create-user-modal.tsx:137-142 | an input change never makes an error appear: an error shown afterwards was shown before, on another field |
| CreateUser.RandomRating | hr-dashboard/components/create-user-modal.tsx:106 | the random rating lies in 1..5 |
| CreateUser.NewUser | hr-dashboard/components/create-user-modal.tsx:86-112 | the new employee copies the form's fields and takes company "TechCorp Inc." and the placeholder image; its rating is in 1..5; its bio is the typed bio, or the department template when none was typed; it has no projects or feedback |
| CreateUser.HandleSubmit | hr-dashboard/components/create-user-modal.tsx:76-135 | an employee is created iff the form is acceptable; then the dialog closes with an empty form and no errors; otherwise the dialog and form stay and exactly the failing fields show errors |

## Left out

- Fetching the employee list (`lib/api.ts`) and its seeded floating-point ratings. The fetch is the parameter of `Dashboard.HomePage.LoadEmployees`. Ratings in 1..5 are the predicate `RatingStats.ValidRatings`.
- The 1500 ms delay of the dialog's simulated request, its `isLoading` flag, and the employee card's 2 s promote timer, because they are timing only.
- The leaderboard's animated bar width (`animatedScore`), because it is presentation only. The re-render that the 500 ms timer triggers is modelled (`AnalyticsPage.RenderAfterLoad`), because the in-place sort makes that render group the employees in leaderboard order. Renders caused by other state changes, such as a bookmark change, see the same leaderboard order; they are not listed separately.
- `JSON.parse` and `JSON.stringify` of the bookmark list. The storage map holds the list itself. A malformed stored value, which throws in the browser, is not modelled.
- The transient write of `[]` at mount that precedes the loaded list's write, because only the final stored value is modelled.
- `window.scrollTo`, all JSX, CSS and chart configuration, and the `console.log` bulk actions, because they are presentation only.
- The pie chart's percentage text and the float quirks of `toFixed(1)`. Averages are exact rationals rounded half up to tenths. For no employees the page computes `0 / 0`, and the model does not represent that `NaN`.
- `localeCompare`'s collation. The model compares names by code point, which disagrees with collation on mixed-case ASCII names ("DeShawn" sorts before "Dean" by code point, after it by collation), so tie-breaking by first name can differ from a browser's. Collation tables are host data outside the code.
- UTF-16 surrogate pairs. A JavaScript string is a sequence of UTF-16 code units, but the model's `char` is a whole code point. A character outside the Basic Multilingual Plane (an emoji, say) is one `char` in the model and two code units in JavaScript. In the first-name order of `Text.LexLeq` (the tie-break of `Leaderboard.RanksBefore`), such a character sorts after U+E000–U+FFFF in the model, while JavaScript's code-unit order puts it before them. Lengths such as the 8-character department label cut (`DepartmentStats.Label`) count it once rather than twice.
- `toLowerCase` beyond ASCII. The model maps only `A`–`Z`, so a non-ASCII capital in a name or search term does not match its lower-case form.
- The department color lookup on the analytics overview cards (a presentation palette by index), because it is styling only.
- Inherited object keys such as `"constructor"`. The model's lookups for `getDepartmentColor` and the accumulators see only the keys the code puts in.
- RatingStats.ComputeSummary: requires every rating to lie in 1..5. This holds for every employee the application produces (`lib/api.ts:9-13`, `components/create-user-modal.tsx:106`), and the high-performer and average statements rely on it.
- Dashboard.HomePage.HandlePageChange: requires a page of at least 1. Every caller in the pager passes one (see `Pagination.NavigationInRange`).
- CreateUser.HandleInputChange: takes a `Field` of the form rather than an arbitrary string key. The dialog only ever passes its own field names.
- Employee profiles, login, authentication, navigation and layout, because they are outside the modelled core.

The filter panel's department toggle applied twice restores the selected set of departments. It restores the exact list only when the department was absent or already last, otherwise it moves the department to the end; `SearchFilter.ToggleRatingTwice` and `Seqs.ToggleTwice` state this precisely. Adding a bookmark twice keeps both copies, because the store appends without checking.
