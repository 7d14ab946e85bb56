/**
 * The employee dashboard of `app/page.tsx`: the filter predicate, the page
 * count and page window, and the page state with its reset rules.
 */
module Dashboard {
  import opened Wrappers
  import opened Arith
  import opened Seqs
  import opened Text
  import opened Types
  import opened SearchFilter

  /** `t` occurs somewhere in `s`. */
  ghost predicate Occurs(s: string, t: string)
  {
    exists i :: OccursAt(s, t, i)
  }

  /** Case-insensitive search over first name, last name, email and department. */
  predicate MatchesSearch(e: Employee, term: string)
  {
    var t := Lower(term);
    Includes(Lower(e.firstName), t) || Includes(Lower(e.lastName), t)
    || Includes(Lower(e.email), t) || Includes(Lower(e.Department()), t)
  }

  /** An empty selection admits every department. */
  predicate MatchesDepartment(e: Employee, departments: seq<string>)
  {
    |departments| == 0 || e.Department() in departments
  }

  /** An empty selection admits every rating. */
  predicate MatchesRating(e: Employee, ratings: seq<int>)
  {
    |ratings| == 0 || e.rating in ratings
  }

  /** The predicate of `filteredEmployees`: all three tests pass. */
  predicate Matches(f: Filters, e: Employee)
  {
    MatchesSearch(e, f.searchTerm) && MatchesDepartment(e, f.departments) && MatchesRating(e, f.ratings)
  }

  function Keeps(f: Filters): Employee -> bool
  {
    e => Matches(f, e)
  }

  /** `filteredEmployees`. */
  function FilterEmployees(employees: seq<Employee>, f: Filters): (r: seq<Employee>)
    ensures |r| <= |employees|
  {
    Filter(employees, Keeps(f))
  }

  /**
   * The filtered list is an order-preserving subsequence of the employees,
   * holds exactly the matching ones, and filtering it again changes nothing.
   */
  lemma FilteredIsSubseq(employees: seq<Employee>, f: Filters)
    ensures IsSubseq(FilterEmployees(employees, f), employees)
    ensures forall e :: e in FilterEmployees(employees, f) ==> e in employees && Matches(f, e)
    ensures forall e :: e in employees && Matches(f, e) ==> e in FilterEmployees(employees, f)
    ensures FilterEmployees(FilterEmployees(employees, f), f) == FilterEmployees(employees, f)
  {
    FilterIsSubseq(employees, Keeps(f));
    FilterMembers(employees, Keeps(f));
    FilterIdempotent(employees, Keeps(f));
  }

  /**
   * The search matches exactly when the lower-cased term occurs in one of the
   * four lower-cased fields.
   */
  lemma MatchesSearchIff(e: Employee, term: string)
    ensures MatchesSearch(e, term) <==>
      Occurs(Lower(e.firstName), Lower(term)) || Occurs(Lower(e.lastName), Lower(term))
      || Occurs(Lower(e.email), Lower(term)) || Occurs(Lower(e.Department()), Lower(term))
  {
    IncludesIff(Lower(e.firstName), Lower(term));
    IncludesIff(Lower(e.lastName), Lower(term));
    IncludesIff(Lower(e.email), Lower(term));
    IncludesIff(Lower(e.Department()), Lower(term));
  }

  /** The empty search term matches every employee. */
  lemma EmptySearchMatches(e: Employee)
    ensures MatchesSearch(e, "")
  {
    assert Lower("") == "";
    IncludesEmpty(Lower(e.firstName));
  }

  /** With no term and no selections, every employee is shown. */
  lemma ClearedKeepsAll(employees: seq<Employee>)
    ensures FilterEmployees(employees, Cleared) == employees
  {
    forall e | e in employees ensures Keeps(Cleared)(e) {
      EmptySearchMatches(e);
    }
    FilterKeepsAll(employees, Keeps(Cleared));
  }

  function InDepartments(departments: seq<string>): Employee -> bool
  {
    (e: Employee) => e.Department() in departments
  }

  function HasRatingIn(ratings: seq<int>): Employee -> bool
  {
    (e: Employee) => e.rating in ratings
  }

  /** A non-empty department selection alone keeps exactly its departments' employees. */
  lemma DepartmentSelection(employees: seq<Employee>, departments: seq<string>)
    requires |departments| > 0
    ensures FilterEmployees(employees, Filters("", departments, [])) == Filter(employees, InDepartments(departments))
  {
    forall e | e in employees
      ensures Keeps(Filters("", departments, []))(e) == InDepartments(departments)(e)
    {
      EmptySearchMatches(e);
    }
    FilterAgree(employees, Keeps(Filters("", departments, [])), InDepartments(departments));
  }

  /** A non-empty rating selection alone keeps exactly the employees with those ratings. */
  lemma RatingSelection(employees: seq<Employee>, ratings: seq<int>)
    requires |ratings| > 0
    ensures FilterEmployees(employees, Filters("", [], ratings)) == Filter(employees, HasRatingIn(ratings))
  {
    forall e | e in employees
      ensures Keeps(Filters("", [], ratings))(e) == HasRatingIn(ratings)(e)
    {
      EmptySearchMatches(e);
    }
    FilterAgree(employees, Keeps(Filters("", [], ratings)), HasRatingIn(ratings));
  }

  /** A prepended employee heads the filtered list exactly when it matches. */
  lemma PrependFiltered(u: Employee, employees: seq<Employee>, f: Filters)
    ensures FilterEmployees([u] + employees, f) ==
      (if Matches(f, u) then [u] else []) + FilterEmployees(employees, f)
  {
    FilterAppend([u], employees, Keeps(f));
  }

  /**
   * The "(filtered from N total)" note: present exactly when some employee
   * fails the filter, and then showing the unfiltered count.
   */
  function FilteredFromNote(employees: seq<Employee>, f: Filters): (r: Option<nat>)
    ensures r.Some? <==> exists e :: e in employees && !Matches(f, e)
    ensures r.Some? ==> r.value == |employees|
  {
    FilterDropsIff(employees, Keeps(f));
    if |FilterEmployees(employees, f)| != |employees| then Some(|employees|) else None
  }

  /** `Math.ceil(n / pageSize)`: the least page count whose pages hold `n` items. */
  function TotalPages(n: nat, pageSize: int): (r: nat)
    requires pageSize > 0
    ensures (r - 1) * pageSize < n <= r * pageSize
    ensures r == 0 <==> n == 0
  {
    if n == 0 then 0 else (n - 1) / pageSize + 1
  }

  /** The pager is rendered only when the results need more than one page. */
  lemma PagerShownIff(n: nat, pageSize: int)
    requires pageSize > 0
    ensures TotalPages(n, pageSize) > 1 <==> n > pageSize
  {
    var t := TotalPages(n, pageSize);
    if t > 1 {
      assert pageSize <= (t - 1) * pageSize;
    } else if t == 1 {
      assert n <= pageSize;
    }
  }

  /** `paginatedEmployees`: `slice(startIndex, startIndex + pageSize)`. */
  function PageSlice<T>(xs: seq<T>, page: int, pageSize: int): (r: seq<T>)
    ensures |r| <= |xs|
  {
    var start := (page - 1) * pageSize;
    Slice(xs, start, start + pageSize)
  }

  function Min(a: int, b: int): int
  {
    if a <= b then a else b
  }

  /** A page's first index lies inside the list exactly on the pages up to the page count. */
  lemma {:induction false} PageStartInside(n: nat, page: int, pageSize: int)
    requires page >= 1 && pageSize > 0
    ensures (page - 1) * pageSize >= 0
    ensures (page - 1) * pageSize < n <==> page <= TotalPages(n, pageSize)
  {
    MulMono(pageSize, 0, page - 1);
    var t := TotalPages(n, pageSize);
    if page <= t {
      MulMono(pageSize, page - 1, t - 1);
    } else {
      MulMono(pageSize, t, page - 1);
    }
  }

  /**
   * For a page of at least 1, the window is the stretch from `startIndex` to
   * `startIndex + pageSize`, cut at the end of the list; it is non-empty
   * exactly on the pages up to the page count.
   */
  lemma PageWindow<T>(xs: seq<T>, page: int, pageSize: int)
    requires page >= 1 && pageSize > 0
    ensures var start := (page - 1) * pageSize;
      PageSlice(xs, page, pageSize) == xs[Min(start, |xs|)..Min(start + pageSize, |xs|)]
    ensures |PageSlice(xs, page, pageSize)| <= pageSize
    ensures (page - 1) * pageSize >= |xs| ==> PageSlice(xs, page, pageSize) == []
    ensures PageSlice(xs, page, pageSize) != [] <==> page <= TotalPages(|xs|, pageSize)
  {
    PageStartInside(|xs|, page, pageSize);
  }

  /** The item at offset `r` of page `q + 1`. */
  lemma ItemOnPage<T>(xs: seq<T>, pageSize: int, q: int, r: int)
    requires pageSize > 0 && q >= 0 && 0 <= r < pageSize && q * pageSize + r < |xs|
    ensures q + 1 <= TotalPages(|xs|, pageSize)
    ensures |PageSlice(xs, q + 1, pageSize)| > r
    ensures PageSlice(xs, q + 1, pageSize)[r] == xs[q * pageSize + r]
  {
    assert (q + 1 - 1) * pageSize == q * pageSize;
    PageWindow(xs, q + 1, pageSize);
    PageStartInside(|xs|, q + 1, pageSize);
  }

  /** Every item of the list lies on a page no later than the page count. */
  lemma ItemPage<T>(xs: seq<T>, pageSize: int, k: int)
    requires pageSize > 0 && 0 <= k < |xs|
    ensures var page := k / pageSize + 1;
      page <= TotalPages(|xs|, pageSize) &&
      |PageSlice(xs, page, pageSize)| > k % pageSize &&
      PageSlice(xs, page, pageSize)[k % pageSize] == xs[k]
  {
    DivMod(k, pageSize);
    ItemOnPage(xs, pageSize, k / pageSize, k % pageSize);
  }

  /** The state of the dashboard page. */
  class HomePage {
    var employees: seq<Employee>
    var loading: bool
    var searchTerm: string
    var selectedDepartments: seq<string>
    var selectedRatings: seq<int>
    var currentPage: int
    var pageSize: int

    ghost predicate Valid()
      reads this
    {
      currentPage >= 1 && pageSize > 0
    }

    /** The initial render: loading, nothing selected, page 1 of size 6. */
    constructor()
      ensures Valid()
      ensures employees == [] && loading
      ensures searchTerm == "" && selectedDepartments == [] && selectedRatings == []
      ensures currentPage == 1 && pageSize == 6
    {
      employees := [];
      loading := true;
      searchTerm := "";
      selectedDepartments := [];
      selectedRatings := [];
      currentPage := 1;
      pageSize := 6;
    }

    function CurrentFilters(): Filters
      reads this
    {
      Filters(searchTerm, selectedDepartments, selectedRatings)
    }

    function Filtered(): seq<Employee>
      reads this
    {
      FilterEmployees(employees, CurrentFilters())
    }

    function PageCount(): nat
      reads this
      requires Valid()
    {
      TotalPages(|Filtered()|, pageSize)
    }

    function Visible(): seq<Employee>
      reads this
    {
      PageSlice(Filtered(), currentPage, pageSize)
    }

    /** The pager is rendered below a non-empty list of more than one page. */
    predicate ShowsPager()
      reads this
      requires Valid()
      ensures ShowsPager() <==> |Filtered()| > pageSize
    {
      PagerShownIff(|Filtered()|, pageSize);
      |Filtered()| > 0 && PageCount() > 1
    }

    /**
     * The initial fetch: its employees on success, the empty list kept on
     * failure; loading ends either way.
     */
    method LoadEmployees(data: Option<seq<Employee>>)
      requires Valid()
      modifies this
      ensures Valid() && !loading
      ensures employees == if data.Some? then data.value else old(employees)
      ensures CurrentFilters() == old(CurrentFilters())
      ensures currentPage == old(currentPage) && pageSize == old(pageSize)
    {
      if data.Some? {
        employees := data.value;
      }
      loading := false;
    }

    /**
     * A new search term; the page goes back to 1 when the term differs from
     * the current one, since the reset effect compares strings by value.
     */
    method SetSearchTerm(term: string)
      requires Valid()
      modifies this
      ensures Valid()
      ensures CurrentFilters() == old(CurrentFilters()).(searchTerm := term)
      ensures currentPage == if term != old(searchTerm) then 1 else old(currentPage)
      ensures employees == old(employees) && loading == old(loading) && pageSize == old(pageSize)
    {
      if term != searchTerm {
        currentPage := 1;
      }
      searchTerm := term;
    }

    /** A new department selection; it is always a fresh array, so the page resets. */
    method SetSelectedDepartments(departments: seq<string>)
      requires Valid()
      modifies this
      ensures Valid()
      ensures CurrentFilters() == old(CurrentFilters()).(departments := departments)
      ensures currentPage == 1
      ensures employees == old(employees) && loading == old(loading) && pageSize == old(pageSize)
    {
      selectedDepartments := departments;
      currentPage := 1;
    }

    /** A new rating selection; the page resets. */
    method SetSelectedRatings(ratings: seq<int>)
      requires Valid()
      modifies this
      ensures Valid()
      ensures CurrentFilters() == old(CurrentFilters()).(ratings := ratings)
      ensures currentPage == 1
      ensures employees == old(employees) && loading == old(loading) && pageSize == old(pageSize)
    {
      selectedRatings := ratings;
      currentPage := 1;
    }

    /** A department badge clicked in the filter popover. */
    method ToggleDepartment(department: string)
      requires Valid()
      modifies this
      ensures Valid()
      ensures CurrentFilters() == SearchFilter.ToggleDepartment(old(CurrentFilters()), department)
      ensures currentPage == 1
      ensures employees == old(employees) && loading == old(loading) && pageSize == old(pageSize)
    {
      SetSelectedDepartments(SearchFilter.ToggleDepartment(CurrentFilters(), department).departments);
    }

    /** A rating badge clicked in the filter popover. */
    method ToggleRating(rating: int)
      requires Valid()
      modifies this
      ensures Valid()
      ensures CurrentFilters() == SearchFilter.ToggleRating(old(CurrentFilters()), rating)
      ensures currentPage == 1
      ensures employees == old(employees) && loading == old(loading) && pageSize == old(pageSize)
    {
      SetSelectedRatings(SearchFilter.ToggleRating(CurrentFilters(), rating).ratings);
    }

    /** "Clear all": every employee is shown again, from page 1. */
    method ClearFilters()
      requires Valid()
      modifies this
      ensures Valid()
      ensures CurrentFilters() == SearchFilter.ClearFilters(old(CurrentFilters()))
      ensures Filtered() == employees
      ensures currentPage == 1
      ensures employees == old(employees) && loading == old(loading) && pageSize == old(pageSize)
    {
      SetSelectedDepartments([]);
      SetSelectedRatings([]);
      SetSearchTerm("");
      ClearedKeepsAll(employees);
    }

    /** A page button clicked; the buttons only offer pages from 1 on. */
    method HandlePageChange(page: int)
      requires Valid() && page >= 1
      modifies this
      ensures Valid()
      ensures currentPage == page
      ensures employees == old(employees) && loading == old(loading)
      ensures CurrentFilters() == old(CurrentFilters()) && pageSize == old(pageSize)
    {
      currentPage := page;
    }

    /** A page size chosen; the page resets to 1. */
    method HandlePageSizeChange(size: int)
      requires Valid() && size > 0
      modifies this
      ensures Valid()
      ensures pageSize == size && currentPage == 1
      ensures employees == old(employees) && loading == old(loading)
      ensures CurrentFilters() == old(CurrentFilters())
    {
      pageSize := size;
      currentPage := 1;
    }

    /**
     * A created employee is prepended: it becomes element 0, the old list
     * follows unchanged, and it heads the filtered list when it matches.
     */
    method HandleUserCreated(newUser: Employee)
      requires Valid()
      modifies this
      ensures Valid()
      ensures employees == [newUser] + old(employees)
      ensures employees[0] == newUser && employees[1..] == old(employees)
      ensures Filtered() ==
        (if Matches(CurrentFilters(), newUser) then [newUser] else []) + old(Filtered())
      ensures loading == old(loading) && CurrentFilters() == old(CurrentFilters())
      ensures currentPage == old(currentPage) && pageSize == old(pageSize)
    {
      PrependFiltered(newUser, employees, CurrentFilters());
      employees := [newUser] + employees;
    }
  }
}
