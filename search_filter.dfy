/**
 * The search box and filter popover of `components/search-filter.tsx`: the
 * three pieces of filter state the home page owns, and the handlers that
 * compute their next values.
 */
module SearchFilter {
  import opened Wrappers
  import opened Seqs

  /** The search term, the selected departments and the selected ratings. */
  datatype Filters = Filters(searchTerm: string, departments: seq<string>, ratings: seq<int>)

  /** The departments offered as filter badges. */
  const Departments: seq<string> :=
    ["Engineering", "Marketing", "Sales", "HR", "Finance", "Operations", "Design", "Product", "Legal", "Support"]

  /** The ratings offered as filter badges. */
  const Ratings: seq<int> := [1, 2, 3, 4, 5]

  /** The state `clearFilters` leaves behind. */
  const Cleared: Filters := Filters("", [], [])

  /**
   * `hasActiveFilters`: a department or a rating is selected, or the search
   * term is non-empty (an empty string is falsy).
   */
  predicate HasActiveFilters(f: Filters)
    ensures HasActiveFilters(f) <==> f != Cleared
  {
    |f.departments| > 0 || |f.ratings| > 0 || f.searchTerm != ""
  }

  /**
   * `handleDepartmentToggle`: a selected department is removed (every
   * occurrence, the others keeping their order), an unselected one is appended.
   */
  function ToggleDepartment(f: Filters, department: string): (r: Filters)
    ensures r.searchTerm == f.searchTerm && r.ratings == f.ratings
    ensures department in r.departments <==> department !in f.departments
    ensures forall d :: d != department ==> (d in r.departments <==> d in f.departments)
    ensures department in f.departments ==>
      r.departments == RemoveAll(f.departments, department) && IsSubseq(r.departments, f.departments)
    ensures department !in f.departments ==> r.departments == f.departments + [department]
    ensures NoDup(f.departments) ==> NoDup(r.departments)
  {
    ToggleMembership(f.departments, department);
    ToggleShape(f.departments, department);
    ToggleNoDup(f.departments, department);
    f.(departments := Toggle(f.departments, department))
  }

  /** `handleRatingToggle`: the same remove-or-append on the rating selection. */
  function ToggleRating(f: Filters, rating: int): (r: Filters)
    ensures r.searchTerm == f.searchTerm && r.departments == f.departments
    ensures rating in r.ratings <==> rating !in f.ratings
    ensures forall x :: x != rating ==> (x in r.ratings <==> x in f.ratings)
    ensures rating in f.ratings ==>
      r.ratings == RemoveAll(f.ratings, rating) && IsSubseq(r.ratings, f.ratings)
    ensures rating !in f.ratings ==> r.ratings == f.ratings + [rating]
    ensures NoDup(f.ratings) ==> NoDup(r.ratings)
  {
    ToggleMembership(f.ratings, rating);
    ToggleShape(f.ratings, rating);
    ToggleNoDup(f.ratings, rating);
    f.(ratings := Toggle(f.ratings, rating))
  }

  /** `clearFilters`: nothing is active afterwards, whatever was before. */
  function ClearFilters(f: Filters): (r: Filters)
    ensures !HasActiveFilters(r)
    ensures r.departments == [] && r.ratings == [] && r.searchTerm == ""
  {
    Cleared
  }

  /**
   * The filter-button badge: rendered only while a filter is active, and
   * showing the number of selected departments and ratings. The search term
   * makes it appear but is not counted, so it can show 0.
   */
  function BadgeCount(f: Filters): (r: Option<nat>)
    ensures r.Some? <==> HasActiveFilters(f)
    ensures r.Some? ==> r.value == |f.departments| + |f.ratings|
  {
    if HasActiveFilters(f) then Some(|f.departments| + |f.ratings|) else None
  }

  /**
   * On a duplicate-free selection, each department toggle moves the badge
   * count by exactly one; the badge disappears only when the last selection
   * is removed with no search term, and toggling twice restores the selected set.
   */
  lemma {:induction false} ToggleDepartmentBadge(f: Filters, department: string)
    requires NoDup(f.departments)
    ensures var r := ToggleDepartment(f, department);
      |r.departments| + |r.ratings| ==
        if department in f.departments then |f.departments| + |f.ratings| - 1
        else |f.departments| + |f.ratings| + 1
    ensures var r := ToggleDepartment(f, department);
      BadgeCount(r) == None <==> f == Filters("", [department], [])
    ensures var r2 := ToggleDepartment(ToggleDepartment(f, department), department);
      forall d :: d in r2.departments <==> d in f.departments
  {
    if department in f.departments {
      RemoveOnce(f.departments, department);
      if |f.departments| == 1 {
        assert f.departments == [department];
      }
    }
    var r := ToggleDepartment(f, department);
    var r2 := ToggleDepartment(r, department);
    assert department in r2.departments <==> department in f.departments;
  }

  /**
   * Toggling the same rating twice on a duplicate-free selection restores it
   * when the rating was absent or last; otherwise the rating moves to the end.
   */
  lemma ToggleRatingTwice(f: Filters, rating: int)
    requires NoDup(f.ratings)
    ensures var r2 := ToggleRating(ToggleRating(f, rating), rating);
      r2.searchTerm == f.searchTerm && r2.departments == f.departments &&
      (rating in f.ratings ==> r2.ratings == RemoveAll(f.ratings, rating) + [rating]) &&
      (r2 == f <==> rating !in f.ratings || f.ratings[|f.ratings| - 1] == rating)
  {
    ToggleTwice(f.ratings, rating);
  }
}
