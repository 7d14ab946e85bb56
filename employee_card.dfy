/** The employee card of `components/employee-card.tsx`: the bookmark button and the colour lookups. */
module EmployeeCard {
  import opened Seqs
  import opened Bookmarks
  import SearchFilter

  /**
   * The bookmark button: removes the id when it is bookmarked, adds it
   * otherwise. Adding is only reached for an absent id, so the button never
   * creates a duplicate.
   */
  method HandleBookmark(store: BookmarkStore, id: int)
    requires store.Valid()
    modifies store
    ensures store.Valid()
    ensures store.bookmarks == Toggle(old(store.bookmarks), id)
    ensures store.storage == Save(old(store.storage), store.bookmarks)
    ensures store.IsBookmarked(id) == !old(store.IsBookmarked(id))
    ensures forall other :: other != id ==> (store.IsBookmarked(other) == old(store.IsBookmarked(other)))
    ensures NoDup(old(store.bookmarks)) ==> NoDup(store.bookmarks)
  {
    ToggleMembership(store.bookmarks, id);
    ToggleNoDup(store.bookmarks, id);
    if store.IsBookmarked(id) {
      store.RemoveBookmark(id);
    } else {
      store.AddBookmark(id);
    }
  }

  /**
   * Two presses restore the id's membership; on a duplicate-free list
   * without the id they restore the list itself.
   */
  method HandleBookmarkTwice(store: BookmarkStore, id: int)
    requires store.Valid() && NoDup(store.bookmarks)
    modifies store
    ensures store.Valid() && NoDup(store.bookmarks)
    ensures store.IsBookmarked(id) == old(store.IsBookmarked(id))
    ensures !old(store.IsBookmarked(id)) ==> store.bookmarks == old(store.bookmarks)
  {
    ToggleTwice(store.bookmarks, id);
    HandleBookmark(store, id);
    HandleBookmark(store, id);
  }

  /** `getRatingColor`: lime from 4 up, yellow for 3, red below. */
  function RatingColor(rating: int): (r: string)
    ensures r == "text-lime-400" <==> rating >= 4
    ensures r == "text-yellow-400" <==> rating == 3
    ensures r == "text-red-400" <==> rating < 3
  {
    if rating >= 4 then "text-lime-400"
    else if rating >= 3 then "text-yellow-400"
    else "text-red-400"
  }

  /** The badge class for a colour family: dark background, that colour's text and border. */
  function BadgeClass(hue: string): (r: string)
    ensures |r| == 43 + 2 * |hue|
    ensures r[17..17 + |hue|] == hue
  {
    "bg-gray-900 text-" + hue + "-400 border border-" + hue + "-400/30"
  }

  /** Different colour families give different badge classes. */
  lemma BadgeClassInjective(h1: string, h2: string)
    requires BadgeClass(h1) == BadgeClass(h2)
    ensures h1 == h2
  {
    assert |h1| == |h2|;
  }

  /** The badge class used for any department without its own colour. */
  const DefaultDepartmentColor: string := BadgeClass("gray")

  /** The colour family of each known department. */
  const DepartmentHues: map<string, string> := map[
    "Engineering" := "lime",
    "Marketing" := "pink",
    "Sales" := "emerald",
    "HR" := "purple",
    "Finance" := "yellow",
    "Operations" := "blue",
    "Design" := "red",
    "Product" := "orange",
    "Legal" := "gray",
    "Support" := "teal"
  ]

  /** `getDepartmentColor`: the department's class, or the grey default. */
  function DepartmentColor(department: string): (r: string)
    ensures department in DepartmentHues ==> r == BadgeClass(DepartmentHues[department])
    ensures department !in DepartmentHues ==> r == DefaultDepartmentColor
  {
    if department in DepartmentHues then BadgeClass(DepartmentHues[department]) else DefaultDepartmentColor
  }

  /** Exactly the ten filterable departments have a colour of their own. */
  lemma KnownDepartments(d: string)
    ensures d in DepartmentHues <==> d in SearchFilter.Departments
  {
  }

  /** No two departments share a colour family. */
  lemma HuesDistinct(d1: string, d2: string)
    requires d1 in DepartmentHues && d2 in DepartmentHues && d1 != d2
    ensures DepartmentHues[d1] != DepartmentHues[d2]
  {
  }

  /** Two different known departments get different badge classes. */
  lemma DepartmentColorsDistinct(d1: string, d2: string)
    requires d1 in DepartmentHues && d2 in DepartmentHues && d1 != d2
    ensures DepartmentColor(d1) != DepartmentColor(d2)
  {
    HuesDistinct(d1, d2);
    if DepartmentColor(d1) == DepartmentColor(d2) {
      BadgeClassInjective(DepartmentHues[d1], DepartmentHues[d2]);
    }
  }

  /** The grey default is shown for unknown departments and for Legal, whose colour is grey too. */
  lemma DefaultColorIff(d: string)
    ensures DepartmentColor(d) == DefaultDepartmentColor <==> d == "Legal" || d !in DepartmentHues
  {
    if DepartmentColor(d) == DefaultDepartmentColor && d in DepartmentHues {
      BadgeClassInjective(DepartmentHues[d], "gray");
    }
  }
}
