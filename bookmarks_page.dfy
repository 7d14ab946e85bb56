/** The bookmarks page of `app/bookmarks/page.tsx`: the bookmarked employees and what the page shows for them. */
module BookmarksPage {
  import opened Seqs
  import opened Types

  function HasBookmarkedId(bookmarks: seq<int>): Employee -> bool
  {
    (e: Employee) => e.id in bookmarks
  }

  /** `bookmarkedEmployees`: the employees, in their own order, whose id is bookmarked. */
  function BookmarkedEmployees(employees: seq<Employee>, bookmarks: seq<int>): (r: seq<Employee>)
    ensures |r| <= |employees|
  {
    Filter(employees, HasBookmarkedId(bookmarks))
  }

  /**
   * The result is an order-preserving subsequence of the employees, holding
   * exactly those whose id is bookmarked, each no more often than in the input.
   */
  lemma BookmarkedIsSubseq(employees: seq<Employee>, bookmarks: seq<int>)
    ensures IsSubseq(BookmarkedEmployees(employees, bookmarks), employees)
    ensures forall e :: e in BookmarkedEmployees(employees, bookmarks) ==> e in employees && e.id in bookmarks
    ensures forall e :: e in employees && e.id in bookmarks ==> e in BookmarkedEmployees(employees, bookmarks)
    ensures multiset(BookmarkedEmployees(employees, bookmarks)) <= multiset(employees)
    ensures NoDup(employees) ==> NoDup(BookmarkedEmployees(employees, bookmarks))
  {
    var p := HasBookmarkedId(bookmarks);
    FilterIsSubseq(employees, p);
    FilterMembers(employees, p);
    FilterMultiset(employees, p);
    if NoDup(employees) {
      FilterNoDup(employees, p);
    }
  }

  /**
   * Only which employee ids are bookmarked matters: repeated ids, ids of no
   * employee and the order of the bookmark list change nothing.
   */
  lemma BookmarkOrderIrrelevant(employees: seq<Employee>, b1: seq<int>, b2: seq<int>)
    requires forall e :: e in employees ==> (e.id in b1 <==> e.id in b2)
    ensures BookmarkedEmployees(employees, b1) == BookmarkedEmployees(employees, b2)
  {
    FilterAgree(employees, HasBookmarkedId(b1), HasBookmarkedId(b2));
  }

  /** What the page shows around the list. */
  datatype View = View(count: nat, plural: string, bulkActions: bool, emptyState: bool)

  /**
   * The count line ends in "s" unless exactly one employee is shown; the bulk
   * actions appear when some employee is bookmarked, the empty state when none is.
   */
  function PageView(employees: seq<Employee>, bookmarks: seq<int>): (r: View)
    ensures r.count == |BookmarkedEmployees(employees, bookmarks)|
    ensures r.plural == "" <==> r.count == 1
    ensures r.plural != "" ==> r.plural == "s"
    ensures r.bulkActions <==> exists e :: e in employees && e.id in bookmarks
    ensures r.emptyState <==> forall e :: e in employees ==> e.id !in bookmarks
    ensures r.bulkActions != r.emptyState
  {
    BookmarkedIsSubseq(employees, bookmarks);
    var n := |BookmarkedEmployees(employees, bookmarks)|;
    View(n, if n != 1 then "s" else "", n > 0, n == 0)
  }
}
