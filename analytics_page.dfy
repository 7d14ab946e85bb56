/**
 * One render of `app/analytics/page.tsx`, in the order the component body
 * runs. The department `reduce` and the bar chart are computed first; then
 * `employees.sort(...)` reorders the page's own state array in place for the
 * leaderboard; then the rating histogram and the summary are computed over the
 * reordered array. The array keeps its new order, so every render after the
 * first (the one the 500 ms leaderboard animation timer triggers, for one)
 * groups the employees in leaderboard order instead of fetch order.
 */
module AnalyticsPage {
  import opened Seqs
  import opened Sorting
  import opened Text
  import opened Types
  import opened DepartmentStats
  import Leaderboard
  import RatingStats

  /** What one render shows. */
  datatype View = View(
    chart: seq<Row>,
    overview: seq<(Row, Employee)>,
    board: seq<Leaderboard.Performer>,
    distribution: map<int, nat>,
    ratingChart: seq<RatingStats.Slice>,
    summary: RatingStats.Summary)

  /** The employees in leaderboard order: what the state array holds after one render. */
  function Ranked(employees: seq<Employee>): (r: seq<Employee>)
    ensures multiset(r) == multiset(employees) && |r| == |employees|
    ensures Sorted(r, Leaderboard.ByRank())
  {
    Leaderboard.ByRankPreorder();
    InsertionSortSorted(employees, Leaderboard.ByRank());
    assert |multiset(InsertionSort(employees, Leaderboard.ByRank()))| == |multiset(employees)|;
    InsertionSort(employees, Leaderboard.ByRank())
  }

  /**
   * In a list sorted by rank, the top employee (the first with the highest
   * rating) outranks everyone: no one is rated higher, and no one with the
   * same rating has a first name that sorts later.
   */
  lemma RankedTop(xs: seq<Employee>)
    requires xs != [] && Sorted(xs, Leaderboard.ByRank())
    ensures forall e :: e in xs ==> Leaderboard.RanksBefore(TopEmployee(xs), e)
  {
    var top := TopEmployee(xs);
    var m := MaxRating(xs);
    var best := Filter(xs, HasRating(m));
    MaxRatingHolder(xs);
    FilterSorted(xs, HasRating(m), Leaderboard.ByRank());
    FilterMembers(xs, HasRating(m));
    assert top == best[0];
    forall e | e in xs ensures Leaderboard.RanksBefore(top, e) {
      var i :| 0 <= i < |xs| && xs[i] == e;
      if e.rating == m {
        assert e in best;
        var k :| 0 <= k < |best| && best[k] == e;
        if k == 0 {
          LexLeqTotal(e.firstName, e.firstName);
        } else {
          assert Leaderboard.ByRank()(best[0], best[k]);
        }
      }
    }
  }

  /** A rating outside 1..5 cannot appear by reordering. */
  lemma ValidRatingsPerm(a: seq<Employee>, b: seq<Employee>)
    requires multiset(a) == multiset(b) && RatingStats.ValidRatings(a)
    ensures RatingStats.ValidRatings(b)
  {
    forall j | 0 <= j < |b| ensures 1 <= b[j].rating <= 5 {
      assert b[j] in multiset(a);
      var i :| 0 <= i < |a| && a[i] == b[j];
    }
  }

  /** Reordering the employees leaves every rating's count as it was. */
  lemma CountRatingPerm(a: seq<Employee>, b: seq<Employee>, r: int)
    requires multiset(a) == multiset(b)
    ensures RatingStats.CountRating(a, r) == RatingStats.CountRating(b, r)
  {
    FilterPerm(a, b, RatingStats.HasRating(r));
  }

  /** Reordering the employees leaves the summary cards as they were. */
  lemma SummaryPerm(a: seq<Employee>, b: seq<Employee>, bookmarks: seq<int>)
    requires multiset(a) == multiset(b) && RatingStats.ValidRatings(a)
    ensures RatingStats.ValidRatings(b)
    ensures RatingStats.ComputeSummary(b, bookmarks) == RatingStats.ComputeSummary(a, bookmarks)
  {
    ValidRatingsPerm(a, b);
    assert |a| == |b| by {
      assert |multiset(a)| == |multiset(b)|;
    }
    SumRatingsPerm(a, b);
    CountRatingPerm(a, b, 4);
    CountRatingPerm(a, b, 5);
  }

  /** The leaderboard of the reordered array is the leaderboard it was built from. */
  lemma BoardAfterRanking(employees: seq<Employee>)
    ensures Leaderboard.Leaderboard(Ranked(employees)) == Leaderboard.Leaderboard(employees)
  {
    InsertionSortOfSorted(Ranked(employees), Leaderboard.ByRank());
  }

  /**
   * After the reordering the chart has the same bars with the same counts and
   * averages, each bar's members being the department's members in
   * leaderboard order; only the order of bars with equal averages can change.
   */
  lemma ChartAfterRanking(employees: seq<Employee>)
    ensures |DepartmentChartData(Ranked(employees))| == |DepartmentChartData(employees)|
    ensures forall i :: 0 <= i < |DepartmentChartData(Ranked(employees))| ==>
      var row := DepartmentChartData(Ranked(employees))[i];
      var m := Members(employees, row.fullDepartment);
      row.fullDepartment in Departments(employees) &&
      row.count == |m| && row.count >= 1 &&
      row.averageTenths == RoundTenths(SumRatings(m), |m|) &&
      multiset(row.employees) == multiset(m) &&
      Sorted(row.employees, Leaderboard.ByRank())
    ensures forall d :: d in Departments(employees) ==>
      exists i :: 0 <= i < |DepartmentChartData(Ranked(employees))| &&
        DepartmentChartData(Ranked(employees))[i].fullDepartment == d
  {
    var s := Ranked(employees);
    var rows := DepartmentChartData(s);
    ChartRowsAreStats(s);
    ChartRowsMembers(s);
    ChartRowsMembers(employees);
    DepartmentsPerm(s, employees);
    forall i | 0 <= i < |rows|
      ensures rows[i].fullDepartment in Departments(employees)
      ensures rows[i].count == |Members(employees, rows[i].fullDepartment)| && rows[i].count >= 1
      ensures rows[i].averageTenths ==
        RoundTenths(SumRatings(Members(employees, rows[i].fullDepartment)), |Members(employees, rows[i].fullDepartment)|)
      ensures multiset(rows[i].employees) == multiset(Members(employees, rows[i].fullDepartment))
      ensures Sorted(rows[i].employees, Leaderboard.ByRank())
    {
      var d := rows[i].fullDepartment;
      MembersPerm(s, employees, d);
      FilterSorted(s, InDepartment(d), Leaderboard.ByRank());
    }
  }

  /**
   * The overview cards of the first render: each card's employee is the
   * first member of its department, in fetch order, with the department's
   * highest rating.
   */
  lemma OverviewOnLoad(employees: seq<Employee>, i: nat)
    requires i < |DepartmentOverview(employees)|
    ensures var card := DepartmentOverview(employees)[i];
      var m := Members(employees, card.0.fullDepartment);
      m != [] && card.1 == TopEmployee(m) &&
      exists k :: 0 <= k < |m| && m[k] == card.1 &&
                  forall j :: 0 <= j < k ==> m[j].rating < card.1.rating
  {
    var card := DepartmentOverview(employees)[i];
    ChartRowsAreStats(employees);
    assert card.0 == DepartmentChartData(employees)[i];
    TopEmployeeFirst(Members(employees, card.0.fullDepartment));
  }

  /**
   * The overview cards of every later render: each card's employee belongs
   * to its department and outranks all of the department's employees, so it
   * has the highest rating and, among those with it, the first name that
   * sorts last.
   */
  lemma OverviewAfterRanking(employees: seq<Employee>, i: nat)
    requires i < |DepartmentOverview(Ranked(employees))|
    ensures var card := DepartmentOverview(Ranked(employees))[i];
      card.1 in employees && card.1.Department() == card.0.fullDepartment &&
      forall e :: e in employees && e.Department() == card.0.fullDepartment ==>
        Leaderboard.RanksBefore(card.1, e)
  {
    var s := Ranked(employees);
    var card := DepartmentOverview(s)[i];
    var d := card.0.fullDepartment;
    CardOfMembers(s, i);
    TopOutranksDepartment(employees, s, d);
  }

  /** A card's employee is the top employee of its department's members. */
  lemma CardOfMembers(employees: seq<Employee>, i: nat)
    requires i < |DepartmentOverview(employees)|
    ensures var card := DepartmentOverview(employees)[i];
      Members(employees, card.0.fullDepartment) != [] &&
      card.1 == TopEmployee(Members(employees, card.0.fullDepartment))
  {
    ChartRowsAreStats(employees);
    assert DepartmentOverview(employees)[i].0 == DepartmentChartData(employees)[i];
  }

  /**
   * Over a list sorted by rank that reorders `employees`, the top member of
   * department `d` outranks every employee of `d`.
   */
  lemma TopOutranksDepartment(employees: seq<Employee>, s: seq<Employee>, d: string)
    requires multiset(s) == multiset(employees) && Sorted(s, Leaderboard.ByRank())
    requires Members(s, d) != []
    ensures TopEmployee(Members(s, d)) in employees
    ensures TopEmployee(Members(s, d)).Department() == d
    ensures forall e :: e in employees && e.Department() == d ==>
      Leaderboard.RanksBefore(TopEmployee(Members(s, d)), e)
  {
    var m := Members(s, d);
    var top := TopEmployee(m);
    FilterSorted(s, InDepartment(d), Leaderboard.ByRank());
    RankedTop(m);
    FilterMembers(s, InDepartment(d));
    assert top in multiset(s);
    forall e | e in employees && e.Department() == d ensures Leaderboard.RanksBefore(top, e) {
      assert e in multiset(s);
      assert e in m;
    }
  }

  /**
   * One render over the page's state array: the department figures from the
   * array as it stands, then the in-place leaderboard sort, then the
   * histogram and summary over the sorted array. The histogram and summary
   * come out as they would over the array before the sort.
   */
  method Render(employees: array<Employee>, bookmarks: seq<int>) returns (v: View)
    requires RatingStats.ValidRatings(employees[..])
    modifies employees
    ensures employees[..] == Ranked(old(employees[..]))
    ensures v.chart == DepartmentChartData(old(employees[..]))
    ensures v.overview == DepartmentOverview(old(employees[..]))
    ensures v.board == Leaderboard.Leaderboard(old(employees[..]))
    ensures forall r :: r in v.distribution <==> RatingStats.CountRating(old(employees[..]), r) > 0
    ensures forall r :: RatingStats.Lookup(v.distribution, r) == RatingStats.CountRating(old(employees[..]), r)
    ensures v.ratingChart == RatingStats.RatingChartData(v.distribution, employees.Length)
    ensures v.summary == RatingStats.ComputeSummary(old(employees[..]), bookmarks)
  {
    ghost var before := employees[..];
    var chart := DepartmentChartData(employees[..]);
    var overview := DepartmentOverview(employees[..]);
    var board := Leaderboard.TopPerformers(employees);
    assert employees[..] == Ranked(before);
    var distribution := RatingStats.RatingDistribution(employees[..]);
    forall r ensures RatingStats.Lookup(distribution, r) == RatingStats.CountRating(before, r) {
      CountRatingPerm(employees[..], before, r);
    }
    SummaryPerm(before, employees[..], bookmarks);
    var ratingChart := RatingStats.RatingChartData(distribution, employees.Length);
    var summary := RatingStats.ComputeSummary(employees[..], bookmarks);
    v := View(chart, overview, board, distribution, ratingChart, summary);
  }

  /**
   * The page once the fetch resolves: the render that shows the fetched list,
   * then the render the animation timer triggers. The second groups the
   * employees in leaderboard order; its leaderboard, histogram and summary
   * match the first.
   */
  method RenderAfterLoad(data: seq<Employee>, bookmarks: seq<int>) returns (first: View, second: View)
    requires RatingStats.ValidRatings(data)
    ensures first.chart == DepartmentChartData(data) && first.overview == DepartmentOverview(data)
    ensures second.chart == DepartmentChartData(Ranked(data))
    ensures second.overview == DepartmentOverview(Ranked(data))
    ensures first.board == Leaderboard.Leaderboard(data) && second.board == first.board
    ensures second.distribution == first.distribution && second.summary == first.summary
    ensures first.summary == RatingStats.ComputeSummary(data, bookmarks)
  {
    var employees := new Employee[|data|](i requires 0 <= i < |data| => data[i]);
    assert employees[..] == data;
    first := Render(employees, bookmarks);
    ghost var ranked := employees[..];
    SummaryPerm(data, ranked, bookmarks);
    second := Render(employees, bookmarks);
    BoardAfterRanking(data);
    DistributionPerm(first.distribution, second.distribution, data, ranked);
  }

  /** The rating counts of two orderings of the same employees are the same map. */
  lemma DistributionPerm(a: map<int, nat>, b: map<int, nat>, xs: seq<Employee>, ys: seq<Employee>)
    requires multiset(xs) == multiset(ys)
    requires forall r :: r in a <==> RatingStats.CountRating(xs, r) > 0
    requires forall r :: RatingStats.Lookup(a, r) == RatingStats.CountRating(xs, r)
    requires forall r :: r in b <==> RatingStats.CountRating(ys, r) > 0
    requires forall r :: RatingStats.Lookup(b, r) == RatingStats.CountRating(ys, r)
    ensures a == b
  {
    forall r ensures r in a.Keys <==> r in b.Keys {
      CountRatingPerm(xs, ys, r);
    }
    assert a.Keys == b.Keys;
    forall r | r in a ensures a[r] == b[r] {
      CountRatingPerm(xs, ys, r);
      assert RatingStats.Lookup(a, r) == a[r];
    }
  }
}
