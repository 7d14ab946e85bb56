/**
 * The top-performers leaderboard of `app/analytics/page.tsx`: the employee
 * array is sorted in place by rating, highest first, then by first name in
 * reverse alphabetical order; the first ten are ranked and scored.
 */
module Leaderboard {
  import opened Seqs
  import opened Sorting
  import opened Text
  import opened Types

  /**
   * The comparator, read as "`a` may stand before `b`": a higher rating, or
   * the same rating and a first name that sorts no earlier.
   */
  predicate RanksBefore(a: Employee, b: Employee)
  {
    a.rating > b.rating || (a.rating == b.rating && LexLeq(b.firstName, a.firstName))
  }

  function ByRank(): (Employee, Employee) -> bool
  {
    (a: Employee, b: Employee) => RanksBefore(a, b)
  }

  /** The comparator is consistent: total and transitive. */
  lemma ByRankPreorder()
    ensures TotalPreorder(ByRank())
  {
    forall a: Employee, b: Employee ensures ByRank()(a, b) || ByRank()(b, a) {
      LexLeqTotal(a.firstName, b.firstName);
    }
    forall a: Employee, b: Employee, c: Employee | ByRank()(a, b) && ByRank()(b, c)
      ensures ByRank()(a, c)
    {
      if a.rating == b.rating == c.rating {
        LexLeqTransitive(c.firstName, b.firstName, a.firstName);
      }
    }
  }

  /** Two employees tie exactly when they share rating and first name. */
  lemma TiedIff(a: Employee, b: Employee)
    ensures RanksBefore(a, b) && RanksBefore(b, a) <==> a.rating == b.rating && a.firstName == b.firstName
  {
    LexLeqTotal(a.firstName, a.firstName);
    if RanksBefore(a, b) && RanksBefore(b, a) {
      LexLeqAntisymmetric(a.firstName, b.firstName);
    }
  }

  /** One row of the leaderboard. */
  datatype Performer = Performer(employee: Employee, rank: nat, score: int)

  /** The first ten of a ranked list, with rank `index + 1` and score `rating * 20`. */
  function TopTen(ranked: seq<Employee>): (r: seq<Performer>)
    ensures |r| == if |ranked| < 10 then |ranked| else 10
    ensures forall i :: 0 <= i < |r| ==>
      r[i].employee == ranked[i] && r[i].rank == i + 1 && r[i].score == 20 * ranked[i].rating
  {
    var n := if |ranked| < 10 then |ranked| else 10;
    seq(n, i requires 0 <= i < n => Performer(ranked[i], i + 1, ranked[i].rating * 20))
  }

  /** `topPerformers`, as a value: the stable sort by rank, then the first ten. */
  function Leaderboard(employees: seq<Employee>): seq<Performer>
  {
    TopTen(InsertionSort(employees, ByRank()))
  }

  /**
   * The leaderboard holds `min(10, n)` rows, ranked 1, 2, ...; ratings do not
   * increase down the board and equal ratings come in reverse name order;
   * no employee left off the board outranks one on it.
   */
  lemma LeaderboardOrdered(employees: seq<Employee>)
    ensures var b := Leaderboard(employees);
      |b| == if |employees| < 10 then |employees| else 10
    ensures var b := Leaderboard(employees);
      forall i, j :: 0 <= i < j < |b| ==>
        b[i].employee.rating >= b[j].employee.rating &&
        (b[i].employee.rating == b[j].employee.rating ==> LexLeq(b[j].employee.firstName, b[i].employee.firstName))
    ensures var b := Leaderboard(employees); var s := InsertionSort(employees, ByRank());
      forall i, k :: 0 <= i < |b| && |b| <= k < |s| ==> RanksBefore(b[i].employee, s[k])
    ensures var b := Leaderboard(employees);
      forall i :: 0 <= i < |b| ==> b[i].employee in employees
  {
    ByRankPreorder();
    var s := InsertionSort(employees, ByRank());
    InsertionSortSorted(employees, ByRank());
    assert |s| == |employees| by {
      assert |multiset(s)| == |multiset(employees)|;
    }
    forall i | 0 <= i < |s| ensures s[i] in employees {
      assert s[i] in multiset(employees);
    }
  }

  /**
   * Employees with the same rating and the same first name keep the order
   * they had before the sort.
   */
  lemma LeaderboardStable(employees: seq<Employee>, z: Employee)
    ensures Filter(InsertionSort(employees, ByRank()), TiedWith(z, ByRank()))
         == Filter(employees, TiedWith(z, ByRank()))
  {
    ByRankPreorder();
    InsertionSortStable(employees, z, ByRank());
  }

  /**
   * `topPerformers`: sorts the page's employee array in place (the page keeps
   * the reordered array) and returns the first ten, ranked and scored.
   */
  method TopPerformers(employees: array<Employee>) returns (board: seq<Performer>)
    modifies employees
    ensures employees[..] == InsertionSort(old(employees[..]), ByRank())
    ensures board == Leaderboard(old(employees[..]))
  {
    SortInPlace(employees, ByRank());
    board := TopTen(employees[..]);
  }

  /** `getRankColor`: gold, silver and bronze for the podium, lime for everyone else. */
  function RankColor(rank: int): (r: string)
    ensures rank == 1 <==> r == "text-yellow-400"
    ensures rank == 2 <==> r == "text-gray-300"
    ensures rank == 3 <==> r == "text-orange-400"
    ensures rank !in {1, 2, 3} <==> r == "text-lime-400"
  {
    if rank == 1 then "text-yellow-400"
    else if rank == 2 then "text-gray-300"
    else if rank == 3 then "text-orange-400"
    else "text-lime-400"
  }
}
