/**
 * The per-department figures of `app/analytics/page.tsx`: the `reduce` that
 * groups employees by department, the bar-chart rows sorted by average rating,
 * and the top employee of each department.
 */
module DepartmentStats {
  import opened Wrappers
  import opened Arith
  import opened Seqs
  import opened Sorting
  import opened Types

  /** One department's accumulator: member count, rating total, members in input order. */
  datatype Stats = Stats(count: nat, totalRating: int, employees: seq<Employee>)

  function InDepartment(d: string): Employee -> bool
  {
    (e: Employee) => e.Department() == d
  }

  /** The employees of department `d`, in input order. */
  function Members(employees: seq<Employee>, d: string): seq<Employee>
  {
    Filter(employees, InDepartment(d))
  }

  /** The sum of the ratings, added left to right. */
  function SumRatings(employees: seq<Employee>): int
  {
    if employees == [] then 0
    else SumRatings(employees[..|employees| - 1]) + employees[|employees| - 1].rating
  }

  /** What the accumulator of department `d` holds once the whole list is folded in. */
  function StatsOf(employees: seq<Employee>, d: string): Stats
  {
    var m := Members(employees, d);
    Stats(|m|, SumRatings(m), m)
  }

  /**
   * The accumulator's keys in insertion order, which is the order
   * `Object.entries` lists them in: each department at its first appearance.
   */
  function Departments(employees: seq<Employee>): seq<string>
  {
    if employees == [] then []
    else
      var prev := Departments(employees[..|employees| - 1]);
      var d := employees[|employees| - 1].Department();
      if d in prev then prev else prev + [d]
  }

  /** Some employee of the list belongs to department `d`. */
  ghost predicate HasDepartment(employees: seq<Employee>, d: string)
  {
    exists i :: 0 <= i < |employees| && employees[i].Department() == d
  }

  /** A department is listed exactly when some employee belongs to it, and only once. */
  lemma {:induction false} DepartmentsListed(employees: seq<Employee>)
    ensures forall d :: d in Departments(employees) <==> HasDepartment(employees, d)
    ensures NoDup(Departments(employees))
  {
    if employees != [] {
      var init := employees[..|employees| - 1];
      var last := employees[|employees| - 1];
      DepartmentsListed(init);
      forall d ensures HasDepartment(employees, d) <==> (d == last.Department() || HasDepartment(init, d))
      {
        if HasDepartment(employees, d) {
          var i :| 0 <= i < |employees| && employees[i].Department() == d;
          if i < |init| {
            assert init[i] == employees[i];
          }
        }
        if HasDepartment(init, d) {
          var i :| 0 <= i < |init| && init[i].Department() == d;
          assert employees[i] == init[i];
        }
        assert employees[|employees| - 1] == last;
      }
    }
  }

  /** A department nobody belongs to has no members. */
  lemma NoMembers(employees: seq<Employee>, d: string)
    requires d !in Departments(employees)
    ensures Members(employees, d) == []
  {
    DepartmentsListed(employees);
    assert !HasDepartment(employees, d);
    FilterNone(employees, InDepartment(d));
  }

  /** Folding in one more employee extends its own department's members and no other. */
  lemma MembersSnoc(employees: seq<Employee>, e: Employee, d: string)
    ensures Members(employees + [e], d) ==
      Members(employees, d) + (if e.Department() == d then [e] else [])
  {
    FilterAppend(employees, [e], InDepartment(d));
  }

  lemma SumRatingsSnoc(employees: seq<Employee>, e: Employee)
    ensures SumRatings(employees + [e]) == SumRatings(employees) + e.rating
  {
    assert (employees + [e])[..|employees|] == employees;
  }

  /** The sum of two lists laid end to end is the sum of their sums. */
  lemma {:induction false} SumRatingsAppend(a: seq<Employee>, b: seq<Employee>)
    ensures SumRatings(a + b) == SumRatings(a) + SumRatings(b)
    decreases |b|
  {
    if b == [] {
      assert a + b == a;
    } else {
      var init := b[..|b| - 1];
      SumRatingsAppend(a, init);
      assert (a + b)[..|a + b| - 1] == a + init;
    }
  }

  /** The sum does not depend on the order of the list. */
  lemma {:induction false} SumRatingsPerm(a: seq<Employee>, b: seq<Employee>)
    requires multiset(a) == multiset(b)
    ensures SumRatings(a) == SumRatings(b)
    decreases |a|
  {
    if a == [] {
      assert |multiset(b)| == 0;
    } else {
      var init, x := a[..|a| - 1], a[|a| - 1];
      assert a == init + [x];
      assert x in multiset(b);
      var k :| 0 <= k < |b| && b[k] == x;
      var rest := b[..k] + b[k + 1..];
      assert b == b[..k] + [x] + b[k + 1..];
      assert multiset(b) == multiset(b[..k]) + multiset{x} + multiset(b[k + 1..]);
      assert multiset(rest) + multiset{x} == multiset(init) + multiset{x};
      assert multiset(rest) == multiset(rest) + multiset{x} - multiset{x};
      assert multiset(init) == multiset(init) + multiset{x} - multiset{x};
      SumRatingsPerm(init, rest);
      SumRatingsAppend(b[..k], b[k + 1..]);
      SumRatingsAppend(b[..k] + [x], b[k + 1..]);
      SumRatingsSnoc(b[..k], x);
    }
  }

  /**
   * Reordering the employees reorders each department's members and leaves
   * its count and rating total as they were.
   */
  lemma MembersPerm(a: seq<Employee>, b: seq<Employee>, d: string)
    requires multiset(a) == multiset(b)
    ensures multiset(Members(a, d)) == multiset(Members(b, d))
    ensures |Members(a, d)| == |Members(b, d)|
    ensures SumRatings(Members(a, d)) == SumRatings(Members(b, d))
  {
    FilterPerm(a, b, InDepartment(d));
    SumRatingsPerm(Members(a, d), Members(b, d));
  }

  /** Folding in one more employee updates its department's accumulator and no other. */
  lemma StatsOfSnoc(employees: seq<Employee>, e: Employee, d: string)
    ensures e.Department() == d ==>
      StatsOf(employees + [e], d) ==
        Stats(StatsOf(employees, d).count + 1, StatsOf(employees, d).totalRating + e.rating,
              StatsOf(employees, d).employees + [e])
    ensures e.Department() != d ==> StatsOf(employees + [e], d) == StatsOf(employees, d)
  {
    MembersSnoc(employees, e, d);
    var m := Members(employees, d);
    if e.Department() == d {
      SumRatingsSnoc(m, e);
      assert Members(employees + [e], d) == m + [e];
    } else {
      assert m + [] == m;
      assert Members(employees + [e], d) == m;
    }
  }

  /**
   * The `reduce` over the employees: the first employee of a department
   * creates its entry, every employee adds one to the count, its rating to
   * the total, and itself to the member list.
   */
  method ComputeDepartmentStats(employees: seq<Employee>) returns (keys: seq<string>, acc: map<string, Stats>)
    ensures keys == Departments(employees)
    ensures forall d :: d in acc <==> d in keys
    ensures forall d :: d in acc ==> acc[d] == StatsOf(employees, d)
  {
    keys := [];
    acc := map[];
    for i := 0 to |employees|
      invariant keys == Departments(employees[..i])
      invariant forall d :: d in acc <==> d in keys
      invariant forall d :: d in acc ==> acc[d] == StatsOf(employees[..i], d)
    {
      var emp := employees[i];
      var dept := emp.Department();
      ghost var prefix := employees[..i];
      assert employees[..i + 1] == prefix + [emp];
      if dept !in acc {
        NoMembers(prefix, dept);
        acc := acc[dept := Stats(0, 0, [])];
        keys := keys + [dept];
      }
      var s := acc[dept];
      acc := acc[dept := Stats(s.count + 1, s.totalRating + emp.rating, s.employees + [emp])];
      forall d | d in acc ensures acc[d] == StatsOf(prefix + [emp], d) {
        StatsOfSnoc(prefix, emp, d);
      }
    }
    assert employees[..|employees|] == employees;
  }

  /** The sum of the member counts over a list of departments. */
  function CountSum(keys: seq<string>, employees: seq<Employee>): nat
  {
    if keys == [] then 0
    else CountSum(keys[..|keys| - 1], employees) + |Members(employees, keys[|keys| - 1])|
  }

  /** One more employee adds one to the count sum of a duplicate-free key list holding its department. */
  lemma {:induction false} CountSumSnoc(keys: seq<string>, employees: seq<Employee>, e: Employee)
    requires NoDup(keys)
    ensures CountSum(keys, employees + [e]) ==
      CountSum(keys, employees) + (if e.Department() in keys then 1 else 0)
  {
    if keys != [] {
      var init := keys[..|keys| - 1];
      var last := keys[|keys| - 1];
      assert NoDup(init) by {
        forall i, j | 0 <= i < j < |init| ensures init[i] != init[j] {
          assert init[i] == keys[i] && init[j] == keys[j];
        }
      }
      CountSumSnoc(init, employees, e);
      MembersSnoc(employees, e, last);
      assert keys == init + [last];
      if e.Department() == last {
        assert e.Department() !in init by {
          forall k | 0 <= k < |init| ensures init[k] != last {
            assert init[k] == keys[k];
          }
        }
      }
    }
  }

  /** The department counts add up to the number of employees. */
  lemma {:induction false} CountsAddUp(employees: seq<Employee>)
    ensures CountSum(Departments(employees), employees) == |employees|
  {
    if employees != [] {
      var init := employees[..|employees| - 1];
      var e := employees[|employees| - 1];
      var keys := Departments(init);
      assert employees == init + [e];
      CountsAddUp(init);
      DepartmentsListed(init);
      CountSumSnoc(keys, init, e);
      if e.Department() !in keys {
        NoMembers(init, e.Department());
        MembersSnoc(init, e, e.Department());
        assert Departments(employees) == keys + [e.Department()];
        assert Departments(employees)[..|keys|] == keys;
      }
    }
  }

  /** Every listed department has at least one member, all of them from that department. */
  lemma MembersOfListed(employees: seq<Employee>, d: string)
    requires d in Departments(employees)
    ensures |Members(employees, d)| >= 1
    ensures forall e :: e in Members(employees, d) ==> e in employees && e.Department() == d
  {
    DepartmentsListed(employees);
    var i :| 0 <= i < |employees| && employees[i].Department() == d;
    FilterMembers(employees, InDepartment(d));
    assert employees[i] in Members(employees, d);
  }

  lemma AllListedHaveMembers(employees: seq<Employee>)
    ensures forall i :: 0 <= i < |Departments(employees)| ==> |Members(employees, Departments(employees)[i])| >= 1
  {
    forall i | 0 <= i < |Departments(employees)| ensures |Members(employees, Departments(employees)[i])| >= 1 {
      MembersOfListed(employees, Departments(employees)[i]);
    }
  }

  /** Reordering the employees lists the same departments, possibly in another order. */
  lemma DepartmentsPerm(a: seq<Employee>, b: seq<Employee>)
    requires multiset(a) == multiset(b)
    ensures forall d :: d in Departments(a) <==> d in Departments(b)
    ensures |Departments(a)| == |Departments(b)|
  {
    DepartmentsListed(a);
    DepartmentsListed(b);
    forall d ensures HasDepartment(a, d) <==> HasDepartment(b, d) {
      if HasDepartment(a, d) {
        var i :| 0 <= i < |a| && a[i].Department() == d;
        assert a[i] in multiset(b);
        var j :| 0 <= j < |b| && b[j] == a[i];
      }
      if HasDepartment(b, d) {
        var j :| 0 <= j < |b| && b[j].Department() == d;
        assert b[j] in multiset(a);
        var i :| 0 <= i < |a| && a[i] == b[j];
      }
    }
    SameElemsSameLength(Departments(a), Departments(b));
  }

  /** The bar-chart label: names longer than 8 characters are cut to 8 and given "...". */
  function Label(department: string): (r: string)
    ensures |r| <= 11
    ensures |department| <= 8 ==> r == department
    ensures |department| > 8 ==> |r| == 11 && r[..8] == department[..8] && r[8..] == "..."
  {
    if |department| > 8 then department[..8] + "..." else department
  }

  /**
   * `Number(x.toFixed(1))` for the exact value `total / count`, in tenths: the
   * nearest tenth, the larger one on a tie.
   */
  function RoundTenths(total: int, count: int): (r: int)
    requires count > 0
    ensures 20 * total - count < 2 * count * r <= 20 * total + count
  {
    (20 * total + count) / (2 * count)
  }

  /** Averages of ratings between `lo` and `hi` round to between `lo`.0 and `hi`.0. */
  lemma RoundTenthsBounds(total: int, count: int, lo: int, hi: int)
    requires count > 0 && lo * count <= total <= hi * count
    ensures 10 * lo <= RoundTenths(total, count) <= 10 * hi
  {
    var r := RoundTenths(total, count);
    assert 2 * count * (10 * lo - 1) == 20 * (lo * count) - 2 * count;
    assert 2 * count * (10 * hi + 1) == 20 * (hi * count) + 2 * count;
    if r < 10 * lo {
      MulMono(2 * count, r, 10 * lo - 1);
      assert false;
    }
    if r > 10 * hi {
      MulMono(2 * count, 10 * hi + 1, r);
      assert false;
    }
  }

  /** One bar of the department chart. */
  datatype Row = Row(
    department: string,
    fullDepartment: string,
    count: nat,
    averageTenths: int,
    employees: seq<Employee>)

  function MakeRow(d: string, s: Stats): Row
    requires s.count > 0
  {
    Row(Label(d), d, s.count, RoundTenths(s.totalRating, s.count), s.employees)
  }

  /** The rows in first-appearance order, before sorting. */
  function UnsortedRows(employees: seq<Employee>): (r: seq<Row>)
    ensures |r| == |Departments(employees)|
    ensures forall i :: 0 <= i < |r| ==>
      StatsOf(employees, Departments(employees)[i]).count >= 1 &&
      r[i] == MakeRow(Departments(employees)[i], StatsOf(employees, Departments(employees)[i]))
  {
    var keys := Departments(employees);
    AllListedHaveMembers(employees);
    seq(|keys|, i requires 0 <= i < |keys| => MakeRow(keys[i], StatsOf(employees, keys[i])))
  }

  /** The chart comparator: `a` may stand before `b` when its average is no lower. */
  function ByAverageDesc(): (Row, Row) -> bool
  {
    (a: Row, b: Row) => a.averageTenths >= b.averageTenths
  }

  lemma ByAverageDescPreorder()
    ensures TotalPreorder(ByAverageDesc())
  {
  }

  /** `departmentChartData`: the rows sorted by average rating, highest first, stably. */
  function DepartmentChartData(employees: seq<Employee>): seq<Row>
  {
    InsertionSort(UnsortedRows(employees), ByAverageDesc())
  }

  /**
   * The chart lists each department once, with non-increasing averages;
   * departments with equal averages keep their first-appearance order.
   */
  lemma ChartDataSorted(employees: seq<Employee>, z: Row)
    ensures var rows := DepartmentChartData(employees);
      forall i, j :: 0 <= i < j < |rows| ==> rows[i].averageTenths >= rows[j].averageTenths
    ensures multiset(DepartmentChartData(employees)) == multiset(UnsortedRows(employees))
    ensures Filter(DepartmentChartData(employees), TiedWith(z, ByAverageDesc()))
         == Filter(UnsortedRows(employees), TiedWith(z, ByAverageDesc()))
  {
    ByAverageDescPreorder();
    InsertionSortSorted(UnsortedRows(employees), ByAverageDesc());
    InsertionSortStable(UnsortedRows(employees), z, ByAverageDesc());
  }

  /** The highest rating in a non-empty list. */
  function MaxRating(employees: seq<Employee>): (m: int)
    requires employees != []
    ensures forall i :: 0 <= i < |employees| ==> employees[i].rating <= m
    ensures exists i :: 0 <= i < |employees| && employees[i].rating == m
  {
    if |employees| == 1 then employees[0].rating
    else
      var m := MaxRating(employees[1..]);
      assert forall i :: 1 <= i < |employees| ==> employees[i] == employees[1..][i - 1];
      if employees[0].rating >= m then employees[0].rating else m
  }

  function HasRating(r: int): Employee -> bool
  {
    (e: Employee) => e.rating == r
  }

  /** Some member has the highest rating, so filtering for it leaves someone. */
  lemma MaxRatingHolder(employees: seq<Employee>)
    requires employees != []
    ensures Filter(employees, HasRating(MaxRating(employees))) != []
  {
    var i :| 0 <= i < |employees| && employees[i].rating == MaxRating(employees);
    FilterMembers(employees, HasRating(MaxRating(employees)));
    assert employees[i] in employees;
  }

  /** The department's top employee: the first member with the highest rating. */
  function TopEmployee(employees: seq<Employee>): (top: Employee)
    requires employees != []
    ensures top in employees && top.rating == MaxRating(employees)
  {
    MaxRatingHolder(employees);
    FilterMembers(employees, HasRating(MaxRating(employees)));
    Filter(employees, HasRating(MaxRating(employees)))[0]
  }

  /**
   * The top employee is the first one, in list order, with the highest
   * rating: everyone before it is rated strictly lower.
   */
  lemma TopEmployeeFirst(employees: seq<Employee>)
    requires employees != []
    ensures exists k :: 0 <= k < |employees| && employees[k] == TopEmployee(employees) &&
                        forall j :: 0 <= j < k ==> employees[j].rating < TopEmployee(employees).rating
  {
    MaxRatingHolder(employees);
    FilterHead(employees, HasRating(MaxRating(employees)));
  }

  /** The member comparator: `a` may stand before `b` when its rating is no lower. */
  function ByRatingDesc(): (Employee, Employee) -> bool
  {
    (a: Employee, b: Employee) => a.rating >= b.rating
  }

  /** Sorting by rating, highest first, puts a highest-rated member first. */
  lemma {:induction false} SortedHeadMax(employees: seq<Employee>)
    requires employees != []
    ensures var s := InsertionSort(employees, ByRatingDesc());
      |s| == |employees| && s[0].rating == MaxRating(employees)
  {
    var leq := ByRatingDesc();
    var s := InsertionSort(employees, leq);
    InsertionSortSorted(employees, leq);
    assert |s| == |employees| by {
      assert |multiset(s)| == |multiset(employees)|;
    }
    var m := MaxRating(employees);
    var i :| 0 <= i < |employees| && employees[i].rating == m;
    assert employees[i] in multiset(s);
    var k :| 0 <= k < |s| && s[k] == employees[i];
    assert leq(s[0], s[k]);
    assert s[0] in multiset(employees);
    var j :| 0 <= j < |employees| && employees[j] == s[0];
  }

  /**
   * Sorting the members by rating, highest first, with a stable sort puts the
   * top employee first.
   */
  lemma {:induction false} SortedHeadIsTop(employees: seq<Employee>)
    requires employees != []
    ensures var s := InsertionSort(employees, ByRatingDesc()); |s| > 0 && s[0] == TopEmployee(employees)
  {
    var leq := ByRatingDesc();
    var s := InsertionSort(employees, leq);
    SortedHeadMax(employees);
    var m := MaxRating(employees);
    var top := TopEmployee(employees);
    InsertionSortStable(employees, top, leq);
    FilterAgree(s, TiedWith(top, leq), HasRating(m));
    FilterAgree(employees, TiedWith(top, leq), HasRating(m));
    assert Filter(s, HasRating(m))[0] == s[0];
  }

  /**
   * The top employee of one department: its member array is sorted in place
   * by rating, highest first, and its first element taken.
   */
  method TopOfDepartment(members: array<Employee>) returns (top: Employee)
    requires members.Length > 0
    modifies members
    ensures members[..] == InsertionSort(old(members[..]), ByRatingDesc())
    ensures top == TopEmployee(old(members[..]))
  {
    SortInPlace(members, ByRatingDesc());
    SortedHeadIsTop(old(members[..]));
    top := members[0];
  }

  /** The cards of the department overview: the first six rows with their top employee. */
  function TopPerDepartment(rows: seq<Row>): (r: seq<(Row, Employee)>)
    requires forall i :: 0 <= i < |rows| ==> rows[i].employees != []
    ensures |r| == if |rows| < 6 then |rows| else 6
    ensures forall i :: 0 <= i < |r| ==> r[i].0 == rows[i] && r[i].1 == TopEmployee(rows[i].employees)
  {
    var n := if |rows| < 6 then |rows| else 6;
    seq(n, i requires 0 <= i < n => (rows[i], TopEmployee(rows[i].employees)))
  }

  /**
   * The chart has one bar per department, and each bar's member list is
   * non-empty and holds only that department's employees.
   */
  lemma ChartRowsMembers(employees: seq<Employee>)
    ensures |DepartmentChartData(employees)| == |Departments(employees)|
    ensures forall i :: 0 <= i < |DepartmentChartData(employees)| ==>
      DepartmentChartData(employees)[i].employees != [] &&
      forall e :: e in DepartmentChartData(employees)[i].employees ==>
        e in employees && e.Department() == DepartmentChartData(employees)[i].fullDepartment
  {
    var rows := DepartmentChartData(employees);
    var unsorted := UnsortedRows(employees);
    ChartDataSorted(employees, Row("", "", 0, 0, []));
    assert |rows| == |unsorted| by {
      assert |multiset(rows)| == |multiset(unsorted)|;
    }
    forall i | 0 <= i < |rows|
      ensures rows[i].employees != []
      ensures forall e :: e in rows[i].employees ==> e in employees && e.Department() == rows[i].fullDepartment
    {
      assert rows[i] in multiset(unsorted);
      var j :| 0 <= j < |unsorted| && unsorted[j] == rows[i];
      MembersOfListed(employees, Departments(employees)[j]);
    }
  }

  /**
   * Each bar is one department of the employees, carrying that department's
   * members in input order, their count and their rounded average; every
   * department has a bar.
   */
  lemma ChartRowsAreStats(employees: seq<Employee>)
    ensures forall i :: 0 <= i < |DepartmentChartData(employees)| ==>
      var row := DepartmentChartData(employees)[i];
      row.fullDepartment in Departments(employees) &&
      row.employees == Members(employees, row.fullDepartment) &&
      row.count == |row.employees| && row.count >= 1 &&
      row.averageTenths == RoundTenths(SumRatings(row.employees), row.count)
    ensures forall d :: d in Departments(employees) ==>
      exists i :: 0 <= i < |DepartmentChartData(employees)| && DepartmentChartData(employees)[i].fullDepartment == d
  {
    var rows := DepartmentChartData(employees);
    var unsorted := UnsortedRows(employees);
    var keys := Departments(employees);
    ChartDataSorted(employees, Row("", "", 0, 0, []));
    forall i | 0 <= i < |rows|
      ensures rows[i].fullDepartment in keys
      ensures rows[i].employees == Members(employees, rows[i].fullDepartment)
      ensures rows[i].count == |rows[i].employees| && rows[i].count >= 1
      ensures rows[i].averageTenths == RoundTenths(SumRatings(rows[i].employees), rows[i].count)
    {
      assert rows[i] in multiset(unsorted);
      var j :| 0 <= j < |unsorted| && unsorted[j] == rows[i];
      assert rows[i].fullDepartment == keys[j];
    }
    forall d | d in keys ensures exists i :: 0 <= i < |rows| && rows[i].fullDepartment == d {
      var j :| 0 <= j < |keys| && keys[j] == d;
      assert unsorted[j] in multiset(rows);
      var i :| 0 <= i < |rows| && rows[i] == unsorted[j];
    }
  }

  /** The department overview cards: at most six departments, each with its top employee. */
  function DepartmentOverview(employees: seq<Employee>): (r: seq<(Row, Employee)>)
    ensures |r| == if |DepartmentChartData(employees)| < 6 then |DepartmentChartData(employees)| else 6
    ensures |r| <= |Departments(employees)|
    ensures forall i :: 0 <= i < |r| ==>
      r[i].0 == DepartmentChartData(employees)[i] &&
      r[i].1 in employees && r[i].1.Department() == r[i].0.fullDepartment &&
      r[i].0.employees != [] && r[i].1 == TopEmployee(r[i].0.employees)
  {
    ChartRowsMembers(employees);
    TopPerDepartment(DepartmentChartData(employees))
  }
}
