/**
 * The rating histogram and the summary cards of `app/analytics/page.tsx`.
 */
module RatingStats {
  import opened Seqs
  import opened Text
  import opened Types
  import DepartmentStats

  function HasRating(r: int): Employee -> bool
  {
    (e: Employee) => e.rating == r
  }

  /** The number of employees with rating `r`. */
  function CountRating(employees: seq<Employee>, r: int): nat
  {
    |Filter(employees, HasRating(r))|
  }

  /** Some employee of the list has rating `r`. */
  ghost predicate HasSomeRating(employees: seq<Employee>, r: int)
  {
    exists i :: 0 <= i < |employees| && employees[i].rating == r
  }

  lemma CountRatingSnoc(employees: seq<Employee>, e: Employee, r: int)
    ensures CountRating(employees + [e], r) == CountRating(employees, r) + (if e.rating == r then 1 else 0)
  {
    FilterAppend(employees, [e], HasRating(r));
  }

  lemma HasSomeRatingSnoc(employees: seq<Employee>, e: Employee)
    ensures forall r :: HasSomeRating(employees + [e], r) <==> r == e.rating || HasSomeRating(employees, r)
  {
    forall r ensures HasSomeRating(employees + [e], r) <==> r == e.rating || HasSomeRating(employees, r) {
      if HasSomeRating(employees + [e], r) {
        var k :| 0 <= k < |employees + [e]| && (employees + [e])[k].rating == r;
        if k < |employees| {
          assert employees[k] == (employees + [e])[k];
        }
      }
      if HasSomeRating(employees, r) {
        var k :| 0 <= k < |employees| && employees[k].rating == r;
        assert (employees + [e])[k] == employees[k];
      }
      assert (employees + [e])[|employees|] == e;
    }
  }

  /** Counting one more employee: its rating's entry goes up by one, created at 1 if new. */
  lemma DistributionStep(employees: seq<Employee>, e: Employee, before: map<int, nat>, after: map<int, nat>)
    requires forall r :: r in before <==> HasSomeRating(employees, r)
    requires forall r :: r in before ==> before[r] == CountRating(employees, r) && before[r] > 0
    requires after == before[e.rating := (if e.rating in before then before[e.rating] else 0) + 1]
    ensures forall r :: r in after <==> HasSomeRating(employees + [e], r)
    ensures forall r :: r in after ==> after[r] == CountRating(employees + [e], r) && after[r] > 0
  {
    HasSomeRatingSnoc(employees, e);
    forall r | r in after ensures after[r] == CountRating(employees + [e], r) {
      CountRatingSnoc(employees, e, r);
      if r == e.rating && e.rating !in before {
        NoRatingNoCount(employees, r);
      }
    }
  }

  /**
   * The `reduce` that counts employees per rating: a rating's entry appears
   * with its first employee and counts every employee that has it.
   */
  method RatingDistribution(employees: seq<Employee>) returns (acc: map<int, nat>)
    ensures forall r :: r in acc <==> HasSomeRating(employees, r)
    ensures forall r :: r in acc ==> acc[r] == CountRating(employees, r) && acc[r] > 0
    ensures forall r :: Lookup(acc, r) == CountRating(employees, r)
  {
    acc := map[];
    for i := 0 to |employees|
      invariant forall r :: r in acc <==> HasSomeRating(employees[..i], r)
      invariant forall r :: r in acc ==> acc[r] == CountRating(employees[..i], r) && acc[r] > 0
    {
      var emp := employees[i];
      ghost var prefix := employees[..i];
      assert employees[..i + 1] == prefix + [emp];
      var previous := if emp.rating in acc then acc[emp.rating] else 0;
      ghost var before := acc;
      acc := acc[emp.rating := previous + 1];
      DistributionStep(prefix, emp, before, acc);
    }
    assert employees[..|employees|] == employees;
    DistributionLookup(employees, acc);
  }

  /** A map that holds exactly the ratings present, with their counts, reads as zero elsewhere. */
  lemma DistributionLookup(employees: seq<Employee>, acc: map<int, nat>)
    requires forall r :: r in acc <==> HasSomeRating(employees, r)
    requires forall r :: r in acc ==> acc[r] == CountRating(employees, r)
    ensures forall r :: Lookup(acc, r) == CountRating(employees, r)
  {
    forall r | r !in acc ensures CountRating(employees, r) == 0 {
      NoRatingNoCount(employees, r);
    }
  }

  /** A rating nobody has is counted zero times. */
  lemma NoRatingNoCount(employees: seq<Employee>, r: int)
    requires !HasSomeRating(employees, r)
    ensures CountRating(employees, r) == 0
  {
    FilterNone(employees, HasRating(r));
  }

  /** One slice of the pie chart. */
  datatype Slice = Slice(rating: string, value: nat, fill: string, percentTenths: int)

  /** The chart's five buckets, highest rating first: rating, label and colour. */
  const Buckets: seq<(int, string, string)> := [
    (5, "5 Stars", "#84cc16"),
    (4, "4 Stars", "#a3e635"),
    (3, "3 Stars", "#facc15"),
    (2, "2 Stars", "#f97316"),
    (1, "1 Star", "#ef4444")
  ]

  /** `ratingDistribution[r] || 0`. */
  function Lookup(dist: map<int, nat>, r: int): nat
  {
    if r in dist then dist[r] else 0
  }

  /**
   * One bucket's slice: its count and its share of all employees as a
   * percentage in tenths. Buckets with no employees are dropped before their
   * percentage is shown, so an empty list's division by zero is not modelled.
   */
  function MakeSlice(bucket: (int, string, string), dist: map<int, nat>, total: nat): Slice
  {
    var value := Lookup(dist, bucket.0);
    Slice(bucket.1, value, bucket.2,
      if total > 0 then DepartmentStats.RoundTenths(100 * value, total) else 0)
  }

  /** The five slices before empty ones are dropped. */
  function AllSlices(dist: map<int, nat>, total: nat): (r: seq<Slice>)
    ensures |r| == 5
    ensures forall i :: 0 <= i < 5 ==> r[i] == MakeSlice(Buckets[i], dist, total)
  {
    seq(5, i requires 0 <= i < 5 => MakeSlice(Buckets[i], dist, total))
  }

  function IsPositive(): Slice -> bool
  {
    (s: Slice) => s.value > 0
  }

  /** `ratingChartData`: the five slices, without the empty ones. */
  function RatingChartData(dist: map<int, nat>, total: nat): seq<Slice>
  {
    Filter(AllSlices(dist, total), IsPositive())
  }

  /** The sum of the slice values. */
  function SumValues(slices: seq<Slice>): nat
  {
    if slices == [] then 0 else slices[0].value + SumValues(slices[1..])
  }

  /** Dropping the empty slices leaves the total unchanged. */
  lemma {:induction false} SumValuesPositive(slices: seq<Slice>)
    ensures SumValues(Filter(slices, IsPositive())) == SumValues(slices)
  {
    if slices != [] {
      SumValuesPositive(slices[1..]);
      var rest := Filter(slices[1..], IsPositive());
      assert IsPositive()(slices[0]) == (slices[0].value > 0);
      if slices[0].value > 0 {
        assert Filter(slices, IsPositive()) == [slices[0]] + rest;
        assert ([slices[0]] + rest)[1..] == rest;
      } else {
        assert Filter(slices, IsPositive()) == rest;
      }
    }
  }

  /** The total of five slices, written out. */
  lemma SumValuesFive(slices: seq<Slice>)
    requires |slices| == 5
    ensures SumValues(slices) == slices[0].value + slices[1].value + slices[2].value + slices[3].value + slices[4].value
  {
    assert slices[1..][1..] == slices[2..];
    assert slices[2..][1..] == slices[3..];
    assert slices[3..][1..] == slices[4..];
    assert slices[4..][1..] == [];
    assert SumValues(slices[4..]) == slices[4].value;
    assert SumValues(slices[3..]) == slices[3].value + SumValues(slices[4..]);
    assert SumValues(slices[2..]) == slices[2].value + SumValues(slices[3..]);
    assert SumValues(slices[1..]) == slices[1].value + SumValues(slices[2..]);
  }

  /** Every rating lies between 1 and 5, the ones the chart shows. */
  ghost predicate ValidRatings(employees: seq<Employee>)
  {
    forall i :: 0 <= i < |employees| ==> 1 <= employees[i].rating <= 5
  }

  lemma ValidRatingsInit(employees: seq<Employee>)
    requires employees != [] && ValidRatings(employees)
    ensures ValidRatings(employees[..|employees| - 1])
  {
    var init := employees[..|employees| - 1];
    forall i | 0 <= i < |init| ensures 1 <= init[i].rating <= 5 {
      assert init[i] == employees[i];
    }
  }

  /** With every rating between 1 and 5, the five counts add up to the number of employees. */
  lemma {:induction false} CountsCoverAll(employees: seq<Employee>)
    requires ValidRatings(employees)
    ensures CountRating(employees, 5) + CountRating(employees, 4) + CountRating(employees, 3)
          + CountRating(employees, 2) + CountRating(employees, 1) == |employees|
  {
    if employees != [] {
      var init := employees[..|employees| - 1];
      var e := employees[|employees| - 1];
      assert employees == init + [e];
      ValidRatingsInit(employees);
      CountsCoverAll(init);
      CountRatingSnoc(init, e, 5);
      CountRatingSnoc(init, e, 4);
      CountRatingSnoc(init, e, 3);
      CountRatingSnoc(init, e, 2);
      CountRatingSnoc(init, e, 1);
    }
  }

  /** Fed the distribution of the employees, bucket `i` carries the count of its rating. */
  lemma AllSlicesCounts(employees: seq<Employee>, dist: map<int, nat>, i: int)
    requires forall r :: Lookup(dist, r) == CountRating(employees, r)
    requires 0 <= i < 5
    ensures AllSlices(dist, |employees|)[i].value == CountRating(employees, Buckets[i].0)
  {
  }

  /**
   * Fed the distribution of the employees, the chart keeps the buckets in
   * order (ratings 5 down to 1), each exactly when some employee has that
   * rating, and no empty slice.
   */
  lemma RatingChartOfEmployees(employees: seq<Employee>, dist: map<int, nat>, i: int)
    requires forall r :: Lookup(dist, r) == CountRating(employees, r)
    requires 0 <= i < 5
    ensures IsSubseq(RatingChartData(dist, |employees|), AllSlices(dist, |employees|))
    ensures AllSlices(dist, |employees|)[i] in RatingChartData(dist, |employees|)
        <==> CountRating(employees, Buckets[i].0) > 0
    ensures forall s :: s in RatingChartData(dist, |employees|) ==> s.value > 0
  {
    var all := AllSlices(dist, |employees|);
    FilterIsSubseq(all, IsPositive());
    FilterMembers(all, IsPositive());
    AllSlicesCounts(employees, dist, i);
  }

  /**
   * With every rating between 1 and 5 the slice values add up to the number
   * of employees, so an empty list gives no slices at all.
   */
  lemma RatingChartTotal(employees: seq<Employee>, dist: map<int, nat>)
    requires forall r :: Lookup(dist, r) == CountRating(employees, r)
    requires ValidRatings(employees)
    ensures SumValues(RatingChartData(dist, |employees|)) == |employees|
    ensures employees == [] ==> RatingChartData(dist, |employees|) == []
  {
    var all := AllSlices(dist, |employees|);
    SumValuesPositive(all);
    CountsCoverAll(employees);
    AllSlicesCounts(employees, dist, 0);
    AllSlicesCounts(employees, dist, 1);
    AllSlicesCounts(employees, dist, 2);
    AllSlicesCounts(employees, dist, 3);
    AllSlicesCounts(employees, dist, 4);
    SumValuesFive(all);
    if employees == [] {
      FilterNone(all, IsPositive());
    }
  }

  /** The number of employees rated 4 or more. */
  function HighPerformers(employees: seq<Employee>): nat
  {
    |Filter(employees, (e: Employee) => e.rating >= 4)|
  }

  /** With ratings of at most 5, the high performers are the 4- and 5-star slices together. */
  lemma {:induction false} HighPerformersSplit(employees: seq<Employee>)
    requires ValidRatings(employees)
    ensures HighPerformers(employees) == CountRating(employees, 4) + CountRating(employees, 5)
  {
    if employees != [] {
      var init := employees[..|employees| - 1];
      var e := employees[|employees| - 1];
      assert employees == init + [e];
      ValidRatingsInit(employees);
      HighPerformersSplit(init);
      FilterAppend(init, [e], (e: Employee) => e.rating >= 4);
      CountRatingSnoc(init, e, 4);
      CountRatingSnoc(init, e, 5);
    }
  }

  /** A number of tenths written with one decimal, as `toFixed(1)` writes it. */
  function TenthsText(t: nat): (r: string)
    ensures |r| >= 3 && r[|r| - 2] == '.'
  {
    NatToString(t / 10) + "." + [DigitChar(t % 10)]
  }

  /**
   * The text is the whole part in decimal digits, a dot, and one digit of
   * tenths; read back, the two parts give the number of tenths.
   */
  lemma TenthsTextParses(t: nat)
    ensures var r := TenthsText(t);
      (forall i :: 0 <= i < |r| && i != |r| - 2 ==> '0' <= r[i] <= '9') &&
      10 * ParseDecimal(r[..|r| - 2]) + DigitValue(r[|r| - 1]) == t
  {
    var whole := NatToString(t / 10);
    var r := TenthsText(t);
    NatToStringParses(t / 10);
    DigitCharValue(t % 10);
    assert r == whole + ['.'] + [DigitChar(t % 10)];
    assert r[..|r| - 2] == whole;
    forall i | 0 <= i < |r| && i != |r| - 2 ensures '0' <= r[i] <= '9' {
      if i < |whole| {
        assert r[i] == whole[i];
      }
    }
  }

  /** The sum of ratings lies between `n` and `5n` when every rating lies between 1 and 5. */
  lemma {:induction false} SumRatingsBounds(employees: seq<Employee>)
    requires ValidRatings(employees)
    ensures |employees| <= DepartmentStats.SumRatings(employees) <= 5 * |employees|
  {
    if employees != [] {
      ValidRatingsInit(employees);
      SumRatingsBounds(employees[..|employees| - 1]);
    }
  }

  /** The summary cards. */
  datatype Summary = Summary(totalEmployees: nat, averageRating: string, highPerformers: nat, bookmarked: nat)

  /**
   * The summary: the head count, the average rating with one decimal (or "0"
   * for nobody), the high performers, and the length of the bookmark list
   * (repeated ids counted each time).
   */
  function ComputeSummary(employees: seq<Employee>, bookmarks: seq<int>): (r: Summary)
    requires ValidRatings(employees)
    ensures r.totalEmployees == |employees| && r.bookmarked == |bookmarks|
    ensures r.averageRating == "0" <==> employees == []
    ensures employees != [] ==>
      var t := DepartmentStats.RoundTenths(DepartmentStats.SumRatings(employees), |employees|);
      10 <= t <= 50 && r.averageRating == TenthsText(t)
    ensures r.highPerformers == CountRating(employees, 4) + CountRating(employees, 5)
  {
    HighPerformersSplit(employees);
    if |employees| > 0 then
      SumRatingsBounds(employees);
      DepartmentStats.RoundTenthsBounds(DepartmentStats.SumRatings(employees), |employees|, 1, 5);
      var t := DepartmentStats.RoundTenths(DepartmentStats.SumRatings(employees), |employees|);
      Summary(|employees|, TenthsText(t), HighPerformers(employees), |bookmarks|)
    else
      Summary(0, "0", HighPerformers(employees), |bookmarks|)
  }
}
