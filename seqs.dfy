/**
 * The array built-ins the dashboard relies on: `Array.prototype.filter`,
 * `Array.prototype.slice`, and the "toggle in or out of a list" idiom
 * (`includes ? filter(!==) : [...xs, x]`) used by the filter panel and,
 * through the bookmark store, by the employee card.
 */
module Seqs {

  /** `xs.filter(p)`: the elements satisfying `p`, in their original order. */
  function Filter<T>(xs: seq<T>, p: T -> bool): (r: seq<T>)
    ensures |r| <= |xs|
    decreases xs
  {
    if xs == [] then []
    else (if p(xs[0]) then [xs[0]] else []) + Filter(xs[1..], p)
  }

  /** What the filter keeps: exactly the elements that pass. */
  lemma {:induction false} FilterMembers<T>(xs: seq<T>, p: T -> bool)
    ensures forall x :: x in Filter(xs, p) ==> x in xs && p(x)
    ensures forall x :: x in xs && p(x) ==> x in Filter(xs, p)
    decreases xs
  {
    if xs != [] {
      FilterMembers(xs[1..], p);
      assert xs == [xs[0]] + xs[1..];
    }
  }

  /** The first element of a filter is the first element that passes it. */
  lemma {:induction false} FilterHead<T>(xs: seq<T>, p: T -> bool)
    requires Filter(xs, p) != []
    ensures exists k :: 0 <= k < |xs| && xs[k] == Filter(xs, p)[0] && p(xs[k]) &&
                        forall j :: 0 <= j < k ==> !p(xs[j])
    decreases xs
  {
    if !p(xs[0]) {
      FilterHead(xs[1..], p);
      var k :| 0 <= k < |xs[1..]| && xs[1..][k] == Filter(xs[1..], p)[0] && p(xs[1..][k]) &&
        forall j :: 0 <= j < k ==> !p(xs[1..][j]);
      assert xs[k + 1] == xs[1..][k];
      forall j | 0 <= j < k + 1 ensures !p(xs[j]) {
        if j > 0 {
          assert xs[j] == xs[1..][j - 1];
        }
      }
    }
  }

  /** `a` is an order-preserving subsequence of `b`. */
  ghost predicate IsSubseq<T>(a: seq<T>, b: seq<T>)
    decreases |b|
  {
    if b == [] then a == []
    else (a != [] && a[0] == b[0] && IsSubseq(a[1..], b[1..])) || IsSubseq(a, b[1..])
  }

  ghost predicate NoDup<T>(xs: seq<T>)
  {
    forall i, j :: 0 <= i < j < |xs| ==> xs[i] != xs[j]
  }

  /** The elements of a list, as a set. */
  ghost function Elems<T>(xs: seq<T>): set<T>
  {
    set x | x in xs
  }

  /** A list without repeats has as many elements as its set. */
  lemma {:induction false} NoDupCard<T>(xs: seq<T>)
    requires NoDup(xs)
    ensures |Elems(xs)| == |xs|
    decreases |xs|
  {
    if xs != [] {
      var init, last := xs[..|xs| - 1], xs[|xs| - 1];
      assert NoDup(init) by {
        forall i, j | 0 <= i < j < |init| ensures init[i] != init[j] {
          assert init[i] == xs[i] && init[j] == xs[j];
        }
      }
      NoDupCard(init);
      assert xs == init + [last];
      assert Elems(xs) == Elems(init) + {last};
      assert last !in Elems(init) by {
        forall k | 0 <= k < |init| ensures init[k] != last {
          assert init[k] == xs[k];
        }
      }
    }
  }

  /** Two lists without repeats that hold the same elements have the same length. */
  lemma SameElemsSameLength<T>(a: seq<T>, b: seq<T>)
    requires NoDup(a) && NoDup(b)
    requires forall x :: x in a <==> x in b
    ensures |a| == |b|
  {
    NoDupCard(a);
    NoDupCard(b);
    assert Elems(a) == Elems(b);
  }

  lemma {:induction false} FilterIsSubseq<T>(xs: seq<T>, p: T -> bool)
    ensures IsSubseq(Filter(xs, p), xs)
    decreases xs
  {
    if xs != [] {
      FilterIsSubseq(xs[1..], p);
      if p(xs[0]) {
        assert Filter(xs, p) == [xs[0]] + Filter(xs[1..], p);
        assert Filter(xs, p)[1..] == Filter(xs[1..], p);
      } else {
        assert Filter(xs, p) == Filter(xs[1..], p);
      }
    }
  }

  lemma {:induction false} FilterAppend<T>(xs: seq<T>, ys: seq<T>, p: T -> bool)
    ensures Filter(xs + ys, p) == Filter(xs, p) + Filter(ys, p)
    decreases xs
  {
    if xs == [] {
      assert xs + ys == ys;
    } else {
      var zs := xs + ys;
      assert zs[0] == xs[0];
      assert zs[1..] == xs[1..] + ys;
      FilterAppend(xs[1..], ys, p);
      var head := if p(xs[0]) then [xs[0]] else [];
      assert Filter(zs, p) == head + Filter(zs[1..], p);
      assert Filter(xs, p) == head + Filter(xs[1..], p);
    }
  }

  /** Nothing passes, so nothing is kept. */
  lemma {:induction false} FilterNone<T>(xs: seq<T>, p: T -> bool)
    requires forall k :: 0 <= k < |xs| ==> !p(xs[k])
    ensures Filter(xs, p) == []
    decreases xs
  {
    if xs != [] {
      FilterNone(xs[1..], p);
    }
  }

  /** Filtering with the same predicate twice changes nothing. */
  lemma {:induction false} FilterIdempotent<T>(xs: seq<T>, p: T -> bool)
    ensures Filter(Filter(xs, p), p) == Filter(xs, p)
  {
    FilterMembers(xs, p);
    FilterKeepsAll(Filter(xs, p), p);
  }

  /** A filter that every element passes is the identity. */
  lemma {:induction false} FilterKeepsAll<T>(xs: seq<T>, p: T -> bool)
    requires forall x :: x in xs ==> p(x)
    ensures Filter(xs, p) == xs
    decreases xs
  {
    if xs != [] {
      FilterKeepsAll(xs[1..], p);
    }
  }

  /** Two predicates that agree on the elements filter alike. */
  lemma {:induction false} FilterAgree<T>(xs: seq<T>, p: T -> bool, q: T -> bool)
    requires forall x :: x in xs ==> p(x) == q(x)
    ensures Filter(xs, p) == Filter(xs, q)
    decreases xs
  {
    if xs != [] {
      FilterAgree(xs[1..], p, q);
    }
  }

  /** Filtering never adds copies of an element. */
  lemma {:induction false} FilterMultiset<T>(xs: seq<T>, p: T -> bool)
    ensures multiset(Filter(xs, p)) <= multiset(xs)
    decreases xs
  {
    if xs != [] {
      FilterMultiset(xs[1..], p);
      assert xs == [xs[0]] + xs[1..];
    }
  }

  /** The filter keeps every copy of a passing element and none of a failing one. */
  lemma {:induction false} FilterCount<T>(xs: seq<T>, p: T -> bool, x: T)
    ensures multiset(Filter(xs, p))[x] == if p(x) then multiset(xs)[x] else 0
    decreases xs
  {
    if xs != [] {
      FilterCount(xs[1..], p, x);
      assert xs == [xs[0]] + xs[1..];
    }
  }

  /** Filtering two rearrangements of one list gives rearrangements of one result. */
  lemma FilterPerm<T>(xs: seq<T>, ys: seq<T>, p: T -> bool)
    requires multiset(xs) == multiset(ys)
    ensures multiset(Filter(xs, p)) == multiset(Filter(ys, p))
    ensures |Filter(xs, p)| == |Filter(ys, p)|
  {
    var m1, m2 := multiset(Filter(xs, p)), multiset(Filter(ys, p));
    forall x ensures m1[x] == m2[x] {
      FilterCount(xs, p, x);
      FilterCount(ys, p, x);
    }
    MultisetExt(m1, m2);
    assert |m1| == |m2|;
  }

  lemma MultisetExt<T>(a: multiset<T>, b: multiset<T>)
    requires forall x :: a[x] == b[x]
    ensures a == b
  {
  }

  /** The filter drops something exactly when some element fails `p`. */
  lemma {:induction false} FilterDropsIff<T>(xs: seq<T>, p: T -> bool)
    ensures |Filter(xs, p)| < |xs| <==> exists x :: x in xs && !p(x)
    decreases xs
  {
    if xs != [] {
      FilterDropsIff(xs[1..], p);
      assert xs == [xs[0]] + xs[1..];
      if exists x :: x in xs[1..] && !p(x) {
        var x :| x in xs[1..] && !p(x);
        assert x in xs;
      }
    }
  }

  lemma {:induction false} SubseqNoDup<T>(a: seq<T>, b: seq<T>)
    requires IsSubseq(a, b) && NoDup(b)
    ensures NoDup(a)
    decreases |b|
  {
    if b != [] {
      assert NoDup(b[1..]) by {
        forall i, j | 0 <= i < j < |b[1..]| ensures b[1..][i] != b[1..][j] {
          assert b[1..][i] == b[i + 1] && b[1..][j] == b[j + 1];
        }
      }
      if a != [] && a[0] == b[0] && IsSubseq(a[1..], b[1..]) {
        SubseqNoDup(a[1..], b[1..]);
        SubseqMembers(a[1..], b[1..]);
        forall i, j | 0 <= i < j < |a| ensures a[i] != a[j] {
          if i == 0 {
            assert a[j] == a[1..][j - 1];
            assert a[j] in b[1..];
            var k :| 0 <= k < |b[1..]| && b[1..][k] == a[j];
            assert b[k + 1] == a[j];
          } else {
            assert a[i] == a[1..][i - 1] && a[j] == a[1..][j - 1];
          }
        }
      } else {
        SubseqNoDup(a, b[1..]);
      }
    }
  }

  lemma {:induction false} SubseqMembers<T>(a: seq<T>, b: seq<T>)
    requires IsSubseq(a, b)
    ensures forall x :: x in a ==> x in b
    decreases |b|
  {
    if b != [] {
      if a != [] && a[0] == b[0] && IsSubseq(a[1..], b[1..]) {
        SubseqMembers(a[1..], b[1..]);
        assert a == [a[0]] + a[1..];
      } else {
        SubseqMembers(a, b[1..]);
      }
    }
  }

  lemma FilterNoDup<T>(xs: seq<T>, p: T -> bool)
    requires NoDup(xs)
    ensures NoDup(Filter(xs, p))
  {
    FilterIsSubseq(xs, p);
    SubseqNoDup(Filter(xs, p), xs);
  }

  /** The predicate `y !== x`, as a value. */
  function Differs<T(==)>(x: T): T -> bool
  {
    y => y != x
  }

  /** `xs.filter((y) => y !== x)`: every occurrence of `x` removed, the rest kept in order. */
  function RemoveAll<T(==)>(xs: seq<T>, x: T): seq<T>
  {
    Filter(xs, Differs(x))
  }

  /** `x` is gone, every other element keeps its membership. */
  lemma RemoveAllMembers<T>(xs: seq<T>, x: T)
    ensures x !in RemoveAll(xs, x)
    ensures forall y :: y != x ==> (y in RemoveAll(xs, x) <==> y in xs)
  {
    FilterMembers(xs, Differs(x));
  }

  /** Removing an element that is not there returns the list unchanged. */
  lemma RemoveAbsent<T>(xs: seq<T>, x: T)
    requires x !in xs
    ensures RemoveAll(xs, x) == xs
  {
    FilterKeepsAll(xs, Differs(x));
  }

  /** Removing `x` drops all its copies and keeps every other element as often as before. */
  lemma {:induction false} RemoveAllMultiset<T>(xs: seq<T>, x: T)
    ensures multiset(RemoveAll(xs, x)) == multiset(xs)[x := 0]
  {
    if xs != [] {
      RemoveAllMultiset(xs[1..], x);
      assert xs == [xs[0]] + xs[1..];
    }
  }

  /** In a duplicate-free list, removing a present element shortens it by exactly one. */
  lemma {:induction false} RemoveOnce<T>(xs: seq<T>, x: T)
    requires NoDup(xs) && x in xs
    ensures |RemoveAll(xs, x)| == |xs| - 1
  {
    var rest := xs[1..];
    assert NoDup(rest) by {
      forall i, j | 0 <= i < j < |rest| ensures rest[i] != rest[j] {
        assert rest[i] == xs[i + 1] && rest[j] == xs[j + 1];
      }
    }
    if xs[0] == x {
      assert x !in rest by {
        forall k | 0 <= k < |rest| ensures rest[k] != x {
          assert rest[k] == xs[k + 1];
        }
      }
      RemoveAbsent(rest, x);
    } else {
      RemoveOnce(rest, x);
    }
  }

  /** `xs.includes(x) ? xs.filter((y) => y !== x) : [...xs, x]`. */
  function Toggle<T(==)>(xs: seq<T>, x: T): seq<T>
  {
    if x in xs then RemoveAll(xs, x) else xs + [x]
  }

  /** Toggling flips the membership of `x` and of nothing else. */
  lemma ToggleMembership<T>(xs: seq<T>, x: T)
    ensures x in Toggle(xs, x) <==> x !in xs
    ensures forall y :: y != x ==> (y in Toggle(xs, x) <==> y in xs)
  {
    RemoveAllMembers(xs, x);
  }

  /** A selected element is removed everywhere; an unselected one goes to the end. */
  lemma ToggleShape<T>(xs: seq<T>, x: T)
    ensures x in xs ==> Toggle(xs, x) == Filter(xs, Differs(x)) && IsSubseq(Toggle(xs, x), xs)
    ensures x !in xs ==> Toggle(xs, x) == xs + [x] && |Toggle(xs, x)| == |xs| + 1
  {
    FilterIsSubseq(xs, Differs(x));
  }

  /** Toggling keeps a duplicate-free list duplicate-free. */
  lemma ToggleNoDup<T>(xs: seq<T>, x: T)
    ensures NoDup(xs) ==> NoDup(Toggle(xs, x))
  {
    if NoDup(xs) && x in xs {
      FilterNoDup(xs, Differs(x));
    }
  }

  /**
   * Toggling twice: an absent element comes back out and leaves the list as
   * it was; a present element is moved to the end, so the list is restored
   * exactly when the element was already last.
   */
  lemma ToggleTwice<T>(xs: seq<T>, x: T)
    requires NoDup(xs)
    ensures x !in xs ==> Toggle(Toggle(xs, x), x) == xs
    ensures x in xs ==> Toggle(Toggle(xs, x), x) == RemoveAll(xs, x) + [x]
    ensures x in xs ==> (Toggle(Toggle(xs, x), x) == xs <==> xs[|xs| - 1] == x)
  {
    RemoveAllMembers(xs, x);
    if x !in xs {
      FilterAppend(xs, [x], Differs(x));
      RemoveAbsent(xs, x);
      assert Filter([x], Differs(x)) == [];
    } else {
      var ys := xs[..|xs| - 1];
      assert xs == ys + [xs[|xs| - 1]];
      if xs[|xs| - 1] == x {
        assert x !in ys by {
          forall k | 0 <= k < |ys| ensures ys[k] != x {
            assert ys[k] == xs[k];
          }
        }
        FilterAppend(ys, [x], Differs(x));
        RemoveAbsent(ys, x);
        assert Filter([x], Differs(x)) == [];
      }
    }
  }

  /** Array.prototype.slice's index normalisation: negative counts from the end, then clamp. */
  function SliceIndex(i: int, n: nat): (r: nat)
    ensures r <= n
    ensures 0 <= i <= n ==> r == i
    ensures i > n ==> r == n
    ensures i < 0 ==> r == if n + i < 0 then 0 else n + i
  {
    if i < 0 then (if n + i < 0 then 0 else n + i)
    else if i > n then n
    else i
  }

  /** `xs.slice(start, end)`. */
  function Slice<T>(xs: seq<T>, start: int, end: int): (r: seq<T>)
    ensures |r| <= |xs|
  {
    var s := SliceIndex(start, |xs|);
    var e := SliceIndex(end, |xs|);
    if e <= s then [] else xs[s..e]
  }
}
