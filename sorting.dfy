/**
 * `Array.prototype.sort` with a comparator, as the analytics page uses it.
 * The engine's algorithm is not part of the page; what the page relies on is
 * the language's guarantee that the sort is stable. That behaviour is pinned
 * down here by insertion sort: `leq(a, b)` holds when the comparator does not
 * ask to move `b` in front of `a` (`compare(a, b) <= 0`).
 */
module Sorting {
  import opened Seqs

  /** The comparator describes a total preorder (consistent, as the language requires). */
  ghost predicate TotalPreorder<T(!new)>(leq: (T, T) -> bool)
  {
    && (forall a, b :: leq(a, b) || leq(b, a))
    && (forall a, b, c :: leq(a, b) && leq(b, c) ==> leq(a, c))
  }

  ghost predicate Sorted<T>(s: seq<T>, leq: (T, T) -> bool)
  {
    forall i, j :: 0 <= i < j < |s| ==> leq(s[i], s[j])
  }

  /** The elements the comparator cannot tell apart from `z`. */
  function TiedWith<T>(z: T, leq: (T, T) -> bool): T -> bool
  {
    y => leq(y, z) && leq(z, y)
  }

  /**
   * Where `x` goes among the already sorted `s`: just after the last element
   * that may precede it, scanning from the end.
   */
  function InsertPos<T>(s: seq<T>, x: T, leq: (T, T) -> bool): (p: nat)
    ensures p <= |s|
    decreases |s|
  {
    if s == [] then 0
    else if leq(s[|s| - 1], x) then |s|
    else InsertPos(s[..|s| - 1], x, leq)
  }

  /** Everything before the insertion point may precede `x`'s left neighbour; nothing after it may precede `x`. */
  lemma {:induction false} InsertPosSplits<T>(s: seq<T>, x: T, leq: (T, T) -> bool)
    ensures InsertPos(s, x, leq) > 0 ==> leq(s[InsertPos(s, x, leq) - 1], x)
    ensures forall k :: InsertPos(s, x, leq) <= k < |s| ==> !leq(s[k], x)
    decreases |s|
  {
    if s != [] && !leq(s[|s| - 1], x) {
      var init := s[..|s| - 1];
      InsertPosSplits(init, x, leq);
    }
  }

  function Insert<T>(s: seq<T>, x: T, leq: (T, T) -> bool): seq<T>
  {
    var p := InsertPos(s, x, leq);
    s[..p] + [x] + s[p..]
  }

  function InsertionSort<T>(xs: seq<T>, leq: (T, T) -> bool): seq<T>
    decreases |xs|
  {
    if xs == [] then []
    else Insert(InsertionSort(xs[..|xs| - 1], leq), xs[|xs| - 1], leq)
  }

  lemma {:induction false} InsertMultiset<T>(s: seq<T>, x: T, leq: (T, T) -> bool)
    ensures multiset(Insert(s, x, leq)) == multiset(s) + multiset{x}
  {
    var p := InsertPos(s, x, leq);
    assert s == s[..p] + s[p..];
  }

  lemma {:induction false} InsertSorted<T(!new)>(s: seq<T>, x: T, leq: (T, T) -> bool)
    requires TotalPreorder(leq) && Sorted(s, leq)
    ensures Sorted(Insert(s, x, leq), leq)
  {
    var p := InsertPos(s, x, leq);
    InsertPosSplits(s, x, leq);
    var r := Insert(s, x, leq);
    assert |r| == |s| + 1;
    assert forall k :: 0 <= k < p ==> r[k] == s[k];
    assert r[p] == x;
    assert forall k :: p < k < |r| ==> r[k] == s[k - 1];
    forall i, j | 0 <= i < j < |r| ensures leq(r[i], r[j]) {
      if j == p {
        assert leq(s[i], s[p - 1]) || i == p - 1;
      } else if i == p {
        assert !leq(s[j - 1], x);
      }
    }
  }

  /** Insertion sort yields a sorted permutation of its input. */
  lemma {:induction false} InsertionSortSorted<T(!new)>(xs: seq<T>, leq: (T, T) -> bool)
    requires TotalPreorder(leq)
    ensures Sorted(InsertionSort(xs, leq), leq)
    ensures multiset(InsertionSort(xs, leq)) == multiset(xs)
    decreases |xs|
  {
    if xs != [] {
      var init, last := xs[..|xs| - 1], xs[|xs| - 1];
      assert xs == init + [last];
      InsertionSortSorted(init, leq);
      InsertSorted(InsertionSort(init, leq), last, leq);
      InsertMultiset(InsertionSort(init, leq), last, leq);
    }
  }

  /** When `x` is tied with `z`, nothing after its insertion point is. */
  lemma {:induction false} NoTieAfterInsertPos<T(!new)>(s: seq<T>, x: T, z: T, leq: (T, T) -> bool)
    requires TotalPreorder(leq) && TiedWith(z, leq)(x)
    ensures Filter(s[InsertPos(s, x, leq)..], TiedWith(z, leq)) == []
  {
    var p := InsertPos(s, x, leq);
    InsertPosSplits(s, x, leq);
    var post := s[p..];
    forall k | 0 <= k < |post| ensures !TiedWith(z, leq)(post[k]) {
      assert !leq(s[p + k], x);
    }
    FilterNone(post, TiedWith(z, leq));
  }

  lemma {:induction false} InsertFilterTied<T(!new)>(s: seq<T>, x: T, z: T, leq: (T, T) -> bool)
    requires TotalPreorder(leq)
    ensures Filter(Insert(s, x, leq), TiedWith(z, leq))
         == Filter(s, TiedWith(z, leq)) + Filter([x], TiedWith(z, leq))
  {
    var tied := TiedWith(z, leq);
    var p := InsertPos(s, x, leq);
    var pre, post := s[..p], s[p..];
    assert s == pre + post;
    assert Insert(s, x, leq) == (pre + [x]) + post;
    FilterAppend(pre + [x], post, tied);
    FilterAppend(pre, [x], tied);
    FilterAppend(pre, post, tied);
    var fPre, fX, fPost := Filter(pre, tied), Filter([x], tied), Filter(post, tied);
    assert Filter(Insert(s, x, leq), tied) == fPre + fX + fPost;
    assert Filter(s, tied) == fPre + fPost;
    if tied(x) {
      NoTieAfterInsertPos(s, x, z, leq);
      assert fPost == [];
      assert fPre + fX + fPost == fPre + fX;
    } else {
      assert fX == [];
      assert fPre + fX + fPost == fPre + fPost;
    }
  }

  /**
   * Stability: among the elements the comparator considers equal, the sort
   * keeps the input order.
   */
  lemma {:induction false} InsertionSortStable<T(!new)>(xs: seq<T>, z: T, leq: (T, T) -> bool)
    requires TotalPreorder(leq)
    ensures Filter(InsertionSort(xs, leq), TiedWith(z, leq)) == Filter(xs, TiedWith(z, leq))
    decreases |xs|
  {
    if xs != [] {
      var init, last := xs[..|xs| - 1], xs[|xs| - 1];
      assert xs == init + [last];
      InsertionSortStable(init, z, leq);
      InsertFilterTied(InsertionSort(init, leq), last, z, leq);
      FilterAppend(init, [last], TiedWith(z, leq));
    }
  }

  /** A filter of a sorted list is sorted. */
  lemma {:induction false} FilterSorted<T>(xs: seq<T>, p: T -> bool, leq: (T, T) -> bool)
    requires Sorted(xs, leq)
    ensures Sorted(Filter(xs, p), leq)
    decreases xs
  {
    if xs != [] {
      var tail := xs[1..];
      assert Sorted(tail, leq) by {
        forall i, j | 0 <= i < j < |tail| ensures leq(tail[i], tail[j]) {
          assert tail[i] == xs[i + 1] && tail[j] == xs[j + 1];
        }
      }
      FilterSorted(tail, p, leq);
      var rest := Filter(tail, p);
      if p(xs[0]) {
        FilterMembers(tail, p);
        var r := [xs[0]] + rest;
        forall i, j | 0 <= i < j < |r| ensures leq(r[i], r[j]) {
          assert r[j] == rest[j - 1];
          if i == 0 {
            assert rest[j - 1] in tail;
            var k :| 0 <= k < |tail| && tail[k] == rest[j - 1];
            assert xs[k + 1] == r[j];
          } else {
            assert r[i] == rest[i - 1];
          }
        }
      }
    }
  }

  /** Sorting a list that is already sorted leaves it as it is. */
  lemma {:induction false} InsertionSortOfSorted<T>(xs: seq<T>, leq: (T, T) -> bool)
    requires Sorted(xs, leq)
    ensures InsertionSort(xs, leq) == xs
    decreases |xs|
  {
    if xs != [] {
      var init, last := xs[..|xs| - 1], xs[|xs| - 1];
      assert Sorted(init, leq) by {
        forall i, j | 0 <= i < j < |init| ensures leq(init[i], init[j]) {
          assert init[i] == xs[i] && init[j] == xs[j];
        }
      }
      InsertionSortOfSorted(init, leq);
      if init != [] {
        assert leq(xs[|init| - 1], last);
      }
      assert InsertPos(init, last, leq) == |init|;
      assert xs == init + [last];
    }
  }

  /** One pass of the in-place sort: move `a[i]` down into the sorted prefix. */
  method InsertInPlace<T>(a: array<T>, i: nat, leq: (T, T) -> bool)
    requires i < a.Length
    modifies a
    ensures a[..i + 1] == Insert(old(a[..i]), old(a[i]), leq)
    ensures a[i + 1..] == old(a[i + 1..])
  {
    ghost var s := a[..i];
    var x := a[i];
    var j := i;
    assert s[..j] == s;
    while j > 0 && !leq(a[j - 1], x)
      invariant 0 <= j <= i
      invariant forall k :: 0 <= k < j ==> a[k] == s[k]
      invariant forall k :: j < k <= i ==> a[k] == s[k - 1]
      invariant forall k :: i < k < a.Length ==> a[k] == old(a[k])
      invariant InsertPos(s, x, leq) == InsertPos(s[..j], x, leq)
    {
      assert s[..j][..j - 1] == s[..j - 1];
      a[j] := a[j - 1];
      j := j - 1;
    }
    a[j] := x;
    InsertPlaced(a[..], s, i, j, x, leq);
  }

  /** Once the gap at `j` is filled with `x`, the prefix is `Insert(s, x)`. */
  lemma {:induction false} InsertPlaced<T>(t: seq<T>, s: seq<T>, i: nat, j: nat, x: T, leq: (T, T) -> bool)
    requires j <= i == |s| < |t| && t[j] == x
    requires forall k :: 0 <= k < j ==> t[k] == s[k]
    requires forall k :: j < k <= i ==> t[k] == s[k - 1]
    requires j == 0 || leq(s[j - 1], x)
    requires InsertPos(s, x, leq) == InsertPos(s[..j], x, leq)
    ensures t[..i + 1] == Insert(s, x, leq)
  {
    if j > 0 {
      assert s[..j][j - 1] == s[j - 1];
    }
    assert InsertPos(s, x, leq) == j;
    assert t[..i + 1] == s[..j] + [x] + s[j..];
  }

  lemma InsertionSortStep<T>(xs: seq<T>, i: nat, leq: (T, T) -> bool)
    requires i < |xs|
    ensures InsertionSort(xs[..i + 1], leq) == Insert(InsertionSort(xs[..i], leq), xs[i], leq)
  {
    assert xs[..i + 1][..i] == xs[..i];
  }

  /** The sort as the page invokes it: in place on the array it is given. */
  method SortInPlace<T>(a: array<T>, leq: (T, T) -> bool)
    modifies a
    ensures a[..] == InsertionSort(old(a[..]), leq)
  {
    ghost var orig := a[..];
    var i := 0;
    while i < a.Length
      invariant 0 <= i <= a.Length
      invariant a[..i] == InsertionSort(orig[..i], leq)
      invariant a[i..] == orig[i..]
    {
      ghost var before := a[..];
      assert before[i] == orig[i] by {
        assert before[i..][0] == orig[i..][0];
      }
      InsertInPlace(a, i, leq);
      InsertionSortStep(orig, i, leq);
      assert a[i + 1..] == orig[i + 1..] by {
        assert before[i + 1..] == before[i..][1..];
        assert orig[i + 1..] == orig[i..][1..];
      }
      i := i + 1;
    }
    assert orig[..a.Length] == orig;
    assert a[..a.Length] == a[..];
  }
}
