/**
 * The pager of `components/pagination.tsx`: the "Showing X to Y" bounds, the
 * strip of page buttons with `...` gaps, and the navigation buttons.
 */
module Pagination {
  import opened Dashboard

  /** How many pages either side of the current one the strip shows. */
  const Delta: int := 2

  /** One button of the strip: a page number, or a disabled `...`. */
  datatype PageEntry = Page(n: int) | Gap

  /** `startItem`: the 1-based position of the first item on the page. */
  function StartItem(currentPage: int, pageSize: int): int
  {
    (currentPage - 1) * pageSize + 1
  }

  /** `endItem`: the 1-based position of the last item on the page. */
  function EndItem(currentPage: int, pageSize: int, totalItems: int): int
  {
    Min(currentPage * pageSize, totalItems)
  }

  /**
   * On a page between 1 and the page count, "Showing X to Y" names exactly
   * the items the page displays: positions X to Y of the list, 1-based.
   */
  lemma ShowingBounds<T>(items: seq<T>, currentPage: int, pageSize: int)
    requires pageSize > 0 && 1 <= currentPage <= TotalPages(|items|, pageSize)
    ensures 1 <= StartItem(currentPage, pageSize) <= EndItem(currentPage, pageSize, |items|) <= |items|
    ensures PageSlice(items, currentPage, pageSize) ==
      items[StartItem(currentPage, pageSize) - 1..EndItem(currentPage, pageSize, |items|)]
    ensures |PageSlice(items, currentPage, pageSize)| ==
      EndItem(currentPage, pageSize, |items|) - StartItem(currentPage, pageSize) + 1
  {
    PageWindow(items, currentPage, pageSize);
    PageStartInside(|items|, currentPage, pageSize);
    var start := (currentPage - 1) * pageSize;
    assert currentPage * pageSize == start + pageSize;
    assert 0 <= start < |items|;
  }

  /** The entries `Page(lo), Page(lo + 1), ..., Page(hi)`, empty when `lo > hi`. */
  function Run(lo: int, hi: int): (r: seq<PageEntry>)
    ensures |r| == if lo <= hi then hi - lo + 1 else 0
    ensures forall i :: 0 <= i < |r| ==> r[i] == Page(lo + i)
  {
    if lo > hi then [] else seq(hi - lo + 1, i => Page(lo + i))
  }

  function Max(a: int, b: int): int
  {
    if a >= b then a else b
  }

  /** The first page of the middle block. */
  function WindowStart(currentPage: int): int
  {
    Max(2, currentPage - Delta)
  }

  /** The last page of the middle block. */
  function WindowEnd(currentPage: int, totalPages: int): int
  {
    Min(totalPages - 1, currentPage + Delta)
  }

  function Head(currentPage: int): seq<PageEntry>
  {
    if currentPage - Delta > 2 then [Page(1), Gap] else [Page(1)]
  }

  function Tail(currentPage: int, totalPages: int): seq<PageEntry>
  {
    if currentPage + Delta < totalPages - 1 then [Gap, Page(totalPages)]
    else if totalPages > 1 then [Page(totalPages)]
    else []
  }

  /** What `getVisiblePages` returns: page 1, the window, the last page, with gaps. */
  function VisiblePages(currentPage: int, totalPages: int): seq<PageEntry>
  {
    Head(currentPage) + Run(WindowStart(currentPage), WindowEnd(currentPage, totalPages))
    + Tail(currentPage, totalPages)
  }

  /** `getVisiblePages`: the `for` loop fills the window, then the pieces are pushed. */
  method GetVisiblePages(currentPage: int, totalPages: int) returns (rangeWithDots: seq<PageEntry>)
    ensures rangeWithDots == VisiblePages(currentPage, totalPages)
  {
    var lo := Max(2, currentPage - Delta);
    var range: seq<int> := [];
    var i := lo;
    while i <= Min(totalPages - 1, currentPage + Delta)
      invariant lo <= i
      invariant i <= Max(lo, WindowEnd(currentPage, totalPages) + 1)
      invariant |range| == i - lo
      invariant forall k :: 0 <= k < |range| ==> range[k] == lo + k
      decreases WindowEnd(currentPage, totalPages) - i
    {
      range := range + [i];
      i := i + 1;
    }
    if currentPage - Delta > 2 {
      rangeWithDots := [Page(1), Gap];
    } else {
      rangeWithDots := [Page(1)];
    }
    var pages := seq(|range|, k requires 0 <= k < |range| => Page(range[k]));
    assert pages == Run(WindowStart(currentPage), WindowEnd(currentPage, totalPages));
    rangeWithDots := rangeWithDots + pages;
    if currentPage + Delta < totalPages - 1 {
      rangeWithDots := rangeWithDots + [Gap, Page(totalPages)];
    } else if totalPages > 1 {
      rangeWithDots := rangeWithDots + [Page(totalPages)];
    }
  }

  /** The strip always starts with page 1; it ends with the last page when there is more than one. */
  lemma VisiblePagesEnds(currentPage: int, totalPages: int)
    ensures var r := VisiblePages(currentPage, totalPages); |r| > 0 && r[0] == Page(1)
    ensures var r := VisiblePages(currentPage, totalPages);
      totalPages > 1 ==> r[|r| - 1] == Page(totalPages)
    ensures 1 <= currentPage <= totalPages == 1 ==> VisiblePages(currentPage, totalPages) == [Page(1)]
  {
  }

  /**
   * A leading gap follows page 1 exactly when `currentPage - 2 > 2`; a trailing
   * gap precedes the last page exactly when `currentPage + 2 < totalPages - 1`.
   */
  lemma VisiblePagesGaps(currentPage: int, totalPages: int)
    requires 1 <= currentPage <= totalPages
    ensures var r := VisiblePages(currentPage, totalPages);
      |r| >= 2 ==> (r[1] == Gap <==> currentPage - Delta > 2)
    ensures var r := VisiblePages(currentPage, totalPages);
      |r| >= 2 ==> (r[|r| - 2] == Gap <==> currentPage + Delta < totalPages - 1)
    ensures var r := VisiblePages(currentPage, totalPages);
      Gap in r <==> currentPage - Delta > 2 || currentPage + Delta < totalPages - 1
  {
    var r := VisiblePages(currentPage, totalPages);
    var h, m, t := Head(currentPage), Run(WindowStart(currentPage), WindowEnd(currentPage, totalPages)), Tail(currentPage, totalPages);
    assert r == h + m + t;
    assert Gap !in m;
    if currentPage - Delta > 2 {
      assert r[1] == Gap;
    } else if |r| >= 2 {
      assert r[1] == if |m| > 0 then m[0] else t[0];
    }
    if currentPage + Delta < totalPages - 1 {
      assert r[|r| - 2] == Gap;
    } else if |r| >= 2 {
      assert r[|r| - 2] == if |m| > 0 then m[|m| - 1] else h[|h| - 1];
    }
  }

  /** The window is non-empty whenever there are at least three pages, and never reaches page 1 or the last page. */
  lemma WindowBounds(currentPage: int, totalPages: int)
    requires 1 <= currentPage <= totalPages
    ensures totalPages >= 3 ==> WindowStart(currentPage) <= WindowEnd(currentPage, totalPages)
    ensures 2 <= WindowStart(currentPage) && WindowEnd(currentPage, totalPages) <= totalPages - 1
    ensures currentPage - Delta <= 2 ==> WindowStart(currentPage) == 2
    ensures currentPage + Delta >= totalPages - 1 ==> WindowEnd(currentPage, totalPages) == totalPages - 1
  {
  }

  /** Every page number in the strip lies in `[1, totalPages]`, and the current page is among them. */
  lemma VisiblePagesRange(currentPage: int, totalPages: int)
    requires 1 <= currentPage <= totalPages
    ensures var r := VisiblePages(currentPage, totalPages);
      forall i :: 0 <= i < |r| && r[i].Page? ==> 1 <= r[i].n <= totalPages
    ensures Page(currentPage) in VisiblePages(currentPage, totalPages)
  {
    var r := VisiblePages(currentPage, totalPages);
    var h := Head(currentPage);
    var lo, hi := WindowStart(currentPage), WindowEnd(currentPage, totalPages);
    var m := Run(lo, hi);
    var t := Tail(currentPage, totalPages);
    assert r == h + m + t;
    WindowBounds(currentPage, totalPages);
    forall i | 0 <= i < |r| && r[i].Page? ensures 1 <= r[i].n <= totalPages {
      if i < |h| {
        assert r[i] == h[i];
      } else if i < |h| + |m| {
        assert r[i] == m[i - |h|];
      } else {
        assert r[i] == t[i - |h| - |m|];
      }
    }
    if 1 < currentPage < totalPages {
      assert r[|h| + currentPage - lo] == m[currentPage - lo];
    } else if currentPage == totalPages && totalPages > 1 {
      assert r[|r| - 1] == Page(totalPages);
    } else {
      assert r[0] == Page(1);
    }
  }

  /** Two neighbouring page numbers are consecutive. */
  ghost predicate NoHiddenPage(r: seq<PageEntry>)
  {
    forall i :: 0 <= i < |r| - 1 && r[i].Page? && r[i + 1].Page? ==> r[i + 1].n == r[i].n + 1
  }

  /** Every gap sits between two page numbers and hides at least one page. */
  ghost predicate GapsHidePages(r: seq<PageEntry>)
  {
    forall i :: 0 <= i < |r| && r[i] == Gap ==>
      0 < i < |r| - 1 && r[i - 1].Page? && r[i + 1].Page? && r[i + 1].n >= r[i - 1].n + 2
  }

  ghost predicate WellSpaced(r: seq<PageEntry>)
  {
    NoHiddenPage(r) && GapsHidePages(r)
  }

  lemma {:induction false} JoinNoHiddenPage(a: seq<PageEntry>, b: seq<PageEntry>)
    requires NoHiddenPage(a) && NoHiddenPage(b)
    requires a != [] && b != [] && a[|a| - 1].Page? && b[0].Page? ==> b[0].n == a[|a| - 1].n + 1
    ensures NoHiddenPage(a + b)
  {
    var r := a + b;
    forall i | 0 <= i < |r| - 1 && r[i].Page? && r[i + 1].Page? ensures r[i + 1].n == r[i].n + 1 {
      if i + 1 < |a| {
        assert r[i] == a[i] && r[i + 1] == a[i + 1];
      } else if i + 1 == |a| {
        assert r[i] == a[|a| - 1] && r[i + 1] == b[0];
      } else {
        assert r[i] == b[i - |a|] && r[i + 1] == b[i + 1 - |a|];
      }
    }
  }

  lemma {:induction false} JoinGapsHidePages(a: seq<PageEntry>, b: seq<PageEntry>)
    requires GapsHidePages(a) && GapsHidePages(b)
    ensures GapsHidePages(a + b)
  {
    var r := a + b;
    forall i | 0 <= i < |r| && r[i] == Gap
      ensures 0 < i < |r| - 1 && r[i - 1].Page? && r[i + 1].Page? && r[i + 1].n >= r[i - 1].n + 2
    {
      if i < |a| {
        assert a[i] == Gap;
        assert r[i - 1] == a[i - 1] && r[i + 1] == a[i + 1];
      } else {
        var j := i - |a|;
        assert b[j] == Gap;
        assert r[i - 1] == b[j - 1] && r[i + 1] == b[j + 1];
      }
    }
  }

  /** Joining two well-spaced strips whose seam is two consecutive pages keeps them well spaced. */
  lemma JoinWellSpaced(a: seq<PageEntry>, b: seq<PageEntry>)
    requires WellSpaced(a) && WellSpaced(b)
    requires a == [] || b == [] || (a[|a| - 1].Page? && b[0].Page? && b[0].n == a[|a| - 1].n + 1)
    ensures WellSpaced(a + b)
  {
    JoinNoHiddenPage(a, b);
    JoinGapsHidePages(a, b);
  }

  /** A gap between two well-spaced strips is well placed when it hides at least one page. */
  lemma {:induction false} GapJoinWellSpaced(a: seq<PageEntry>, b: seq<PageEntry>)
    requires WellSpaced(a) && WellSpaced(b) && a != [] && b != []
    requires a[|a| - 1].Page? && b[0].Page? && b[0].n >= a[|a| - 1].n + 2
    ensures WellSpaced(a + [Gap] + b)
  {
    JoinNoHiddenPage(a, [Gap]);
    JoinNoHiddenPage(a + [Gap], b);
    var r := a + [Gap] + b;
    forall i | 0 <= i < |r| && r[i] == Gap
      ensures 0 < i < |r| - 1 && r[i - 1].Page? && r[i + 1].Page? && r[i + 1].n >= r[i - 1].n + 2
    {
      if i < |a| {
        assert a[i] == Gap;
        assert r[i - 1] == a[i - 1] && r[i + 1] == a[i + 1];
      } else if i == |a| {
        assert r[i - 1] == a[|a| - 1] && r[i + 1] == b[0];
      } else {
        var j := i - |a| - 1;
        assert b[j] == Gap;
        assert r[i - 1] == b[j - 1] && r[i + 1] == b[j + 1];
      }
    }
  }

  /** A run of consecutive pages is well spaced. */
  lemma RunWellSpaced(lo: int, hi: int)
    ensures WellSpaced(Run(lo, hi))
  {
  }

  /** Page 1 and the window, with the leading gap when there is one. */
  lemma {:induction false} FrontWellSpaced(currentPage: int, totalPages: int)
    requires 1 <= currentPage <= totalPages
    ensures var f := Head(currentPage) + Run(WindowStart(currentPage), WindowEnd(currentPage, totalPages));
      WellSpaced(f) && f != [] &&
      f[|f| - 1] == Page(if totalPages >= 3 then WindowEnd(currentPage, totalPages) else 1)
  {
    var lo, hi := WindowStart(currentPage), WindowEnd(currentPage, totalPages);
    var m := Run(lo, hi);
    WindowBounds(currentPage, totalPages);
    RunWellSpaced(lo, hi);
    RunWellSpaced(1, 1);
    if currentPage - Delta > 2 {
      GapJoinWellSpaced([Page(1)], m);
      assert [Page(1)] + [Gap] + m == Head(currentPage) + m;
    } else {
      JoinWellSpaced([Page(1)], m);
    }
  }

  /** In a well-spaced strip, a page number further right is larger. */
  lemma {:induction false} WellSpacedIncreasing(r: seq<PageEntry>, i: int, j: int)
    requires WellSpaced(r) && 0 <= i < j < |r| && r[i].Page? && r[j].Page?
    ensures r[i].n < r[j].n
    decreases j - i
  {
    if r[j - 1].Page? {
      if j - 1 > i {
        WellSpacedIncreasing(r, i, j - 1);
      }
    } else {
      assert r[j - 1] == Gap;
      if j - 2 > i {
        WellSpacedIncreasing(r, i, j - 2);
      }
    }
  }

  /**
   * Reading the strip left to right, a page is followed either by the next
   * page or by a gap and then a page at least two further on: a gap always
   * hides at least one page, and no page is missing without a gap.
   */
  lemma VisiblePagesSpacing(currentPage: int, totalPages: int)
    requires 1 <= currentPage <= totalPages
    ensures WellSpaced(VisiblePages(currentPage, totalPages))
    ensures var r := VisiblePages(currentPage, totalPages);
      forall i, j :: 0 <= i < j < |r| && r[i].Page? && r[j].Page? ==> r[i].n < r[j].n
  {
    var front := Head(currentPage) + Run(WindowStart(currentPage), WindowEnd(currentPage, totalPages));
    FrontWellSpaced(currentPage, totalPages);
    WindowBounds(currentPage, totalPages);
    RunWellSpaced(totalPages, totalPages);
    if currentPage + Delta < totalPages - 1 {
      GapJoinWellSpaced(front, [Page(totalPages)]);
      assert front + [Gap] + [Page(totalPages)] == VisiblePages(currentPage, totalPages);
    } else if totalPages > 1 {
      JoinWellSpaced(front, [Page(totalPages)]);
    } else {
      assert front + [] == front;
    }
    var r := VisiblePages(currentPage, totalPages);
    forall i, j | 0 <= i < j < |r| && r[i].Page? && r[j].Page? ensures r[i].n < r[j].n {
      WellSpacedIncreasing(r, i, j);
    }
  }

  /** First and previous are disabled on page 1. */
  predicate BackDisabled(currentPage: int)
  {
    currentPage == 1
  }

  /** Next and last are disabled on the last page. */
  predicate ForwardDisabled(currentPage: int, totalPages: int)
  {
    currentPage == totalPages
  }

  /**
   * From a page in range, every enabled navigation button leads to a page in
   * range: first and last always, previous and next when not disabled.
   */
  lemma NavigationInRange(currentPage: int, totalPages: int)
    requires 1 <= currentPage <= totalPages
    ensures !BackDisabled(currentPage) ==> 1 <= currentPage - 1 <= totalPages
    ensures !ForwardDisabled(currentPage, totalPages) ==> 1 <= currentPage + 1 <= totalPages
    ensures BackDisabled(currentPage) <==> currentPage - 1 < 1
    ensures ForwardDisabled(currentPage, totalPages) <==> currentPage + 1 > totalPages
  {
  }
}
