/**
  The page-number strip of `components/pagination.tsx`: which page buttons
  and `...` markers are shown for the current page and the page count, and
  when the previous/next buttons are disabled.
*/
module Pagination {
  import opened Wrappers

  /** One entry of the strip: a page button or a `...` marker. */
  datatype PageItem = Page(n: int) | Ellipsis

  /** A button: the page it asks for when clicked, and whether it is disabled. */
  datatype Button = Button(target: int, disabled: bool)

  /** What the component renders when it renders anything. */
  datatype Bar = Bar(prev: Button, items: seq<PageItem>, next: Button)

  function Max(a: int, b: int): int { if a >= b then a else b }
  function Min(a: int, b: int): int { if a <= b then a else b }

  /** The integers `lo, lo + 1, ..., hi` (empty when `hi < lo`). */
  function Range(lo: int, hi: int): seq<int>
  {
    seq(if lo <= hi then hi - lo + 1 else 0, k => lo + k)
  }

  /** Page buttons for the given numbers, in order. */
  function Pages(ps: seq<int>): seq<PageItem>
  {
    seq(|ps|, k requires 0 <= k < |ps| => Page(ps[k]))
  }

  /**
    The list that `getPageNumbers` builds: every page when there are at most
    seven; otherwise page 1, a `...` when the current page is past 3, the
    window `max(2, c - 1) .. min(t - 1, c + 1)`, a `...` when the current page
    is before `t - 2`, and the last page.
  */
  function PageList(current: int, total: int): seq<PageItem>
  {
    if total <= 7 then Pages(Range(1, total))
    else
      [Page(1)]
      + (if current > 3 then [Ellipsis] else [])
      + Pages(Range(Max(2, current - 1), Min(total - 1, current + 1)))
      + (if current < total - 2 then [Ellipsis] else [])
      + [Page(total)]
  }

  lemma PagesRangeSnoc(lo: int, hi: int)
    requires lo <= hi + 1
    ensures Pages(Range(lo, hi + 1)) == Pages(Range(lo, hi)) + [Page(hi + 1)]
  {
  }

  /** The `for (let i = lo; i <= hi; i++) pages.push(i)` loop of `getPageNumbers`. */
  method PushRange(pages: seq<PageItem>, lo: int, hi: int) returns (r: seq<PageItem>)
    ensures r == pages + Pages(Range(lo, hi))
  {
    r := pages;
    var i := lo;
    while i <= hi
      invariant lo <= i <= Max(lo, hi + 1)
      invariant r == pages + Pages(Range(lo, i - 1))
    {
      PagesRangeSnoc(lo, i - 1);
      r := r + [Page(i)];
      i := i + 1;
    }
  }

  /** `getPageNumbers` as the source runs it: push page numbers and markers onto a list. */
  method PageNumbers(currentPage: int, totalPages: int) returns (pages: seq<PageItem>)
    ensures pages == PageList(currentPage, totalPages)
  {
    pages := [];
    if totalPages <= 7 {
      pages := PushRange(pages, 1, totalPages);
    } else {
      pages := pages + [Page(1)];
      if currentPage > 3 {
        pages := pages + [Ellipsis];
      }
      ghost var lead := pages;
      var start := Max(2, currentPage - 1);
      var end := Min(totalPages - 1, currentPage + 1);
      pages := PushRange(pages, start, end);
      ghost var run := pages;
      if currentPage < totalPages - 2 {
        pages := pages + [Ellipsis];
      }
      assert pages == run + (if currentPage < totalPages - 2 then [Ellipsis] else []);
      pages := pages + [Page(totalPages)];
      assert lead == [Page(1)] + (if currentPage > 3 then [Ellipsis] else []);
    }
  }

  /** The buttons rendered around the strip: "previous" asks for `c - 1`, "next" for `c + 1`. */
  function Controls(current: int, total: int): Bar {
    Bar(Button(current - 1, current == 1), PageList(current, total), Button(current + 1, current == total))
  }

  /**
    The `Pagination` component: nothing when there is at most one page;
    otherwise the strip, with "previous" disabled exactly on the first page
    and "next" exactly on the last.
  */
  method Render(currentPage: int, totalPages: int) returns (view: Option<Bar>)
    ensures view.None? <==> totalPages <= 1
    ensures view.Some? ==> view.value.items == PageList(currentPage, totalPages)
    ensures view.Some? ==> (view.value.prev.disabled <==> currentPage == 1)
    ensures view.Some? ==> (view.value.next.disabled <==> currentPage == totalPages)
    ensures view.Some? ==> view.value == Controls(currentPage, totalPages)
  {
    if totalPages <= 1 {
      return None;
    }
    var items := PageNumbers(currentPage, totalPages);
    var prev := Button(currentPage - 1, currentPage == 1);
    var next := Button(currentPage + 1, currentPage == totalPages);
    view := Some(Bar(prev, items, next));
  }

  // ---------------------------------------------------------------------------
  // An independent description: the shown pages with a marker at every gap
  // ---------------------------------------------------------------------------

  /** Strictly increasing. */
  predicate Increasing(ps: seq<int>) {
    forall i, j :: 0 <= i < j < |ps| ==> ps[i] < ps[j]
  }

  /**
    The page buttons for the numbers `ps`, with a `...` marker between two
    neighbours exactly when pages are skipped between them.
  */
  function WithGaps(ps: seq<int>): (r: seq<PageItem>)
    ensures |r| >= |ps|
    ensures ps != [] ==> r[0] == Page(ps[0]) && r[|r| - 1] == Page(ps[|ps| - 1])
    decreases |ps|
  {
    if |ps| <= 1 then Pages(ps)
    else [Page(ps[0])] + (if ps[1] - ps[0] > 1 then [Ellipsis] else []) + WithGaps(ps[1..])
  }

  /** The page numbers of a strip, markers dropped. */
  function Numbers(r: seq<PageItem>): seq<int>
  {
    if r == [] then [] else (if r[0].Page? then [r[0].n] else []) + Numbers(r[1..])
  }

  lemma {:induction false} NumbersAppend(a: seq<PageItem>, b: seq<PageItem>)
    ensures Numbers(a + b) == Numbers(a) + Numbers(b)
  {
    if a != [] {
      assert (a + b)[1..] == a[1..] + b;
      NumbersAppend(a[1..], b);
    } else {
      assert a + b == b;
    }
  }

  lemma {:induction false} NumbersOfPages(ps: seq<int>)
    ensures Numbers(Pages(ps)) == ps
  {
    if ps != [] {
      assert Pages(ps)[1..] == Pages(ps[1..]);
      NumbersOfPages(ps[1..]);
    }
  }

  /** Dropping the markers gives the page numbers back. */
  lemma {:induction false} NumbersOfWithGaps(ps: seq<int>)
    ensures Numbers(WithGaps(ps)) == ps
    decreases |ps|
  {
    if |ps| <= 1 {
      NumbersOfPages(ps);
    } else {
      var gap: seq<PageItem> := if ps[1] - ps[0] > 1 then [Ellipsis] else [];
      NumbersOfWithGaps(ps[1..]);
      NumbersAppend([Page(ps[0])] + gap, WithGaps(ps[1..]));
      NumbersAppend([Page(ps[0])], gap);
      assert Numbers([Page(ps[0])]) == [ps[0]];
      assert ps == [ps[0]] + ps[1..];
    }
  }

  /** Neighbouring page buttons of the strip are consecutive pages. */
  predicate NeighboursConsecutive(r: seq<PageItem>) {
    forall i :: 0 <= i < |r| - 1 && r[i].Page? && r[i + 1].Page? ==> r[i + 1].n == r[i].n + 1
  }

  /** Every `...` of the strip sits between two page buttons with at least one page left out between them. */
  predicate MarkersAtGaps(r: seq<PageItem>) {
    forall i :: 0 <= i < |r| && r[i].Ellipsis? ==>
      && 0 < i < |r| - 1
      && r[i - 1].Page? && r[i + 1].Page?
      && r[i + 1].n >= r[i - 1].n + 2
  }

  /** The strip marks its gaps, and only its gaps. */
  predicate GapMarked(r: seq<PageItem>) {
    NeighboursConsecutive(r) && MarkersAtGaps(r)
  }

  lemma {:induction false} WithGapsNeighbours(ps: seq<int>)
    requires Increasing(ps)
    ensures NeighboursConsecutive(WithGaps(ps))
    decreases |ps|
  {
    if |ps| > 1 {
      var tail := ps[1..];
      WithGapsNeighbours(tail);
      var rest := WithGaps(tail);
      var gap: seq<PageItem> := if ps[1] - ps[0] > 1 then [Ellipsis] else [];
      var head := [Page(ps[0])] + gap;
      var r := head + rest;
      assert rest[0] == Page(ps[1]);
      forall i | 0 <= i < |r| - 1 && r[i].Page? && r[i + 1].Page?
        ensures r[i + 1].n == r[i].n + 1
      {
        if i >= |head| {
          assert r[i] == rest[i - |head|] && r[i + 1] == rest[i + 1 - |head|];
        }
      }
    }
  }

  lemma {:induction false} WithGapsMarkers(ps: seq<int>)
    requires Increasing(ps)
    ensures MarkersAtGaps(WithGaps(ps))
    decreases |ps|
  {
    if |ps| > 1 {
      var tail := ps[1..];
      WithGapsMarkers(tail);
      var rest := WithGaps(tail);
      var gap: seq<PageItem> := if ps[1] - ps[0] > 1 then [Ellipsis] else [];
      var head := [Page(ps[0])] + gap;
      var r := head + rest;
      assert rest[0] == Page(ps[1]);
      assert ps[0] < ps[1];
      forall i | 0 <= i < |r| && r[i].Ellipsis?
        ensures 0 < i < |r| - 1 && r[i - 1].Page? && r[i + 1].Page? && r[i + 1].n >= r[i - 1].n + 2
      {
        if i > |head| {
          assert r[i] == rest[i - |head|];
          assert r[i - 1] == rest[i - 1 - |head|] && r[i + 1] == rest[i + 1 - |head|];
        }
      }
    }
  }

  /** The shown pages with a marker at every gap: the strip marks its gaps. */
  lemma WithGapsMarksGaps(ps: seq<int>)
    requires Increasing(ps)
    ensures GapMarked(WithGaps(ps))
  {
    WithGapsNeighbours(ps);
    WithGapsMarkers(ps);
  }

  /** With no gaps among `lo .. hi`, no marker is inserted. */
  lemma {:induction false} WithGapsConsecutive(lo: int, hi: int)
    ensures WithGaps(Range(lo, hi)) == Pages(Range(lo, hi))
    decreases hi - lo
  {
    if lo < hi {
      WithGapsConsecutive(lo + 1, hi);
      assert Range(lo, hi)[1..] == Range(lo + 1, hi);
      assert Pages(Range(lo, hi)) == [Page(lo)] + Pages(Range(lo + 1, hi));
    }
  }

  /** A run of pages starts with its first page. */
  lemma RangeCons(lo: int, hi: int)
    requires lo <= hi
    ensures Range(lo, hi) == [lo] + Range(lo + 1, hi)
    ensures Pages(Range(lo, hi)) == [Page(lo)] + Pages(Range(lo + 1, hi))
  {
  }

  /** `WithGaps` on a page followed by more pages: that page, then a marker exactly when the next one is not adjacent. */
  lemma WithGapsCons(p: int, rest: seq<int>)
    requires rest != []
    ensures WithGaps([p] + rest) == [Page(p)] + (if rest[0] - p > 1 then [Ellipsis] else []) + WithGaps(rest)
  {
    var ps := [p] + rest;
    assert ps[0] == p && ps[1] == rest[0] && ps[1..] == rest;
  }

  /** A consecutive run followed by one more page: a marker exactly when that page is not next. */
  lemma {:induction false} WithGapsRunThenLast(lo: int, hi: int, last: int)
    requires lo <= hi < last
    ensures WithGaps(Range(lo, hi) + [last])
         == Pages(Range(lo, hi)) + (if last - hi > 1 then [Ellipsis] else []) + [Page(last)]
    decreases hi - lo
  {
    if lo == hi {
      WithGapsPair(lo, last);
    } else {
      WithGapsRunThenLast(lo + 1, hi, last);
      WithGapsRunStep(lo, hi, last);
    }
  }

  /** Two pages: a marker between them exactly when they are not adjacent. */
  lemma WithGapsPair(p: int, last: int)
    requires p < last
    ensures WithGaps(Range(p, p) + [last])
         == Pages(Range(p, p)) + (if last - p > 1 then [Ellipsis] else []) + [Page(last)]
  {
    RangeCons(p, p);
    WithGapsCons(p, [last]);
    assert Range(p, p) + [last] == [p] + [last];
  }

  /** Extending a run by one page in front keeps the shape of `WithGapsRunThenLast`. */
  lemma WithGapsRunStep(lo: int, hi: int, last: int)
    requires lo < hi < last
    requires WithGaps(Range(lo + 1, hi) + [last])
          == Pages(Range(lo + 1, hi)) + (if last - hi > 1 then [Ellipsis] else []) + [Page(last)]
    ensures WithGaps(Range(lo, hi) + [last])
         == Pages(Range(lo, hi)) + (if last - hi > 1 then [Ellipsis] else []) + [Page(last)]
  {
    RangeCons(lo, hi);
    RangeCons(lo + 1, hi);
    var rest := Range(lo + 1, hi) + [last];
    assert Range(lo, hi) + [last] == [lo] + rest;
    assert rest[0] == lo + 1;
    WithGapsCons(lo, rest);
  }

  /** The page numbers the strip shows: all of them, or 1, the window around the current page, and the last. */
  function Shown(current: int, total: int): seq<int>
  {
    if total <= 7 then Range(1, total)
    else [1] + Range(Max(2, current - 1), Min(total - 1, current + 1)) + [total]
  }

  /** Page 1 followed by a run and the last page: a marker after page 1 exactly when the run starts past 2. */
  lemma WithGapsFirstRunLast(lo: int, hi: int, last: int)
    requires 2 <= lo <= hi < last
    ensures WithGaps([1] + Range(lo, hi) + [last])
         == [Page(1)] + (if lo > 2 then [Ellipsis] else []) + Pages(Range(lo, hi))
            + (if last - hi > 1 then [Ellipsis] else []) + [Page(last)]
  {
    var ps := [1] + Range(lo, hi) + [last];
    assert ps[1..] == Range(lo, hi) + [last];
    assert ps[1] == lo;
    WithGapsRunThenLast(lo, hi, last);
  }

  /** For a current page in range, the strip is exactly the shown pages with a marker at every gap. */
  lemma PageListIsWithGaps(current: int, total: int)
    requires 1 <= current <= total
    ensures PageList(current, total) == WithGaps(Shown(current, total))
  {
    if total <= 7 {
      WithGapsConsecutive(1, total);
    } else {
      var s, e := Max(2, current - 1), Min(total - 1, current + 1);
      WithGapsFirstRunLast(s, e, total);
      var lead: seq<PageItem> := if current > 3 then [Ellipsis] else [];
      var trail: seq<PageItem> := if current < total - 2 then [Ellipsis] else [];
      assert lead == if s > 2 then [Ellipsis] else [];
      assert trail == if total - e > 1 then [Ellipsis] else [];
      assert PageList(current, total) == [Page(1)] + lead + Pages(Range(s, e)) + trail + [Page(total)];
      assert Shown(current, total) == [1] + Range(s, e) + [total];
    }
  }

  /** The shown pages are strictly increasing, within `1 .. total`, and include the current page. */
  lemma ShownPages(current: int, total: int)
    requires 1 <= current <= total
    ensures var ps := Shown(current, total);
      && Increasing(ps)
      && (forall k :: 0 <= k < |ps| ==> 1 <= ps[k] <= total)
      && current in ps
  {
    var ps := Shown(current, total);
    if total > 7 {
      var s, e := Max(2, current - 1), Min(total - 1, current + 1);
      FramedRun(s, e, total);
      assert ps == [1] + Range(s, e) + [total];
      if current == 1 {
        assert ps[0] == current;
      } else if current == total {
        assert ps[|ps| - 1] == current;
      } else {
        assert ps[1 + current - s] == current;
      }
    } else {
      assert ps[current - 1] == current;
    }
  }

  /** Page 1, a run strictly between it and the last page, then the last page: increasing and within range. */
  lemma FramedRun(lo: int, hi: int, last: int)
    requires 2 <= lo <= hi < last
    ensures var ps := [1] + Range(lo, hi) + [last];
      && Increasing(ps)
      && (forall k :: 0 <= k < |ps| ==> 1 <= ps[k] <= last)
  {
    var w := Range(lo, hi);
    var ps := [1] + w + [last];
    forall i, j | 0 <= i < j < |ps| ensures ps[i] < ps[j] {
      if 0 < i && j < |ps| - 1 {
        assert ps[i] == w[i - 1] && ps[j] == w[j - 1];
      } else if 0 < i {
        assert ps[i] == w[i - 1];
      } else if j < |ps| - 1 {
        assert ps[j] == w[j - 1];
      }
    }
    forall k | 0 < k < |ps| - 1 ensures 1 <= ps[k] <= last {
      assert ps[k] == w[k - 1];
    }
  }

  /** The strip starts at page 1, ends at the last page and has at most seven entries. */
  lemma PageListEnds(current: int, total: int)
    requires 2 <= total
    ensures var r := PageList(current, total);
      && 2 <= |r| <= 7
      && r[0] == Page(1) && r[|r| - 1] == Page(total)
  {
  }

  /**
    What the strip promises for a current page in range: its page numbers
    are the shown pages, so they are strictly increasing, within
    `1 .. total` and include the current page; and it marks its gaps.
  */
  lemma PageListProperties(current: int, total: int)
    requires 1 <= current <= total
    ensures var r := PageList(current, total);
      && Numbers(r) == Shown(current, total)
      && Increasing(Numbers(r))
      && (forall k :: 0 <= k < |Numbers(r)| ==> 1 <= Numbers(r)[k] <= total)
      && current in Numbers(r)
      && GapMarked(r)
  {
    var ps := Shown(current, total);
    PageListIsWithGaps(current, total);
    NumbersOfWithGaps(ps);
    ShownPages(current, total);
    WithGapsMarksGaps(ps);
  }

  /** With at most seven pages the strip is every page, in order, without markers. */
  lemma FewPagesShowAll(current: int, total: int)
    requires total <= 7
    ensures var r := PageList(current, total);
      |r| == Max(0, total) && forall k :: 0 <= k < |r| ==> r[k] == Page(k + 1)
  {
  }

  /**
    With more than seven pages, the marker after page 1 is there exactly when
    the current page is past 3, and the marker before the last page exactly
    when the current page is before `total - 2`.
  */
  lemma MarkersAppearWhen(current: int, total: int)
    requires total > 7 && 1 <= current <= total
    ensures var r := PageList(current, total);
      && (r[1] == Ellipsis <==> current > 3)
      && (r[|r| - 2] == Ellipsis <==> current < total - 2)
  {
  }

  /**
    Every enabled button of the rendered strip, for a current page in range,
    leads to a page in range: "previous" and "next" when they are enabled,
    and every page button.
  */
  lemma NavigationStaysInRange(current: int, total: int)
    requires 2 <= total && 1 <= current <= total
    ensures var bar := Controls(current, total);
      && (!bar.prev.disabled ==> 1 <= bar.prev.target <= total)
      && (!bar.next.disabled ==> 1 <= bar.next.target <= total)
      && !(bar.prev.disabled && bar.next.disabled)
      && (forall k :: 0 <= k < |bar.items| && bar.items[k].Page? ==> 1 <= bar.items[k].n <= total)
  {
    var r := PageList(current, total);
    PageListProperties(current, total);
    PageListEnds(current, total);
    forall k | 0 <= k < |r| && r[k].Page? ensures 1 <= r[k].n <= total {
      PageNumberListed(r, k);
    }
  }

  /** A page button of a strip is among its numbers. */
  lemma {:induction false} PageNumberListed(r: seq<PageItem>, k: nat)
    requires k < |r| && r[k].Page?
    ensures r[k].n in Numbers(r)
  {
    if k > 0 {
      PageNumberListed(r[1..], k - 1);
    }
  }
}
