/**
 * Pagination of the table (spreadsheet-viewer-functions.js): the page count
 * `Math.ceil(length / itemsPerPage)`, the rows `currentData.slice(start, end)`
 * shown on a page, and `getPageNumbers`, which lists the page links with
 * runs of hidden pages collapsed into one '...'.
 */
module Pagination {

  /** `Math.ceil(len / size)`: 0 for an empty table. */
  function TotalPages(len: nat, size: int): (r: nat)
    requires size >= 1
    ensures r == 0 <==> len == 0
  {
    (len + size - 1) / size
  }

  /** The pages hold every row, and the last page is not empty. */
  lemma TotalPagesBounds(len: nat, size: int)
    requires size >= 1 && len > 0
    ensures (TotalPages(len, size) - 1) * size < len <= TotalPages(len, size) * size
  {
    var q := (len + size - 1) / size;
    assert len + size - 1 == q * size + (len + size - 1) % size;
  }

  /** Row position `i` belongs to 1-based page `page` of size `size`. */
  predicate OnPage(i: int, page: int, size: int)
  {
    (page - 1) * size <= i < page * size
  }

  /**
   * The bounds `[start, end)` of `slice((page - 1) * size, (page - 1) * size + size)`
   * on a sequence of length `len`, clamped as `Array.prototype.slice` clamps them.
   */
  function PageSlice(len: nat, page: int, size: int): (b: (nat, nat))
    requires page >= 1 && size >= 1
    ensures b.0 <= b.1 <= len
    ensures b.1 - b.0 <= size
    ensures (page - 1) * size <= len ==> b.0 == (page - 1) * size
    ensures forall i :: 0 <= i < len ==> (b.0 <= i < b.1 <==> OnPage(i, page, size))
  {
    var start := (page - 1) * size;
    var end := start + size;
    var from := if start < len then start else len;
    var to := if end < len then end else len;
    assert start >= 0 by {
      assert page - 1 >= 0;
    }
    assert end == page * size;
    (from, to)
  }

  /** Every row lies on exactly one page, and that page exists. */
  lemma RowOnExactlyOnePage(len: nat, size: int, i: int)
    requires size >= 1 && 0 <= i < len
    ensures OnPage(i, i / size + 1, size)
    ensures 1 <= i / size + 1 <= TotalPages(len, size)
    ensures forall p :: OnPage(i, p, size) ==> p == i / size + 1
  {
    var q := i / size;
    assert i == q * size + i % size;
    assert q * size <= i < (q + 1) * size;
    var t := TotalPages(len, size);
    TotalPagesBounds(len, size);
    MulStrictMonotone(q, t, size);
    forall p | OnPage(i, p, size) ensures p == q + 1 {
      MulStrictMonotone(p - 1, q + 1, size);
      MulStrictMonotone(q, p, size);
    }
  }

  lemma MulStrictMonotone(a: int, b: int, size: int)
    requires size >= 1 && a * size < b * size
    ensures a < b
  {
    assert (b - a) * size > 0;
  }

  /** A page between 1 and the page count always shows at least one row. */
  lemma ExistingPageIsNonEmpty(len: nat, page: int, size: int)
    requires size >= 1 && 1 <= page <= TotalPages(len, size)
    ensures PageSlice(len, page, size).0 < PageSlice(len, page, size).1
  {
    var t := TotalPages(len, size);
    TotalPagesBounds(len, size);
    assert (page - 1) * size <= (t - 1) * size;
  }

  /** An entry of the page-link list: a page number or the '...' marker. */
  datatype PageItem = PageNumber(n: int) | Ellipsis

  /**
   * Page `i` is put in `range` by the first loop of `getPageNumbers`: the
   * first page, the last page, and every page within 2 of the current one.
   */
  predicate Kept(i: int, current: int, total: int)
  {
    1 <= i <= total && (i == 1 || i == total || (current - 2 <= i && i <= current + 2))
  }

  /** Page `p` is listed: it is kept, or it is the single page missing between two kept ones. */
  predicate Shown(p: int, current: int, total: int)
  {
    Kept(p, current, total) || (Kept(p - 1, current, total) && Kept(p + 1, current, total))
  }

  /** Consecutive page entries differ by one; an ellipsis stands between two pages at least 3 apart. */
  predicate WellSpaced(r: seq<PageItem>)
  {
    && (forall k :: 0 <= k < |r| - 1 && r[k].PageNumber? && r[k + 1].PageNumber? ==> r[k + 1].n == r[k].n + 1)
    && (forall k :: 0 <= k < |r| && r[k].Ellipsis? ==>
          0 < k < |r| - 1 && r[k - 1].PageNumber? && r[k + 1].PageNumber? && r[k + 1].n >= r[k - 1].n + 3)
  }

  predicate StrictlyIncreasing(r: seq<PageItem>)
  {
    forall i, j :: 0 <= i < j < |r| && r[i].PageNumber? && r[j].PageNumber? ==> r[i].n < r[j].n
  }

  /** `getPageNumbers(current, total)`. */
  method GetPageNumbers(current: int, total: int) returns (r: seq<PageItem>)
    ensures total < 1 ==> r == []
    ensures total >= 1 ==> r != [] && r[0] == PageNumber(1) && r[|r| - 1] == PageNumber(total)
    ensures forall p :: PageNumber(p) in r <==> Shown(p, current, total)
    ensures WellSpaced(r)
    ensures StrictlyIncreasing(r)
  {
    var range := KeptPages(current, total);
    r := InsertGaps(range);
    ListedKeptIsShown(r, range, current, total);
    if total >= 1 {
      assert Kept(1, current, total) && Kept(total, current, total);
      assert range[0] == 1 && range[|range| - 1] == total by {
        FirstAndLastKept(range, current, total);
      }
    }
    WellSpacedIsIncreasing(r);
  }

  /** `getPageNumbers(5, 10)`: pages 1 to 7, then '...', then page 10. */
  method PageNumbersExample() returns (r: seq<PageItem>)
    ensures r == [PageNumber(1), PageNumber(2), PageNumber(3), PageNumber(4), PageNumber(5),
                  PageNumber(6), PageNumber(7), Ellipsis, PageNumber(10)]
  {
    r := GetPageNumbers(5, 10);
    forall p ensures PageNumber(p) in r <==> 1 <= p <= 7 || p == 10 {
      ShownExample(p);
    }
    ExampleListing(r);
  }

  /** The only well-spaced list from page 1 to page 10 holding exactly pages 1 to 7 and 10. */
  lemma ExampleListing(r: seq<PageItem>)
    requires WellSpaced(r) && StrictlyIncreasing(r)
    requires r != [] && r[0] == PageNumber(1) && r[|r| - 1] == PageNumber(10)
    requires forall p :: PageNumber(p) in r <==> 1 <= p <= 7 || p == 10
    ensures r == [PageNumber(1), PageNumber(2), PageNumber(3), PageNumber(4), PageNumber(5),
                  PageNumber(6), PageNumber(7), Ellipsis, PageNumber(10)]
  {
    NextPage(r, 0, 1);
    NextPage(r, 1, 2);
    NextPage(r, 2, 3);
    NextPage(r, 3, 4);
    NextPage(r, 4, 5);
    NextPage(r, 5, 6);
    PageAfterGap(r, 6, 7, 10);
  }

  lemma ShownExample(p: int)
    ensures Shown(p, 5, 10) <==> 1 <= p <= 7 || p == 10
  {
  }

  /** In a well-spaced list, a listed page's successor, when listed, comes right after it. */
  lemma NextPage(r: seq<PageItem>, k: int, a: int)
    requires WellSpaced(r) && StrictlyIncreasing(r)
    requires 0 <= k < |r| && r[k] == PageNumber(a) && PageNumber(a + 1) in r
    ensures k + 1 < |r| && r[k + 1] == PageNumber(a + 1)
  {
    var j :| 0 <= j < |r| && r[j] == PageNumber(a + 1);
    assert k < j;
    if r[k + 1].Ellipsis? {
      PageAfterEllipsis(r, k + 1, j);
      assert false;
    }
  }

  /** Every page listed after a '...' is at least three past the page before it. */
  lemma PageAfterEllipsis(r: seq<PageItem>, e: int, m: int)
    requires WellSpaced(r) && StrictlyIncreasing(r)
    requires 0 <= e < m < |r| && r[e].Ellipsis? && r[m].PageNumber?
    ensures 0 < e && r[e - 1].PageNumber? && r[m].n >= r[e - 1].n + 3
  {
    if m != e + 1 {
      assert r[e + 1].n < r[m].n;
    }
  }

  /**
   * In a well-spaced list ending with page `b`, a listed page `a` followed by
   * no listed page before `b`, at least 3 further, is followed by '...' and `b`.
   */
  lemma PageAfterGap(r: seq<PageItem>, k: int, a: int, b: int)
    requires WellSpaced(r) && StrictlyIncreasing(r)
    requires 0 <= k < |r| && r[k] == PageNumber(a) && r[|r| - 1] == PageNumber(b) && b >= a + 3
    requires forall p :: a < p < b ==> PageNumber(p) !in r
    ensures |r| == k + 3 && r[k + 1] == Ellipsis && r[k + 2] == PageNumber(b)
  {
    assert k < |r| - 1;
    assert r[k + 1] in r;
    var c := r[k + 2].n;
    assert a + 3 <= c && r[k + 2] in r;
    assert k + 2 < |r| - 1 ==> c < b;
  }

  /** The first loop of `getPageNumbers`: the kept pages, in increasing order. */
  method KeptPages(current: int, total: int) returns (range: seq<int>)
    ensures forall p :: p in range <==> Kept(p, current, total)
    ensures forall a, b :: 0 <= a < b < |range| ==> range[a] < range[b]
  {
    range := [];
    var i := 1;
    while i <= total
      invariant 1 <= i && (i <= total + 1 || i == 1)
      invariant forall k :: 0 <= k < |range| ==> 1 <= range[k] < i && Kept(range[k], current, total)
      invariant forall k :: 0 <= k < |range| - 1 ==> range[k] < range[k + 1]
      invariant forall p :: 1 <= p < i && Kept(p, current, total) ==> p in range
    {
      if i == 1 || i == total || (i >= current - 2 && i <= current + 2) {
        range := range + [i];
      }
      i := i + 1;
    }
    IncreasingSeq(range);
  }

  /**
   * The second loop of `getPageNumbers`: walks the kept pages, putting the
   * missing page between two kept pages 2 apart and '...' between two kept
   * pages further apart.
   */
  method InsertGaps(range: seq<int>) returns (r: seq<PageItem>)
    requires forall a, b :: 0 <= a < b < |range| ==> range[a] < range[b]
    ensures range == [] <==> r == []
    ensures range != [] ==> r[0] == PageNumber(range[0]) && r[|r| - 1] == PageNumber(range[|range| - 1])
    ensures WellSpaced(r)
    ensures Listed(r, range)
  {
    r := [];
    for k := 0 to |range|
      invariant k == 0 <==> r == []
      invariant k > 0 ==> r[0] == PageNumber(range[0]) && r[|r| - 1] == PageNumber(range[k - 1])
      invariant WellSpaced(r)
      invariant Listed(r, range[..k])
    {
      var i := range[k];
      ghost var r0 := r;
      if k > 0 {
        var l := range[k - 1];
        if i - l == 2 {
          r := r + [PageNumber(l + 1)];
        } else if i - l != 1 {
          r := r + [Ellipsis];
        }
      }
      r := r + [PageNumber(i)];
      if k > 0 {
        assert r == r0 + Gap(range[k - 1], i) + [PageNumber(i)];
        DotStep(range, k, r0, r);
      } else {
        assert r == [PageNumber(i)] && range[..1] == [i];
      }
    }
    assert range[..|range|] == range;
  }

  lemma FirstAndLastKept(range: seq<int>, current: int, total: int)
    requires total >= 1
    requires forall p :: p in range <==> Kept(p, current, total)
    requires forall a, b :: 0 <= a < b < |range| ==> range[a] < range[b]
    ensures range != [] && range[0] == 1 && range[|range| - 1] == total
  {
    assert Kept(1, current, total) && 1 in range;
    assert Kept(total, current, total) && total in range;
    var i :| 0 <= i < |range| && range[i] == 1;
    var j :| 0 <= j < |range| && range[j] == total;
    assert range[0] <= range[i] && range[j] <= range[|range| - 1];
    assert Kept(range[0], current, total) && Kept(range[|range| - 1], current, total);
  }

  lemma {:induction false} IncreasingSeq(s: seq<int>)
    requires forall k :: 0 <= k < |s| - 1 ==> s[k] < s[k + 1]
    ensures forall i, j :: 0 <= i < j < |s| ==> s[i] < s[j]
  {
    forall i, j | 0 <= i < j < |s| ensures s[i] < s[j] {
      IncreasingStep(s, i, j);
    }
  }

  lemma {:induction false} IncreasingStep(s: seq<int>, i: int, j: int)
    requires forall k :: 0 <= k < |s| - 1 ==> s[k] < s[k + 1]
    requires 0 <= i < j < |s|
    ensures s[i] < s[j]
    decreases j - i
  {
    if i + 1 < j {
      IncreasingStep(s, i, j - 1);
    }
  }

  lemma {:induction false} WellSpacedIsIncreasing(r: seq<PageItem>)
    requires WellSpaced(r)
    ensures StrictlyIncreasing(r)
  {
    forall i, j | 0 <= i < j < |r| && r[i].PageNumber? && r[j].PageNumber? ensures r[i].n < r[j].n {
      WellSpacedStep(r, i, j);
    }
  }

  lemma {:induction false} WellSpacedStep(r: seq<PageItem>, i: int, j: int)
    requires WellSpaced(r)
    requires 0 <= i < j < |r| && r[i].PageNumber? && r[j].PageNumber?
    ensures r[i].n < r[j].n
    decreases j - i
  {
    if i + 1 < j {
      if r[j - 1].PageNumber? {
        WellSpacedStep(r, i, j - 1);
      } else {
        assert r[j - 2].PageNumber? && r[j].n >= r[j - 2].n + 3;
        if i < j - 2 {
          WellSpacedStep(r, i, j - 2);
        }
      }
    }
  }

  /** What the second loop of `getPageNumbers` inserts between kept pages `l` and `i`. */
  function Gap(l: int, i: int): seq<PageItem>
  {
    if i - l == 2 then [PageNumber(l + 1)] else if i - l != 1 then [Ellipsis] else []
  }

  /** `r` lists the pages of `pre` and every page missing alone between two of them. */
  ghost predicate Listed(r: seq<PageItem>, pre: seq<int>)
  {
    forall p :: PageNumber(p) in r <==> p in pre || (p - 1 in pre && p + 1 in pre)
  }

  lemma {:induction false} DotStep(range: seq<int>, k: int, r0: seq<PageItem>, r: seq<PageItem>)
    requires 0 < k < |range|
    requires forall a, b :: 0 <= a < b < |range| ==> range[a] < range[b]
    requires WellSpaced(r0) && Listed(r0, range[..k])
    requires r0 != [] && r0[|r0| - 1] == PageNumber(range[k - 1])
    requires r == r0 + Gap(range[k - 1], range[k]) + [PageNumber(range[k])]
    ensures WellSpaced(r) && Listed(r, range[..k + 1])
  {
    DotStepSpaced(range[k - 1], range[k], r0, r);
    DotStepListed(range, k, r0, r);
  }

  lemma DotStepSpaced(l: int, i: int, r0: seq<PageItem>, r: seq<PageItem>)
    requires l < i
    requires WellSpaced(r0) && r0 != [] && r0[|r0| - 1] == PageNumber(l)
    requires r == r0 + Gap(l, i) + [PageNumber(i)]
    ensures WellSpaced(r)
  {
    if i - l == 1 {
      assert r == r0 + [PageNumber(i)];
      AppendNext(r0, l);
    } else if i - l == 2 {
      AppendNext(r0, l);
      AppendNext(r0 + [PageNumber(l + 1)], l + 1);
      assert r == r0 + [PageNumber(l + 1)] + [PageNumber(i)];
    } else {
      assert r == r0 + [Ellipsis, PageNumber(i)];
      AppendEllipsis(r0, l, i);
    }
  }

  /** Appending the page after the last one keeps the list well spaced. */
  lemma AppendNext(r0: seq<PageItem>, l: int)
    requires WellSpaced(r0) && r0 != [] && r0[|r0| - 1] == PageNumber(l)
    ensures WellSpaced(r0 + [PageNumber(l + 1)])
  {
    var r := r0 + [PageNumber(l + 1)];
    assert forall k :: 0 <= k < |r0| ==> r[k] == r0[k];
  }

  /** Appending '...' and a page at least 3 further keeps the list well spaced. */
  lemma AppendEllipsis(r0: seq<PageItem>, l: int, i: int)
    requires WellSpaced(r0) && r0 != [] && r0[|r0| - 1] == PageNumber(l)
    requires i >= l + 3
    ensures WellSpaced(r0 + [Ellipsis, PageNumber(i)])
  {
    var n := |r0|;
    var r := r0 + [Ellipsis, PageNumber(i)];
    assert forall k :: 0 <= k < n ==> r[k] == r0[k];
    assert r[n] == Ellipsis && r[n - 1] == PageNumber(l) && r[n + 1] == PageNumber(i);
  }

  lemma {:induction false} DotStepListed(range: seq<int>, k: int, r0: seq<PageItem>, r: seq<PageItem>)
    requires 0 < k < |range|
    requires forall a, b :: 0 <= a < b < |range| ==> range[a] < range[b]
    requires Listed(r0, range[..k])
    requires r == r0 + Gap(range[k - 1], range[k]) + [PageNumber(range[k])]
    ensures Listed(r, range[..k + 1])
  {
    forall p ensures PageNumber(p) in r <==> p in range[..k + 1] || (p - 1 in range[..k + 1] && p + 1 in range[..k + 1]) {
      DotStepAt(range, k, r0, r, p);
    }
  }

  lemma {:induction false} DotStepAt(range: seq<int>, k: int, r0: seq<PageItem>, r: seq<PageItem>, p: int)
    requires 0 < k < |range|
    requires forall a, b :: 0 <= a < b < |range| ==> range[a] < range[b]
    requires Listed(r0, range[..k])
    requires r == r0 + Gap(range[k - 1], range[k]) + [PageNumber(range[k])]
    ensures PageNumber(p) in r <==> p in range[..k + 1] || (p - 1 in range[..k + 1] && p + 1 in range[..k + 1])
  {
    var l, i := range[k - 1], range[k];
    var pre, post := range[..k], range[..k + 1];
    assert post == pre + [i];
    assert forall x :: x in pre ==> x <= l;
    assert PageNumber(p) in r <==> PageNumber(p) in r0 || PageNumber(p) in Gap(l, i) || p == i;
    if PageNumber(p) in Gap(l, i) {
      assert p == l + 1 && l in pre && i in post;
    }
    if p - 1 in post && p + 1 in post && p !in pre && p != i {
      assert p - 1 in pre;
      if p + 1 == i {
        assert l == p - 1;
        assert Gap(l, i) == [PageNumber(p)];
      }
    }
  }

  lemma ListedKeptIsShown(r: seq<PageItem>, range: seq<int>, current: int, total: int)
    requires Listed(r, range)
    requires forall p :: p in range <==> Kept(p, current, total)
    ensures forall p :: PageNumber(p) in r <==> Shown(p, current, total)
  {
    forall p ensures PageNumber(p) in r <==> Shown(p, current, total) {
      assert p - 1 in range <==> Kept(p - 1, current, total);
      assert p + 1 in range <==> Kept(p + 1, current, total);
    }
  }
}
