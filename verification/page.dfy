/** Pagination state for list queries: the current page number, the page
    size, the page count and the record count, the setters that keep the page
    count in step with the other two, the queries a list view asks (SQL
    limit and offset, previous and next page, first and last page), and the
    strip of page entries a pager shows. Integer operations follow Go:
    division truncates toward zero (module GoInt). */
module Page {
  import opened GoInt

  /** One entry of a page strip: a page number, or -1 for a run of elided
      pages, and whether it is flagged as the current page. */
  datatype Paginator = Paginator(num: int, isCurrent: bool)
  {
    /** The page number, -1 for elided pages; with the flag it rebuilds the
        entry. */
    function Num(): (n: int)
      ensures Paginator(n, isCurrent) == this
    {
      num
    }

    /** Whether the entry is flagged as the current page. */
    function IsCurrent(): (c: bool)
      ensures Paginator(num, c) == this
    {
      isCurrent
    }
  }

  /** The entry that stands for elided pages. */
  const Elided := Paginator(-1, false)

  /** Records and page size are both positive or both negative. */
  predicate SameSign(a: int, b: int)
  {
    (a > 0 && b > 0) || (a < 0 && b < 0)
  }

  /** Go's `a / b`, plus one when `a % b` is not zero: the quotient rounded
      up when `a` and `b` have the same sign, and at most one otherwise. */
  function CeilQuot(a: int, b: int): (n: int)
    requires b != 0
    ensures SameSign(a, b) ==> n >= 1 && Abs(b) * (n - 1) < Abs(a) <= Abs(b) * n
    ensures !SameSign(a, b) ==> n <= 1
  {
    CeilQuotBounds(a, b);
    Quot(a, b) + (if Rem(a, b) != 0 then 1 else 0)
  }

  lemma CeilQuotBounds(a: int, b: int)
    requires b != 0
    ensures var n := Quot(a, b) + (if Rem(a, b) != 0 then 1 else 0);
      (SameSign(a, b) ==> n >= 1 && Abs(b) * (n - 1) < Abs(a) <= Abs(b) * n)
      && (!SameSign(a, b) ==> n <= 1)
  {
    var q, r := Quot(a, b), Rem(a, b);
    if a > 0 && b > 0 {
      CeilingFromRemainder(a, b, q, r);
    } else if a < 0 && b < 0 {
      assert q * (-b) + (-r) == -a;
      CeilingFromRemainder(-a, -b, q, -r);
    }
  }

  /** How many pages `records` records fill at `size` records a page: the
      quotient rounded up, and never less than one page. When the signs of
      the two differ, Go's truncating division leaves a quotient of at most
      zero and the count is one. */
  function PageCount(records: int, size: int): (n: int)
    requires size != 0
    ensures n >= 1
    ensures SameSign(records, size) ==> Abs(size) * (n - 1) < Abs(records) <= Abs(size) * n
    ensures !SameSign(records, size) ==> n == 1
  {
    var n := CeilQuot(records, size);
    if n <= 0 then 1 else n
  }

  /** A quotient and a remainder in range give the rounded-up quotient by
      adding one exactly when the remainder is not zero. */
  lemma CeilingFromRemainder(a: int, b: int, q: int, r: int)
    requires a > 0 && b > 0 && 0 <= r < b && q * b + r == a
    ensures var n := q + (if r != 0 then 1 else 0); n >= 1 && b * (n - 1) < a <= b * n
  {
    if q <= 0 {
      assert q * b <= 0;
    }
    assert b * q == q * b;
    assert b * (q + 1) == b * q + b;
    assert b * (q - 1) == b * q - b;
  }

  /** The rounded-up quotient is unique. */
  lemma CeilingUnique(a: int, b: int, x: int, y: int)
    requires b > 0
    requires b * (x - 1) < a <= b * x
    requires b * (y - 1) < a <= b * y
    ensures x == y
  {
    if x < y {
      MulMonotone(b, x, y - 1);
    } else if y < x {
      MulMonotone(b, y, x - 1);
    }
  }

  lemma MulMonotone(b: int, x: int, y: int)
    requires b >= 0 && x <= y
    ensures b * x <= b * y && x * b <= y * b
  {
    assert b * y - b * x == b * (y - x);
  }

  /** The slot of the middle of `n` slots, counted from 1: half of `n`
      rounded up. */
  function MiddleIdx(n: int): (m: int)
    ensures n >= 0 ==> n <= 2 * m <= n + 1
  {
    if Rem(n, 2) == 0 then Quot(n, 2) else Quot(n, 2) + 1
  }

  function Min(a: int, b: int): int { if a <= b then a else b }
  function Max(a: int, b: int): int { if a >= b then a else b }

  /** The first page number of a window of `size` consecutive pages around
      page `current` of pages 1..`last`: the current page takes the middle
      slot when the pages before it allow, and the window is pushed back to
      end at `last` when it would run past it. */
  function WindowStart(current: int, size: int, last: int): int
  {
    Min(Max(current - MiddleIdx(size) + 1, 1), last - size + 1)
  }

  /** The windowed strip: `size` consecutive page numbers from `WindowStart`,
      the current page flagged, with an elided entry in front when pages
      precede the window and one behind when pages follow it. */
  function Window(current: int, size: nat, last: int): seq<Paginator>
  {
    var first := WindowStart(current, size, last);
    (if first > 1 then [Elided] else [])
    + seq(size, k => Paginator(first + k, first + k == current))
    + (if first + size - 1 < last then [Elided] else [])
  }

  /** The inputs for which the strip is defined: `n` slots, `last` pages in
      all, page `current` shown. A listed strip needs a length of at least
      zero; a windowed one needs the current page within 1..`last`. */
  predicate PagesInput(n: int, last: int, current: int)
  {
    n >= 1 && (last <= n ==> last >= 0) && (last > n ==> 1 <= current <= last)
  }

  /** The strip `Pages` returns for `n` slots, `last` pages in all and page
      `current`: a single current entry when there is one page; all pages
      1..`last` when they fit in the slots, flagging the entry numbered `n`;
      otherwise the window around `current`. */
  function PageList(n: int, last: int, current: int): seq<Paginator>
    requires PagesInput(n, last, current)
  {
    if n == 1 && last == 1 then [Paginator(1, true)]
    else if last <= n then seq(last, i => Paginator(i + 1, i + 1 == n))
    else Window(current, n, last)
  }

  /** When all pages fit, the strip lists 1..`last` in order, and the flag
      sits on the entry numbered `n` (the number of slots), so a current
      entry exists exactly when `last == n`, whatever page is current. */
  lemma ListedPages(n: int, last: int, current: int)
    requires PagesInput(n, last, current) && last <= n
    ensures |PageList(n, last, current)| == last
    ensures forall i :: 0 <= i < last ==> PageList(n, last, current)[i].num == i + 1
    ensures forall i :: 0 <= i < last && PageList(n, last, current)[i].isCurrent ==>
      PageList(n, last, current)[i].num == n
    ensures (exists i :: 0 <= i < last && PageList(n, last, current)[i].isCurrent) <==> last == n
  {
    var r := PageList(n, last, current);
    if last == n {
      assert r[n - 1].isCurrent;
    }
  }

  /** The window lies within 1..`last`, holds the current page and has room
      for all `size` slots. */
  lemma WindowBounds(current: int, size: int, last: int)
    requires 1 <= size < last && 1 <= current <= last
    ensures var first := WindowStart(current, size, last);
      1 <= first <= current <= first + size - 1 <= last
  {
    var m := MiddleIdx(size);
    assert 1 <= m <= size;
  }

  /** Where each part of the windowed strip sits: the leading elided entry,
      the numbered slots, the trailing elided entry. */
  lemma WindowLayout(current: int, size: nat, last: int)
    ensures var r := Window(current, size, last);
      var first := WindowStart(current, size, last);
      var lead := if first > 1 then 1 else 0;
      var trail := if first + size - 1 < last then 1 else 0;
      |r| == lead + size + trail
      && (lead == 1 ==> r[0] == Elided)
      && (trail == 1 ==> r[|r| - 1] == Elided)
      && (forall j :: lead <= j < lead + size ==>
            r[j] == Paginator(first + (j - lead), first + (j - lead) == current))
  {
  }

  /** A strip laid out slot by slot as `WindowLayout` describes is the
      window itself. */
  lemma WindowFromSlots(s: seq<Paginator>, current: int, size: nat, last: int, first: int, lead: int)
    requires first == WindowStart(current, size, last)
    requires lead == if first > 1 then 1 else 0
    requires |s| == lead + size + (if first + size - 1 < last then 1 else 0)
    requires lead == 1 ==> s[0] == Elided
    requires first + size - 1 < last ==> s[|s| - 1] == Elided
    requires forall j :: lead <= j < lead + size ==>
      s[j] == Paginator(first + (j - lead), first + (j - lead) == current)
    ensures s == Window(current, size, last)
  {
    WindowLayout(current, size, last);
  }

  /** Shape of the windowed strip: its length is `size` plus one per
      elided entry; an elided entry leads exactly when the first number shown
      is above 1 and trails exactly when the last one shown is below `last`;
      no other entry is elided; the shown numbers are consecutive and lie in
      1..`last`. */
  lemma WindowShape(current: int, size: int, last: int)
    requires 1 <= size < last && 1 <= current <= last
    ensures var r := Window(current, size, last);
      var first := WindowStart(current, size, last);
      var lead := if first > 1 then 1 else 0;
      var trail := if first + size - 1 < last then 1 else 0;
      |r| == size + lead + trail
      && (r[0] == Elided <==> first > 1)
      && (r[|r| - 1] == Elided <==> first + size - 1 < last)
      && (forall j :: 0 <= j < |r| && r[j].num == -1 ==> j == 0 || j == |r| - 1)
      && (forall j :: lead <= j < lead + size ==> r[j].num == first + (j - lead))
      && (forall j :: lead <= j < lead + size ==> 1 <= r[j].num <= last)
  {
    WindowBounds(current, size, last);
    WindowLayout(current, size, last);
  }

  /** Exactly one entry of the windowed strip is flagged, and it is the one
      numbered `current`. */
  lemma WindowCurrent(current: int, size: int, last: int)
    requires 1 <= size < last && 1 <= current <= last
    ensures var r := Window(current, size, last);
      (forall j :: 0 <= j < |r| ==> (r[j].isCurrent <==> r[j].num == current))
      && (exists j :: 0 <= j < |r| && r[j].isCurrent)
      && (forall i, j :: 0 <= i < |r| && 0 <= j < |r| && r[i].isCurrent && r[j].isCurrent ==> i == j)
  {
    var r := Window(current, size, last);
    var first := WindowStart(current, size, last);
    var lead := if first > 1 then 1 else 0;
    WindowBounds(current, size, last);
    WindowLayout(current, size, last);
    assert r[lead + current - first].isCurrent;
  }

  /** The bookkeeping of the windowed branch of `Pages`: the slots before
      the current page (`prev`, first cut down to the pages that exist
      before it) and after it (`next`), shifted back when they would run
      past `last`, always fill the `n` slots, and the first number they show
      is `WindowStart`. */
  lemma WindowSlots(c: int, n: int, last: int, prev0: int, prev: int, next: int)
    requires 1 <= n < last && 1 <= c <= last
    requires prev0 == if MiddleIdx(n) - 1 > c - 1 then c - 1 else MiddleIdx(n) - 1
    requires c + (n - prev0 - 1) > last ==> prev == n - 1 - (last - c) && next == last - c
    requires c + (n - prev0 - 1) <= last ==> prev == prev0 && next == n - prev0 - 1
    ensures 0 <= prev && 0 <= next && prev + 1 + next == n
    ensures c - prev == WindowStart(c, n, last)
  {
    var m := MiddleIdx(n);
    assert 1 <= m <= n;
  }

  /** A pagination record. The page number is private to the record; the
      other three fields are public. No invariant ties them together: the
      setters below recompute `TotalPages`, but the constructor takes it as
      given. */
  class Pagination {
    var pageNo: int
    var PageSize: int
    var TotalPages: int
    var TotalRecords: int

    /** A record on page `pageNo` with `pageSize` records a page and
        `totalPages` pages, holding no records yet. */
    constructor (pageNo: int, pageSize: int, totalPages: int)
      ensures this.pageNo == pageNo && PageSize == pageSize
      ensures TotalPages == totalPages && TotalRecords == 0
    {
      this.pageNo := pageNo;
      PageSize := pageSize;
      TotalPages := totalPages;
      TotalRecords := 0;
    }

    /** Sets the page number, unless the page number held so far is not
        positive; then the call has no effect. The argument itself is not
        checked, so a zero or negative argument is stored, after which every
        later call is ignored. */
    method SetPageNumber(n: int)
      modifies this`pageNo
      ensures pageNo == if old(pageNo) <= 0 then old(pageNo) else n
      ensures PageSize == old(PageSize) && TotalPages == old(TotalPages)
      ensures TotalRecords == old(TotalRecords)
    {
      if pageNo <= 0 {
        return;
      }
      pageNo := n;
    }

    /** The page-number setter with the guard on its argument, as its
        documentation describes: a positive page number stays positive. */
    method SetPageNumberChecked(n: int)
      modifies this`pageNo
      ensures old(pageNo) >= 1 ==> pageNo >= 1
      ensures pageNo == if n <= 0 then old(pageNo) else n
      ensures PageSize == old(PageSize) && TotalPages == old(TotalPages)
      ensures TotalRecords == old(TotalRecords)
    {
      if n <= 0 {
        return;
      }
      pageNo := n;
    }

    /** Sets the record count and recounts the pages; the page size must not
        be zero, which the division in the recount would fault on. */
    method SetTotalRecord(n: int)
      requires PageSize != 0
      modifies this`TotalRecords, this`TotalPages
      ensures TotalRecords == n && TotalPages == PageCount(n, PageSize)
      ensures pageNo == old(pageNo) && PageSize == old(PageSize)
    {
      TotalRecords := n;
      ComputeTotalPages();
    }

    /** Sets a positive page size and recounts the pages; a page size of zero
        or less leaves the record unchanged. */
    method SetPageSize(n: int)
      modifies this`PageSize, this`TotalPages
      ensures n <= 0 ==> PageSize == old(PageSize) && TotalPages == old(TotalPages)
      ensures n > 0 ==> PageSize == n && TotalPages == PageCount(TotalRecords, n)
      ensures pageNo == old(pageNo) && TotalRecords == old(TotalRecords)
    {
      if n <= 0 {
        return;
      }
      PageSize := n;
      ComputeTotalPages();
    }

    /** Recounts the pages from the record count and the page size. */
    method ComputeTotalPages()
      requires PageSize != 0
      modifies this`TotalPages
      ensures TotalPages == PageCount(TotalRecords, PageSize)
    {
      TotalPages := Quot(TotalRecords, PageSize);
      if Rem(TotalRecords, PageSize) != 0 {
        TotalPages := TotalPages + 1;
      }
      if TotalPages <= 0 {
        TotalPages := 1;
      }
    }

    /** The SQL limit and offset of the current page: a page's worth of rows,
        after skipping the rows of all earlier pages (none when the page
        number is not positive). */
    function Limit(): (r: (int, int))
      reads this
      ensures r.0 == PageSize
      ensures pageNo >= 1 ==> r.1 == (pageNo - 1) * PageSize
      ensures pageNo <= 1 ==> r.1 == 0
    {
      var skipped := if pageNo > 0 then pageNo - 1 else 0;
      (PageSize, skipped * PageSize)
    }

    function IsFirst(): bool
      reads this
    {
      pageNo == 1
    }

    function HasPrevious(): bool
      reads this
    {
      pageNo > 1
    }

    /** The page before the current one, or the current page when there is
        none; it never goes below page 1 from a positive page, and on a
        positive page it stays put exactly on the first page. */
    function Previous(): (r: int)
      reads this
      ensures r <= pageNo && pageNo - 1 <= r
      ensures r != pageNo <==> HasPrevious()
      ensures pageNo >= 1 ==> r >= 1 && (r == pageNo <==> IsFirst())
    {
      if !HasPrevious() then pageNo else pageNo - 1
    }

    function HasNext(): bool
      reads this
    {
      TotalRecords > pageNo * PageSize
    }

    /** The page after the current one, or the current page when no records
        lie beyond it. */
    function Next(): (r: int)
      reads this
      ensures pageNo <= r <= pageNo + 1
      ensures r != pageNo <==> HasNext()
    {
      if !HasNext() then pageNo else pageNo + 1
    }

    /** The current page is the last: there are no records at all, or some
        records lie on or after the current page and none beyond it. */
    function IsLast(): (r: bool)
      reads this
      ensures TotalRecords == 0 ==> r
      ensures r && TotalRecords != 0 ==> !HasNext()
    {
      if TotalRecords == 0 then true
      else TotalRecords > (pageNo - 1) * PageSize && !HasNext()
    }

    function Total(): int
      reads this
    {
      TotalRecords
    }

    /** Whether `TotalPage` can be computed: it divides by the page size
        unless there are no records. */
    predicate TotalPageDefined()
      reads this
    {
      TotalRecords == 0 || PageSize != 0
    }

    /** The page count computed afresh from the record count and page size:
        one page for no records, otherwise the quotient rounded up (with Go's
        truncating division, so not clamped to 1 for mixed signs). */
    function TotalPage(): (r: int)
      reads this
      requires TotalPageDefined()
      ensures TotalRecords == 0 ==> r == 1
      ensures SameSign(TotalRecords, PageSize) ==>
        Abs(PageSize) * (r - 1) < Abs(TotalRecords) <= Abs(PageSize) * r
    {
      if TotalRecords == 0 then 1 else CeilQuot(TotalRecords, PageSize)
    }

    /** The inputs on which `Pages` does not fault. */
    predicate PagesDefined()
      reads this
    {
      TotalPages >= 0
      && (TotalPages != 0 ==> TotalPageDefined() && PagesInput(TotalPages, TotalPage(), pageNo))
    }

    /** The strip of page entries a pager shows: empty when `TotalPages` is
        zero, and `PageList` of `TotalPages` slots, `TotalPage()` pages and
        the current page otherwise. The strip is filled into a freshly
        allocated array, slot by slot. */
    method Pages() returns (pages: seq<Paginator>)
      requires PagesDefined()
      ensures TotalPages == 0 ==> pages == []
      ensures TotalPages != 0 ==> pages == PageList(TotalPages, TotalPage(), pageNo)
    {
      if TotalPages == 0 {
        return [];
      } else if TotalPages == 1 && TotalPage() == 1 {
        return [Paginator(1, true)];
      }

      var last := TotalPage();
      if last <= TotalPages {
        var listed := new Paginator[last];
        for i := 0 to last
          invariant forall k :: 0 <= k < i ==> listed[k] == Paginator(k + 1, k + 1 == TotalPages)
        {
          listed[i] := Paginator(i + 1, i + 1 == TotalPages);
        }
        return listed[..];
      }

      pages := WindowedPages(pageNo, TotalPages, last);
    }

    /** The windowed branch of `Pages`: `total` numbered slots around page
        `current` of `last`, with the slots before the current page cut
        down to the pages that exist and shifted back when the slots after
        it would run past `last`, and an elided entry at either end where
        pages are left out. */
    static method WindowedPages(current: int, total: int, last: int) returns (pages: seq<Paginator>)
      requires 1 <= total < last && 1 <= current <= last
      ensures pages == Window(current, total, last)
    {
      // The index of the last slot, which the source also keeps up to date,
      // is never read and is not modelled.
      var numPages := total;
      var offsetIdx := 0;
      var hasMoreNext := false;

      var previousNum := MiddleIdx(total) - 1;
      if previousNum > current - 1 {
        previousNum := previousNum - (previousNum - (current - 1));
      }
      ghost var previousCut := previousNum;
      var nextNum := total - previousNum - 1;
      if current + nextNum > last {
        var delta := nextNum - (last - current);
        nextNum := nextNum - delta;
        previousNum := previousNum + delta;
      }
      WindowSlots(current, total, last, previousCut, previousNum, nextNum);

      var offsetVal := current - previousNum;
      if offsetVal > 1 {
        numPages := numPages + 1;
        offsetIdx := 1;
      }
      if current + nextNum < last {
        numPages := numPages + 1;
        hasMoreNext := true;
      }

      var a := new Paginator[numPages];
      if offsetIdx == 1 {
        a[0] := Elided;
      }
      if hasMoreNext {
        a[a.Length - 1] := Elided;
      }

      for i := 0 to previousNum
        invariant offsetIdx == 1 ==> a[0] == Elided
        invariant hasMoreNext ==> a[a.Length - 1] == Elided
        invariant forall j :: offsetIdx <= j < offsetIdx + i ==>
          a[j] == Paginator(offsetVal + (j - offsetIdx), offsetVal + (j - offsetIdx) == current)
      {
        a[offsetIdx + i] := Paginator(i + offsetVal, false);
      }

      a[offsetIdx + previousNum] := Paginator(current, true);

      for i := 1 to nextNum + 1
        invariant offsetIdx == 1 ==> a[0] == Elided
        invariant hasMoreNext ==> a[a.Length - 1] == Elided
        invariant forall j :: offsetIdx <= j < offsetIdx + previousNum + i ==>
          a[j] == Paginator(offsetVal + (j - offsetIdx), offsetVal + (j - offsetIdx) == current)
      {
        a[offsetIdx + previousNum + i] := Paginator(current + i, false);
      }

      pages := a[..];
      WindowFromSlots(pages, current, total, last, offsetVal, offsetIdx);
    }
  }

  /** A record on page 1 with 20 records a page and no pages counted yet. */
  method DefaultPagination() returns (p: Pagination)
    ensures fresh(p)
    ensures p.pageNo == 1 && p.PageSize == 20 && p.TotalPages == 0 && p.TotalRecords == 0
  {
    p := new Pagination(1, 20, 0);
  }

  /** Where the page count is recounted from positive sizes, the fresh
      computation `TotalPage` agrees with the stored `TotalPages`. */
  lemma TotalPageMatchesRecount(p: Pagination)
    requires p.PageSize > 0 && p.TotalRecords >= 0
    requires p.TotalPages == PageCount(p.TotalRecords, p.PageSize)
    ensures p.TotalPage() == p.TotalPages
  {
    if p.TotalRecords > 0 {
      CeilingUnique(p.TotalRecords, p.PageSize, p.TotalPage(), p.TotalPages);
    }
  }

  /** Page `c` of `a` records at `b` a page is followed by more records
      exactly when it is before page `t`, the rounded-up quotient (one page
      for no records). */
  lemma RecordsBeyondPage(a: int, b: int, c: int, t: int)
    requires b > 0 && a >= 0 && c >= 1
    requires t == if a == 0 then 1 else CeilQuot(a, b)
    ensures a > c * b <==> c < t
  {
    if a > 0 {
      assert b * (t - 1) < a <= b * t;
      if c < t {
        MulMonotone(b, c, t - 1);
      } else {
        MulMonotone(b, t, c);
      }
    } else {
      MulMonotone(b, 0, c);
    }
  }

  /** Page `c` starts inside the `a` records exactly when it is at most page
      `t`, the rounded-up quotient. */
  lemma PageStartsInsideRecords(a: int, b: int, c: int, t: int)
    requires b > 0 && a > 0 && c >= 1
    requires t == CeilQuot(a, b)
    ensures (c - 1) * b < a <==> c <= t
  {
    assert b * (t - 1) < a <= b * t;
    if c <= t {
      MulMonotone(b, c - 1, t - 1);
    } else {
      MulMonotone(b, t, c - 1);
    }
  }

  /** From a positive page and with positive sizes, there is a next page
      exactly when the current page is before the last one. */
  lemma HasNextBeforeLastPage(p: Pagination)
    requires p.PageSize > 0 && p.TotalRecords >= 0 && p.pageNo >= 1
    ensures p.HasNext() <==> p.pageNo < p.TotalPage()
  {
    RecordsBeyondPage(p.TotalRecords, p.PageSize, p.pageNo, p.TotalPage());
  }

  /** From a positive page and with records present, the current page is the
      last exactly when its number is the page count. */
  lemma IsLastOnLastPage(p: Pagination)
    requires p.PageSize > 0 && p.TotalRecords > 0 && p.pageNo >= 1
    ensures p.IsLast() <==> p.pageNo == p.TotalPage()
  {
    RecordsBeyondPage(p.TotalRecords, p.PageSize, p.pageNo, p.TotalPage());
    PageStartsInsideRecords(p.TotalRecords, p.PageSize, p.pageNo, p.TotalPage());
  }

  /** With positive sizes, the offset of a positive page falls inside the
      records exactly when the page number is at most the page count. */
  lemma LimitSelectsExistingPage(p: Pagination)
    requires p.PageSize > 0 && p.TotalRecords > 0 && p.pageNo >= 1
    ensures p.Limit().1 < p.TotalRecords <==> p.pageNo <= p.TotalPage()
  {
    PageStartsInsideRecords(p.TotalRecords, p.PageSize, p.pageNo, p.TotalPage());
  }

  /** From a positive page, there is a previous page exactly when the page
      is not the first, and the first page is its own previous page. */
  lemma PreviousExistsUnlessFirst(p: Pagination)
    requires p.pageNo >= 1
    ensures p.HasPrevious() <==> !p.IsFirst()
    ensures p.IsFirst() ==> p.Previous() == p.pageNo == 1
  {
  }

  /** With a positive page size, the record count `Total` lies on the last
      page `TotalPage`: past all the earlier pages and within the last one
      (no records make one empty page). */
  lemma RecordsEndOnLastPage(p: Pagination)
    requires p.PageSize > 0 && p.TotalRecords >= 0
    ensures p.TotalPage() >= 1
    ensures p.Total() > 0 ==>
      p.PageSize * (p.TotalPage() - 1) < p.Total() <= p.PageSize * p.TotalPage()
    ensures p.Total() == 0 ==> p.TotalPage() == 1
  {
  }

  /** On a page between the first and the last, `Previous` and `Next` stay
      within the pages, one step away at most. */
  lemma NeighboursWithinPages(p: Pagination)
    requires p.PageSize > 0 && p.TotalRecords >= 0
    requires 1 <= p.pageNo <= p.TotalPage()
    ensures 1 <= p.Previous() <= p.pageNo <= p.Next() <= p.TotalPage()
  {
    HasNextBeforeLastPage(p);
  }

  /** In every state the setters leave behind with positive sizes, `Pages`
      takes its listing branch: all pages 1..`TotalPages`, the last one
      flagged, whatever the current page is. */
  lemma RecountedPagesListEverything(p: Pagination)
    requires p.PageSize > 0 && p.TotalRecords >= 0
    requires p.TotalPages == PageCount(p.TotalRecords, p.PageSize)
    ensures p.PagesDefined()
    ensures var n := p.TotalPages;
      PageList(n, p.TotalPage(), p.pageNo) == seq(n, i => Paginator(i + 1, i + 1 == n))
  {
    TotalPageMatchesRecount(p);
    var n := p.TotalPages;
    if n == 1 {
      assert PageList(n, n, p.pageNo) == [Paginator(1, true)];
      assert seq(n, i => Paginator(i + 1, i + 1 == n))[0] == Paginator(1, true);
    }
  }

  /** The two scenarios of the package's own test: with 10 records on the
      default record the first page starts at offset 0; after moving to
      page 2 the offset is one page of 20. */
  method LimitExamples() returns (first: (int, int), second: (int, int))
    ensures first == (20, 0)
    ensures second == (20, 20)
  {
    var p := DefaultPagination();
    p.SetTotalRecord(10);
    first := p.Limit();
    var q := DefaultPagination();
    q.SetPageNumber(2);
    second := q.Limit();
  }

  /** The page-number setter as written stores a zero page number and then
      ignores every later call. */
  method ZeroPageNumberSticks(n: int) returns (p: Pagination)
    ensures p.pageNo == 0
  {
    p := DefaultPagination();
    p.SetPageNumber(0);
    p.SetPageNumber(n);
  }
}
