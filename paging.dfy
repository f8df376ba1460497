/** Page requests, their rationalization against a list size and the slicing of a
    list into the requested page, with Java's 32-bit int arithmetic written out. */
module Paging {
  import opened Results
  import opened JavaInts
  import opened Comparators

  /** A page request: zero-based page number, page size and the sort orders. */
  datatype PageRequest = PageRequest(pageNumber: int32, pageSize: int32, sort: seq<Order>)
  {
    /** Spring's getOffset, `(long) page * (long) size`, which cannot overflow a long
        for int operands. */
    function Offset(): int
    {
      pageNumber as int * pageSize as int
    }
  }

  /** Pageable: either the "unpaged" marker or a concrete request. */
  datatype Pageable = Unpaged | Paged(request: PageRequest)

  datatype SliceError =
    | OffsetTooLarge    // UnsupportedOperationException("Offset too large")
    | IndexOutOfBounds  // subList with a negative start or an end past the size
    | IllegalArgument   // subList with start > end

  /** ceil(size / pageSize), what `(int) Math.ceil((double) size / (double) pageSize)`
      computes exactly for int operands. */
  function TotalPages(size: nat, pageSize: int): (t: nat)
    requires pageSize >= 1
    ensures t == 0 <==> size == 0
    ensures (t - 1) * pageSize < size <= t * pageSize
    ensures t <= size
  {
    CeilingDivision(size, pageSize);
    (size + pageSize - 1) / pageSize
  }

  lemma CeilingDivision(size: nat, d: int)
    requires d >= 1
    ensures var t := (size + d - 1) / d;
      t >= 0 && (t == 0 <==> size == 0) && (t - 1) * d < size <= t * d && t <= size
  {
    var t, m := (size + d - 1) / d, (size + d - 1) % d;
    assert size + d - 1 == t * d + m && 0 <= m < d;
    assert (t - 1) * d == t * d - d;
    if t >= 1 {
      assert t - 1 <= (t - 1) * d by { MulMonotone(1, d, t - 1); }
    }
  }

  /** rationalization: default page 0 and page size = list size when there is no
      request, floor the page size at 1, reset a page number above the page count to
      the last page, then floor the page number at 0. */
  function Rationalize(size: nat, pageable: Option<PageRequest>): (r: PageRequest)
    requires size <= IntMax
    ensures r.pageSize >= 1
    ensures 0 <= r.pageNumber <= TotalPages(size, r.pageSize)
    ensures r.pageSize == (if pageable.Some? then Max(1, pageable.value.pageSize) else Max(1, size))
    ensures r.sort == (if pageable.Some? then pageable.value.sort else [])
  {
    var number := if pageable.Some? then pageable.value.pageNumber as int else 0;
    var requested := if pageable.Some? then pageable.value.pageSize as int else size;
    var pageSize := if requested < 1 then 1 else requested;
    var totalPages := TotalPages(size, pageSize);
    var clamped := if number > totalPages then totalPages - 1 else number;
    var floored := if clamped < 0 then 0 else clamped;
    PageRequest(floored, pageSize, if pageable.Some? then pageable.value.sort else [])
  }

  function Max(a: int, b: int): int
  {
    if a < b then b else a
  }

  function Min(a: int, b: int): int
  {
    if a < b then a else b
  }

  /** A page number in [0, totalPages], page totalPages included, is kept whatever the
      page size; a request whose page size is also at least 1 comes back unchanged. */
  lemma RationalizeKeepsValidRequests(size: nat, req: PageRequest)
    requires size <= IntMax
    requires 0 <= req.pageNumber <= TotalPages(size, Max(1, req.pageSize))
    ensures Rationalize(size, Some(req)).pageNumber == req.pageNumber
    ensures req.pageSize >= 1 ==> Rationalize(size, Some(req)) == req
  {
  }

  /** A page number above the page count becomes the last page (page 0 for an empty
      list). */
  lemma RationalizeClampsPastEnd(size: nat, req: PageRequest)
    requires size <= IntMax
    requires req.pageNumber > TotalPages(size, Max(1, req.pageSize))
    ensures Rationalize(size, Some(req)).pageNumber == Max(0, TotalPages(size, Max(1, req.pageSize)) - 1)
    ensures size > 0 ==> Rationalize(size, Some(req)).pageNumber < TotalPages(size, Max(1, req.pageSize))
  {
  }

  /** A negative page number becomes page 0. */
  lemma RationalizeFloorsNegative(size: nat, req: PageRequest)
    requires size <= IntMax
    requires req.pageNumber < 0
    ensures Rationalize(size, Some(req)).pageNumber == 0
  {
  }

  /** Without a request the result is page 0 of a single page holding everything. */
  lemma RationalizeDefault(size: nat)
    requires size <= IntMax
    ensures Rationalize(size, None).pageNumber == 0
    ensures Rationalize(size, None).sort == []
    ensures TotalPages(size, Rationalize(size, None).pageSize) <= 1
  {
    var ps := Rationalize(size, None).pageSize;
    var t := TotalPages(size, ps);
    if size > 0 && t >= 2 {
      assert ps == size;
      MulMonotone(1, t - 1, ps);
      assert false;
    }
  }

  /** Rationalizing twice is rationalizing once. */
  lemma RationalizeIdempotent(size: nat, pageable: Option<PageRequest>)
    requires size <= IntMax
    ensures Rationalize(size, Some(Rationalize(size, pageable))) == Rationalize(size, pageable)
  {
    RationalizeKeepsValidRequests(size, Rationalize(size, pageable));
  }

  /** ArrayList.subList's range checks: the slice exists exactly when
      0 <= from <= to <= |s|. */
  function SubList<T>(s: seq<T>, from: int, to: int): (r: Result<seq<T>, SliceError>)
    ensures r.Ok? <==> 0 <= from <= to <= |s|
    ensures r.Ok? ==> |r.value| == to - from && forall i :: 0 <= i < to - from ==> r.value[i] == s[from + i]
    ensures r.Ok? ==> multiset(r.value) <= multiset(s)
  {
    if from < 0 then Err(IndexOutOfBounds)
    else if to > |s| then Err(IndexOutOfBounds)
    else if from > to then Err(IllegalArgument)
    else
      assert s == s[..from] + s[from..to] + s[to..];
      Ok(s[from..to])
  }

  /** sliceContent: the requested window of the list, computed in int arithmetic. */
  function SliceContent<T>(content: seq<T>, pageable: Option<PageRequest>): (r: Result<seq<T>, SliceError>)
    requires |content| <= IntMax
    ensures r.Ok? ==> multiset(r.value) <= multiset(content)
    ensures r.Ok? && pageable.Some? && pageable.value.pageSize >= 1 ==> |r.value| <= pageable.value.pageSize
    ensures r.Err? ==> |content| > 0 && pageable.Some? && pageable.value.pageSize >= 1
  {
    if |content| == 0 then Ok([])
    else if pageable.None? || pageable.value.pageSize < 1 then Ok(content)
    else
      var pageSize := pageable.value.pageSize as int;
      if pageable.value.Offset() > IntMax then Err(OffsetTooLarge)
      else
        var offset := ToInt32(pageable.value.Offset());
        var size := |content|;
        if offset == 0 && pageSize >= size then Ok(content)
        else
          var lastStart := if size - pageSize < 0 then 0 else size - pageSize;
          var start := if offset >= size then lastStart else offset;
          var end := if offset >= size then size
                     else var e := ToInt32(offset + pageSize); if e > size then size else e;
          SubList(content, start, end)
  }

  /** First index of page `pageNumber` in exact arithmetic: the aligned offset while
      it lies inside the list, otherwise the start of the last pageSize elements. */
  function WindowStart(size: nat, pageNumber: nat, pageSize: nat): nat
    requires pageSize >= 1
  {
    if pageNumber * pageSize < size then pageNumber * pageSize
    else Max(0, size - pageSize)
  }

  /** End (exclusive) of page `pageNumber` in exact arithmetic. */
  function WindowEnd(size: nat, pageNumber: nat, pageSize: nat): nat
    requires pageSize >= 1
  {
    if pageNumber * pageSize < size then Min(pageNumber * pageSize + pageSize, size)
    else size
  }

  /** When neither the offset nor offset + pageSize overflows an int, slicing returns
      the window [WindowStart, WindowEnd). */
  lemma SliceIsWindow<T>(content: seq<T>, req: PageRequest)
    requires |content| <= IntMax
    requires req.pageNumber >= 0 && req.pageSize >= 1
    requires req.Offset() <= IntMax
    requires req.Offset() < |content| ==> req.Offset() + req.pageSize <= IntMax
    ensures WindowStart(|content|, req.pageNumber, req.pageSize) <= WindowEnd(|content|, req.pageNumber, req.pageSize) <= |content|
    ensures SliceContent(content, Some(req))
         == Ok(content[WindowStart(|content|, req.pageNumber, req.pageSize)..WindowEnd(|content|, req.pageNumber, req.pageSize)])
  {
    var size, offset, ps := |content|, req.Offset(), req.pageSize as int;
    var start, end := WindowStart(size, req.pageNumber, ps), WindowEnd(size, req.pageNumber, ps);
    assert offset >= 0;
    if size > 0 {
      assert ToInt32(offset) == offset;
      if offset < size {
        assert ToInt32(offset + ps) == offset + ps;
        assert start == offset && end == Min(offset + ps, size);
      } else {
        assert start == Max(0, size - ps) && end == size;
      }
      if offset == 0 && ps >= size {
        assert content[start..end] == content;
      }
    }
  }
  /** For lists of at most 2^30 elements, slicing a rationalized request never fails. */
  lemma RationalizedSliceSucceeds<T>(content: seq<T>, pageable: Option<PageRequest>)
    requires |content| <= 0x4000_0000
    ensures var req := Rationalize(|content|, pageable);
      req.Offset() <= IntMax && (req.Offset() < |content| ==> req.Offset() + req.pageSize <= IntMax)
    ensures SliceContent(content, Some(Rationalize(|content|, pageable))).Ok?
  {
    var req := Rationalize(|content|, pageable);
    NoIntOverflow(|content|, req.pageNumber, req.pageSize);
    assert req.Offset() == req.pageNumber * req.pageSize;
    SliceIsWindow(content, req);
  }

  /** Offsets of pages up to totalPages of a list of at most 2^30 elements fit an int. */
  lemma NoIntOverflow(size: nat, p: nat, ps: int)
    requires size <= 0x4000_0000 && 1 <= ps <= IntMax
    requires p <= TotalPages(size, ps)
    ensures p * ps <= IntMax
    ensures p * ps < size ==> p * ps + ps <= IntMax
  {
    var t := TotalPages(size, ps);
    MulMonotone(p, t, ps);
    assert t * ps < size + ps by { assert (t - 1) * ps == t * ps - ps; }
    if ps > size {
      if t >= 2 {
        MulMonotone(1, t - 1, ps);
        assert false;
      }
      if p == 1 {
        assert p * ps == ps;
      } else {
        assert p == 0;
      }
    }
  }

  /** Pages before totalPages are aligned: page p starts at p * pageSize, is non-empty,
      holds pageSize elements except possibly the last one, and ends where page p + 1
      starts. */
  lemma AlignedPages(size: nat, p: nat, pageSize: nat)
    requires pageSize >= 1 && p < TotalPages(size, pageSize)
    ensures WindowStart(size, p, pageSize) == p * pageSize < WindowEnd(size, p, pageSize)
    ensures p + 1 < TotalPages(size, pageSize) ==>
      WindowEnd(size, p, pageSize) - WindowStart(size, p, pageSize) == pageSize &&
      WindowEnd(size, p, pageSize) == WindowStart(size, p + 1, pageSize)
    ensures p + 1 == TotalPages(size, pageSize) ==> WindowEnd(size, p, pageSize) == size
  {
    var t := TotalPages(size, pageSize);
    MulMonotone(p, t - 1, pageSize);
    assert (p + 1) * pageSize == p * pageSize + pageSize;
    if p + 1 < t {
      MulMonotone(p + 1, t - 1, pageSize);
    } else {
      assert t * pageSize >= size;
    }
  }

  /** Page totalPages is kept by rationalization but is not aligned: it is the last
      pageSize elements (the whole list when it is shorter than a page). */
  lemma PageAfterLastIsTail(size: nat, pageSize: nat)
    requires pageSize >= 1
    ensures WindowStart(size, TotalPages(size, pageSize), pageSize) == Max(0, size - pageSize)
    ensures WindowEnd(size, TotalPages(size, pageSize), pageSize) == size
  {
  }

  /** Page 2 of 25 elements with page size 10 holds the last five elements; page 3, kept
      by rationalization, holds the last ten. */
  lemma TwentyFiveElements<T>(content: seq<T>)
    requires |content| == 25
    ensures SliceContent(content, Some(Rationalize(25, Some(PageRequest(2, 10, []))))) == Ok(content[20..25])
    ensures SliceContent(content, Some(Rationalize(25, Some(PageRequest(3, 10, []))))) == Ok(content[15..25])
    ensures SliceContent(content, Some(Rationalize(25, Some(PageRequest(9, 10, []))))) == Ok(content[20..25])
  {
    assert TotalPages(25, 10) == 3;
    SliceIsWindow(content, PageRequest(2, 10, []));
    SliceIsWindow(content, PageRequest(3, 10, []));
  }

  lemma MulMonotone(a: int, b: int, c: nat)
    requires a <= b
    ensures a * c <= b * c
  {
  }
}
