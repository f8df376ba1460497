/** PageWrapper.wrap: copy the list, stable-sort the copy by the orders of the request
    whose properties the first element's class has getters for, rationalize the request
    and return the requested window of the sorted copy. */
module PageWrapper {
  import opened Results
  import opened Reflection
  import opened Comparators
  import opened Sorting
  import opened Paging
  import opened JavaInts

  /** PageImpl as wrap builds it: the slice, the rationalized request and the size of
      the whole list. */
  datatype Page = Page(content: seq<Record>, pageable: PageRequest, total: nat)

  datatype WrapError =
    | UnsupportedUnpaged  // UnsupportedOperationException("Not support unpaged!")
    | NullPointer         // the first element is null while the sort has orders
    | Slice(cause: SliceError)

  /** ComparatorChain over the given keys, as a comparator value. */
  function ChainOf(keys: seq<Key>): (Record, Record) -> int
  {
    (a, b) => Chain(keys, a, b)
  }

  /** The chain meets the Comparator contract, so sorting by it is well defined. */
  lemma ChainIsTotalPreorder(keys: seq<Key>)
    ensures TotalPreorder(ChainOf(keys))
  {
    forall a, b
      ensures ChainOf(keys)(a, b) == -ChainOf(keys)(b, a)
    {
      ChainAntisymmetric(keys, a, b);
    }
    forall a, b, c
      ensures TransitiveAt(ChainOf(keys), a, b, c)
    {
      if Chain(keys, a, b) <= 0 && Chain(keys, b, c) <= 0 {
        ChainTransitive(keys, a, b, c);
      }
    }
  }

  /** The GetterComparators sortContent builds: the orders whose property is in the
      getter table, in their order, each with its getter. */
  function ResolveKeys(getters: map<string, MethodDesc>, sort: seq<Order>): (keys: seq<Key>)
    ensures |keys| <= |sort|
    ensures |keys| == 0 <==> forall i :: 0 <= i < |sort| ==> sort[i].property !in getters
  {
    if |sort| == 0 then []
    else
      var rest := ResolveKeys(getters, sort[1..]);
      if sort[0].property in getters then [Key(sort[0], getters[sort[0].property])] + rest else rest
  }

  /** Every key is an order of the sort whose property has a getter, paired with that
      getter. */
  lemma {:induction false} ResolveKeysAreKnown(getters: map<string, MethodDesc>, sort: seq<Order>, p: nat)
    requires p < |ResolveKeys(getters, sort)|
    ensures var k := ResolveKeys(getters, sort)[p];
      k.order in sort && k.order.property in getters && k.getter == getters[k.order.property]
  {
    var rest := ResolveKeys(getters, sort[1..]);
    if sort[0].property in getters {
      if p > 0 {
        ResolveKeysAreKnown(getters, sort[1..], p - 1);
        assert ResolveKeys(getters, sort)[p] == rest[p - 1];
      }
    } else {
      ResolveKeysAreKnown(getters, sort[1..], p);
    }
  }

  /** No order naming a known property is dropped, and orders keep their relative
      order. */
  lemma {:induction false} ResolveKeysKeepsKnownOrders(getters: map<string, MethodDesc>, sort: seq<Order>, i: nat, j: nat)
    requires i < j < |sort|
    requires sort[i].property in getters && sort[j].property in getters
    ensures exists p, q ::
              && 0 <= p < q < |ResolveKeys(getters, sort)|
              && ResolveKeys(getters, sort)[p] == Key(sort[i], getters[sort[i].property])
              && ResolveKeys(getters, sort)[q] == Key(sort[j], getters[sort[j].property])
  {
    var keys := ResolveKeys(getters, sort);
    if i == 0 {
      ResolveKeysKeepsKnown(getters, sort[1..], j - 1);
      var q :| 0 <= q < |ResolveKeys(getters, sort[1..])|
        && ResolveKeys(getters, sort[1..])[q] == Key(sort[j], getters[sort[j].property]);
      assert keys[0] == Key(sort[0], getters[sort[0].property]);
      assert keys[q + 1] == Key(sort[j], getters[sort[j].property]);
    } else {
      ResolveKeysKeepsKnownOrders(getters, sort[1..], i - 1, j - 1);
      var p, q :| 0 <= p < q < |ResolveKeys(getters, sort[1..])|
        && ResolveKeys(getters, sort[1..])[p] == Key(sort[i], getters[sort[i].property])
        && ResolveKeys(getters, sort[1..])[q] == Key(sort[j], getters[sort[j].property]);
      if sort[0].property in getters {
        assert keys[p + 1] == Key(sort[i], getters[sort[i].property]);
        assert keys[q + 1] == Key(sort[j], getters[sort[j].property]);
      }
    }
  }

  lemma {:induction false} ResolveKeysKeepsKnown(getters: map<string, MethodDesc>, sort: seq<Order>, j: nat)
    requires j < |sort| && sort[j].property in getters
    ensures exists q ::
              && 0 <= q < |ResolveKeys(getters, sort)|
              && ResolveKeys(getters, sort)[q] == Key(sort[j], getters[sort[j].property])
  {
    var keys := ResolveKeys(getters, sort);
    if j == 0 {
      assert keys[0] == Key(sort[0], getters[sort[0].property]);
    } else {
      ResolveKeysKeepsKnown(getters, sort[1..], j - 1);
      var q :| 0 <= q < |ResolveKeys(getters, sort[1..])|
        && ResolveKeys(getters, sort[1..])[q] == Key(sort[j], getters[sort[j].property]);
      if sort[0].property in getters {
        assert keys[q + 1] == Key(sort[j], getters[sort[j].property]);
      }
    }
  }

  /** The keys sortContent sorts by: none when the list or the sort is empty; a
      NullPointerException when there are orders and the first element, whose class
      supplies the getters, is null. */
  function SortKeys(content: seq<Record>, sort: seq<Order>): (r: Result<seq<Key>, WrapError>)
    ensures r.Err? <==> |content| > 0 && |sort| > 0 && content[0].NullRecord?
    ensures r.Err? ==> r.error == NullPointer
    ensures r.Ok? ==> |r.value| <= |sort|
  {
    if |content| == 0 || |sort| == 0 then Ok([])
    else if content[0].NullRecord? then Err(NullPointer)
    else Ok(ResolveKeys(Getters(content[0].cls.methods), sort))
  }

  /** The list sortContent leaves behind: unchanged without keys, otherwise its stable
      sort by the chain of keys. */
  function SortedContent(content: seq<Record>, sort: seq<Order>): (r: Result<seq<Record>, WrapError>)
    ensures r.Ok? ==> multiset(r.value) == multiset(content)
    ensures r.Err? <==> SortKeys(content, sort).Err?
  {
    match SortKeys(content, sort)
    case Err(e) => Err(e)
    case Ok(keys) =>
      if |keys| == 0 then Ok(content)
      else
        Ok(SortedBy(ChainOf(keys), content))
  }

  /** sortContent's result is a stable sort: sorted by the chain of keys, a permutation
      of the list, and keeping every group of tied elements in list order. */
  lemma SortedContentIsStableSort(content: seq<Record>, sort: seq<Order>)
    requires SortKeys(content, sort).Ok?
    ensures var keys := SortKeys(content, sort).value;
      var s := SortedContent(content, sort).value;
      && Sorted(ChainOf(keys), s)
      && multiset(s) == multiset(content)
      && forall x :: Ties(ChainOf(keys), s, x) == Ties(ChainOf(keys), content, x)
  {
    var keys := SortKeys(content, sort).value;
    ChainIsTotalPreorder(keys);
    SortedByIsStableSort(ChainOf(keys), content);
  }

  /** Without keys every pair ties, so the list is trivially sorted and stable. */
  lemma NoKeysNoOrder(content: seq<Record>, sort: seq<Order>)
    requires SortKeys(content, sort) == Ok([])
    ensures SortedContent(content, sort) == Ok(content)
    ensures Sorted(ChainOf([]), content)
  {
  }

  /** In the sorted list, records whose first key is null sit together at the end the
      key's null handling names: after every record with a value when NullRank is 1
      (NULLS_LAST, or NATIVE with DESC), before them when it is -1. */
  lemma NullsAtRankEnd(keys: seq<Key>, s: seq<Record>, i: nat, j: nat)
    requires |keys| > 0 && Sorted(ChainOf(keys), s)
    requires i < |s| && j < |s|
    requires Projected(keys[0], s[i]).None? && Projected(keys[0], s[j]).Some?
    ensures NullRank(keys[0].order) == 1 ==> j < i
    ensures NullRank(keys[0].order) == -1 ==> i < j
  {
    assert i != j;
    if i < j {
      assert ChainOf(keys)(s[i], s[j]) <= 0;
    } else {
      assert ChainOf(keys)(s[j], s[i]) <= 0;
    }
  }

  /** sortContent: returns whether it failed; on success the array holds the stable
      sort, on failure it is unchanged. */
  method SortContent(list: array<Record>, sort: seq<Order>) returns (failed: bool)
    modifies list
    ensures failed <==> SortKeys(old(list[..]), sort).Err?
    ensures failed ==> list[..] == old(list[..])
    ensures !failed ==> list[..] == SortedContent(old(list[..]), sort).value
  {
    if list.Length == 0 || |sort| == 0 {
      return false;
    }
    if list[0].NullRecord? {
      return true;
    }
    var getters := FindAllGetters(list[0].cls);
    var keys := ResolveKeys(getters, sort);
    if |keys| == 0 {
      return false;
    }
    StableSort(list, ChainOf(keys));
    return false;
  }

  /** wrap as a function of the caller's list and request. */
  function Paginate(content: seq<Record>, pageable: Option<Pageable>): (r: Result<Page, WrapError>)
    requires |content| <= IntMax
    ensures r.Ok? ==> r.value.total == |content| && multiset(r.value.content) <= multiset(content)
    ensures r.Ok? ==> 1 <= |r.value.content| <= r.value.pageable.pageSize || |content| == 0
  {
    if pageable == Some(Unpaged) then Err(UnsupportedUnpaged)
    else
      var request := RequestOf(pageable);
      match SortedContent(content, SortOf(pageable))
      case Err(e) => Err(e)
      case Ok(sorted) =>
        var rationalized := Rationalize(|sorted|, request);
        match SliceContent(sorted, Some(rationalized))
        case Err(e) => Err(Slice(e))
        case Ok(sub) => Ok(Page(sub, rationalized, |sorted|))
  }

  /** wrap: rejects unpaged requests, sorts a fresh copy of the list and slices it. The
      method has no modifies clause, so the caller's array is left as it was. */
  method Wrap(content: array<Record>, pageable: Option<Pageable>) returns (r: Result<Page, WrapError>)
    requires content.Length <= IntMax
    ensures r == Paginate(content[..], pageable)
  {
    if pageable == Some(Unpaged) {
      return Err(UnsupportedUnpaged);
    }
    var list := new Record[content.Length](i requires 0 <= i < content.Length reads content => content[i]);
    assert list[..] == content[..];
    var request := RequestOf(pageable);
    var failed := SortContent(list, SortOf(pageable));
    if failed {
      return Err(NullPointer);
    }
    var sorted := list[..];
    var rationalized := Rationalize(list.Length, request);
    var sub := SliceContent(sorted, Some(rationalized));
    if sub.Err? {
      return Err(Slice(sub.error));
    }
    return Ok(Page(sub.value, rationalized, list.Length));
  }

  /** The request wrap works with: the one inside a paged Pageable, none for null. */
  function RequestOf(pageable: Option<Pageable>): Option<PageRequest>
  {
    if pageable.Some? && pageable.value.Paged? then Some(pageable.value.request) else None
  }

  function SortOf(pageable: Option<Pageable>): seq<Order>
  {
    if RequestOf(pageable).Some? then RequestOf(pageable).value.sort else []
  }

  /** For lists of at most 2^30 elements wrap fails exactly for an unpaged request and
      for a null first element under a non-empty sort. */
  lemma WrapFailsOnlyWhen(content: seq<Record>, pageable: Option<Pageable>)
    requires |content| <= 0x4000_0000
    ensures Paginate(content, pageable).Err? <==>
      pageable == Some(Unpaged) || (|content| > 0 && |SortOf(pageable)| > 0 && content[0].NullRecord?)
    ensures pageable == Some(Unpaged) ==> Paginate(content, pageable) == Err(UnsupportedUnpaged)
  {
    if pageable != Some(Unpaged) {
      var sorted := SortedContent(content, SortOf(pageable));
      if sorted.Ok? {
        RationalizedSliceSucceeds(sorted.value, RequestOf(pageable));
      }
    }
  }

  /** A page is the rationalized window of the stable sort of the list: its content is
      [WindowStart, WindowEnd) of the sorted copy, its request is the rationalized one
      and its total is the list size. */
  lemma PageIsWindowOfSortedCopy(content: seq<Record>, pageable: Option<Pageable>)
    requires |content| <= 0x4000_0000
    requires pageable != Some(Unpaged)
    requires |content| > 0 && |SortOf(pageable)| > 0 ==> content[0].Instance?
    ensures Paginate(content, pageable).Ok?
    ensures var page := Paginate(content, pageable).value;
      var sorted := SortedContent(content, SortOf(pageable)).value;
      var req := Rationalize(|content|, RequestOf(pageable));
      && page.pageable == req
      && page.total == |content|
      && WindowStart(|content|, req.pageNumber, req.pageSize) <= WindowEnd(|content|, req.pageNumber, req.pageSize) <= |content|
      && page.content == sorted[WindowStart(|content|, req.pageNumber, req.pageSize)..WindowEnd(|content|, req.pageNumber, req.pageSize)]
  {
    WrapFailsOnlyWhen(content, pageable);
    var sorted := SortedContent(content, SortOf(pageable)).value;
    assert |sorted| == |content| by {
      assert multiset(sorted) == multiset(content);
      assert |multiset(sorted)| == |multiset(content)|;
    }
    var req := Rationalize(|content|, RequestOf(pageable));
    RationalizedSliceSucceeds(sorted, RequestOf(pageable));
    SliceIsWindow(sorted, req);
  }
}
