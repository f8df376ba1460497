/** RandomSubListUtils: n distinct random indexes drawn by swap-remove from a pool of
    candidates (a partial Fisher-Yates shuffle), and the sub-lists they select. The
    random ints java.util.Random would return are an input, one per draw. */
module RandomSubLists {
  import opened Results
  import opened JavaInts
  import Sorting
  import JavaStrings

  datatype IndexError =
    | IndexOutOfBounds   // more elements wanted than the list has
    | NegativeArraySize  // new int[len] or new int[n] with a negative size
    | DivisionByZero     // `rd.nextInt() % len` once the pool is empty

  /** No value occurs twice. */
  predicate Distinct<T(==)>(s: seq<T>)
  {
    forall i, j :: 0 <= i < j < |s| ==> s[i] != s[j]
  }

  /** The candidates min, min + 1, ..., min + len - 1. */
  function Range(min: int, len: nat): (r: seq<int>)
    ensures |r| == len && forall k :: 0 <= k < len ==> r[k] == min + k
  {
    seq(len, k => min + k)
  }

  /** The pool position one random int selects: `Math.abs(r % len)`. */
  function Pick(r: int32, len: int): (index: nat)
    requires 0 < len <= IntMax
    ensures index < len
  {
    Abs(Rem(r, len) as int32)
  }

  /** The pool after the value at `index` is taken: the last value moves into its place
      and the pool shrinks by one. */
  function Remove(pool: seq<int>, index: nat): (r: seq<int>)
    requires index < |pool|
    ensures |r| == |pool| - 1
  {
    pool[index := pool[|pool| - 1]][..|pool| - 1]
  }

  /** Remove as the array operation: the first |pool| - 1 slots after the last value is
      written over the one at `index`. */
  lemma RemoveIsSwap(pool: seq<int>, index: nat, after: seq<int>)
    requires index < |pool| && |after| == |pool| - 1
    requires forall j :: 0 <= j < |after| && j != index ==> after[j] == pool[j]
    requires index < |after| ==> after[index] == pool[|pool| - 1]
    ensures after == Remove(pool, index)
  {
  }

  /** Draws k, k + 1, ..., n - 1 by swap-remove from the pool, one random int each,
      after the values `taken` were drawn; drawing from an empty pool divides by zero. */
  function DrawFrom(pool: seq<int>, draws: seq<int32>, k: nat, n: nat, taken: seq<int>): (r: Result<seq<int>, IndexError>)
    requires k <= n <= |draws| && |pool| <= IntMax
    decreases n - k
    ensures r.Ok? <==> n - k <= |pool|
    ensures r.Err? ==> r.error == DivisionByZero
    ensures r.Ok? ==> |r.value| == |taken| + n - k
  {
    if k == n then Ok(taken)
    else if |pool| == 0 then Err(DivisionByZero)
    else
      var index := Pick(draws[k], |pool|);
      DrawFrom(Remove(pool, index), draws, k + 1, n, taken + [pool[index]])
  }

  /** n draws from the pool. */
  function Draw(pool: seq<int>, draws: seq<int32>, n: nat): (r: Result<seq<int>, IndexError>)
    requires n <= |draws| && |pool| <= IntMax
    ensures r.Ok? <==> n <= |pool|
    ensures r.Err? ==> r.error == DivisionByZero
    ensures r.Ok? ==> |r.value| == n
  {
    DrawFrom(pool, draws, 0, n, [])
  }

  /** Taking a value out of the pool loses nothing else. */
  lemma RemoveTakesOne(pool: seq<int>, index: nat)
    requires index < |pool|
    ensures multiset(Remove(pool, index)) + multiset{pool[index]} == multiset(pool)
  {
    var last := |pool| - 1;
    if index == last {
      assert pool == Remove(pool, index) + [pool[index]];
    } else {
      var swapped := pool[index := pool[last]];
      assert multiset(swapped) == multiset(pool) - multiset{pool[index]} + multiset{pool[last]};
      assert swapped == Remove(pool, index) + [pool[last]];
    }
  }

  /** The remaining draws succeed exactly when the pool holds enough values; they
      then extend `taken` by n - k values, none more often than the pool holds it. */
  lemma {:induction false} DrawFromOutcome(pool: seq<int>, draws: seq<int32>, k: nat, n: nat, taken: seq<int>)
    requires k <= n <= |draws| && |pool| <= IntMax
    decreases n - k
    ensures var r := DrawFrom(pool, draws, k, n, taken);
      && (r.Ok? <==> n - k <= |pool|)
      && (r.Err? ==> r.error == DivisionByZero)
      && (r.Ok? ==> |r.value| == |taken| + n - k && r.value[..|taken|] == taken
                    && multiset(r.value[|taken|..]) <= multiset(pool))
  {
    if k < n && |pool| > 0 {
      var index := Pick(draws[k], |pool|);
      var more := taken + [pool[index]];
      DrawFromOutcome(Remove(pool, index), draws, k + 1, n, more);
      RemoveTakesOne(pool, index);
      var r := DrawFrom(pool, draws, k, n, taken);
      assert r == DrawFrom(Remove(pool, index), draws, k + 1, n, more);
      if r.Ok? {
        SplitAfterPrefix(r.value, taken, pool[index]);
        calc {
          multiset(r.value[|taken|..]);
        ==
          multiset{pool[index]} + multiset(r.value[|more|..]);
        <=
          multiset{pool[index]} + multiset(Remove(pool, index));
        ==
          multiset(pool);
        }
      }
    }
  }

  /** A sequence that starts with taken + [x] starts with taken, followed by x. */
  lemma SplitAfterPrefix(v: seq<int>, taken: seq<int>, x: int)
    requires |v| > |taken| && v[..|taken| + 1] == taken + [x]
    ensures v[..|taken|] == taken
    ensures v[|taken|..] == [x] + v[|taken| + 1..]
  {
    assert v[..|taken| + 1][..|taken|] == v[..|taken|];
  }

  /** Drawing succeeds exactly when the pool holds at least n values; it then yields n
      values, none more often than the pool holds it. */
  lemma DrawOutcome(pool: seq<int>, draws: seq<int32>, n: nat)
    requires n <= |draws| && |pool| <= IntMax
    ensures Draw(pool, draws, n).Ok? <==> n <= |pool|
    ensures Draw(pool, draws, n).Err? ==> Draw(pool, draws, n).error == DivisionByZero
    ensures Draw(pool, draws, n).Ok? ==>
      |Draw(pool, draws, n).value| == n && multiset(Draw(pool, draws, n).value) <= multiset(pool)
  {
    DrawFromOutcome(pool, draws, 0, n, []);
    var r := Draw(pool, draws, n);
    if r.Ok? {
      assert r.value[0..] == r.value;
    }
  }

  /** A distinct sequence holds every value at most once. */
  lemma {:induction false} DistinctCounts<T>(t: seq<T>, x: T)
    requires Distinct(t)
    ensures multiset(t)[x] <= 1
  {
    if |t| > 0 {
      DistinctCounts(t[1..], x);
      assert t == [t[0]] + t[1..];
      if t[0] == x {
        assert x !in t[1..];
      }
    }
  }

  /** Values taken from a distinct sequence, no value more often than it holds it, are
      distinct. */
  lemma DistinctOfSubMultiset<T>(s: seq<T>, t: seq<T>)
    requires multiset(s) <= multiset(t) && Distinct(t)
    ensures Distinct(s)
  {
    forall i, j | 0 <= i < j < |s|
      ensures s[i] != s[j]
    {
      if s[i] == s[j] {
        assert s == s[..i] + [s[i]] + s[i + 1..j] + [s[j]] + s[j + 1..];
        assert multiset(s)[s[i]] >= 2;
        DistinctCounts(t, s[i]);
      }
    }
  }

  /** getRandomIndexes as a function: the candidate array holds [min, max], its length
      computed in int arithmetic; a negative length or count fails when the array is
      created. */
  function RandomIndexes(min: int32, max: int32, n: int32, draws: seq<int32>): (r: Result<seq<int>, IndexError>)
    requires n <= |draws|
    ensures r.Ok? <==> 0 <= n <= ToInt32(max as int - min as int + 1)
    ensures r.Ok? ==> |r.value| == n
  {
    var len := ToInt32(max as int - min as int + 1);
    if len < 0 || n < 0 then Err(NegativeArraySize)
    else Draw(Range(min, len), draws, n)
  }

  /** getRandomIndexes returns n pairwise distinct indexes exactly when 0 <= n <= len,
      where len is max - min + 1 computed in int arithmetic; it fails on a negative length
      or count, and divides by zero when more indexes are wanted than there are
      candidates. When min <= max + 1 the length does not wrap and the indexes lie in
      [min, max]. */
  lemma RandomIndexesOutcome(min: int32, max: int32, n: int32, draws: seq<int32>)
    requires n <= |draws|
    ensures var len := ToInt32(max as int - min as int + 1);
      var r := RandomIndexes(min, max, n, draws);
      && (r.Ok? <==> 0 <= n <= len)
      && (len < 0 || n < 0 ==> r == Err(NegativeArraySize))
      && (0 <= len < n ==> r == Err(DivisionByZero))
      && (r.Ok? ==> |r.value| == n && Distinct(r.value))
      && (r.Ok? && min as int <= max as int + 1 ==> forall k :: 0 <= k < |r.value| ==> min <= r.value[k] <= max)
  {
    var len := ToInt32(max as int - min as int + 1);
    if 0 <= len && 0 <= n {
      var pool := Range(min, len);
      DrawOutcome(pool, draws, n);
      var r := Draw(pool, draws, n);
      if r.Ok? {
        DistinctOfSubMultiset(r.value, pool);
        if min as int <= max as int + 1 {
          LengthDoesNotWrap(min, max);
          forall k | 0 <= k < |r.value|
            ensures min <= r.value[k] <= max
          {
            assert r.value[k] in multiset(pool);
          }
        }
      }
    }
  }

  /** With min <= max + 1 the int length max - min + 1 is exact when it is positive. */
  lemma LengthDoesNotWrap(min: int32, max: int32)
    requires min as int <= max as int + 1
    ensures var len := ToInt32(max as int - min as int + 1);
      len > 0 ==> len == max as int - min as int + 1
  {
    var x := max as int - min as int + 1;
    assert 0 <= x <= 0x1_0000_0000;
    if x > IntMax {
      assert ToInt32(x) == x - 0x1_0000_0000;
    }
  }

  /** One draw's update of the candidates, `result[i] = source[index]; source[index] =
      source[len]` with len already decremented: returns the value at `index` and leaves
      the first len - 1 slots holding the pool without it. */
  method Take(source: array<int>, len: nat, index: nat) returns (value: int)
    requires index < len <= source.Length
    modifies source
    ensures value == old(source[index])
    ensures source[..len - 1] == Remove(old(source[..len]), index)
  {
    ghost var pool := source[..len];
    value := source[index];
    source[index] := source[len - 1];
    RemoveIsSwap(pool, index, source[..len - 1]);
  }

  /** The fill loop of getRandomIndexes, `source[i - min] = i` for i from min up to
      min + len, with that bound computed exactly (SourceAsWritten is the loop with the
      int sum it has in the source). */
  method Fill(source: array<int>, min: int32)
    modifies source
    ensures source[..] == Range(min, source.Length)
  {
    var i: int := min;
    while i < min as int + source.Length
      invariant min <= i <= min as int + source.Length
      invariant source[..i - min] == Range(min, i - min)
    {
      source[i - min] := i;
      i := i + 1;
      assert source[..i - min] == source[..i - 1 - min] + [i - 1];
    }
    assert source[..] == source[..source.Length];
  }

  /** getRandomIndexes: fills the candidate array with min..max, then draws n of them. */
  method GetRandomIndexes(min: int32, max: int32, n: int32, draws: seq<int32>) returns (r: Result<seq<int>, IndexError>)
    requires n <= |draws|
    ensures r == RandomIndexes(min, max, n, draws)
  {
    var len := ToInt32(max as int - min as int + 1);
    if len < 0 {
      return Err(NegativeArraySize);
    }
    var source := new int[len];
    Fill(source, min);
    if n < 0 {
      return Err(NegativeArraySize);
    }
    var result := new int[n];
    r := DrawInto(source, result, draws);
  }

  /** The draw loop of getRandomIndexes: for each result slot, draws a position in the
      first len candidates, takes the value there, moves the last candidate into its
      place and shrinks len. */
  method DrawInto(source: array<int>, result: array<int>, draws: seq<int32>) returns (r: Result<seq<int>, IndexError>)
    requires source != result && source.Length <= IntMax && result.Length <= |draws|
    modifies source, result
    ensures r == Draw(old(source[..]), draws, result.Length)
  {
    var n := result.Length;
    var len := source.Length;
    ghost var outcome := Draw(source[..], draws, n);
    assert source[..len] == source[..] && result[..0] == [];
    for k := 0 to n
      invariant 0 <= len == source.Length - k
      invariant outcome == DrawFrom(source[..len], draws, k, n, result[..k])
    {
      if len == 0 {
        // `rd.nextInt() % len` with len == 0
        return Err(DivisionByZero);
      }
      ghost var pool := source[..len];
      ghost var done := result[..k];
      var index := Pick(draws[k], len);
      var value := Take(source, len, index);
      len := len - 1;
      result[k] := value;
      assert result[..k + 1] == done + [pool[index]];
    }
    assert result[..] == result[..n];
    return Ok(result[..]);
  }

  /** The ascending order Arrays.sort puts ints in is the one Integer.compare gives. */
  lemma IntegerCompareIsTotalPreorder()
    ensures Sorting.TotalPreorder(JavaStrings.IntegerCompare)
  {
    forall a, b, c
      ensures Sorting.TransitiveAt(JavaStrings.IntegerCompare, a, b, c)
    {
    }
  }

  /** Strictly increasing. */
  predicate Increasing(s: seq<int>)
  {
    forall i, j :: 0 <= i < j < |s| ==> s[i] < s[j]
  }

  /** getSortedRandomIndexes as a function: the indexes of getRandomIndexes, sorted. */
  function SortedRandomIndexes(min: int32, max: int32, n: int32, draws: seq<int32>): (r: Result<seq<int>, IndexError>)
    requires n <= |draws|
    ensures r.Ok? <==> RandomIndexes(min, max, n, draws).Ok?
    ensures r.Err? ==> r == RandomIndexes(min, max, n, draws)
    ensures r.Ok? ==> multiset(r.value) == multiset(RandomIndexes(min, max, n, draws).value)
  {
    var drawn := RandomIndexes(min, max, n, draws);
    if drawn.Ok? then
      Ok(Sorting.SortedBy(JavaStrings.IntegerCompare, drawn.value))
    else drawn
  }

  /** The sorted indexes are the drawn ones, in strictly increasing order. */
  lemma SortedRandomIndexesOutcome(min: int32, max: int32, n: int32, draws: seq<int32>)
    requires n <= |draws|
    ensures var r := SortedRandomIndexes(min, max, n, draws);
      && (r.Ok? <==> RandomIndexes(min, max, n, draws).Ok?)
      && (r.Err? ==> r == RandomIndexes(min, max, n, draws))
      && (r.Ok? ==>
           && multiset(r.value) == multiset(RandomIndexes(min, max, n, draws).value)
           && |r.value| == n
           && Increasing(r.value))
      && (r.Ok? && min as int <= max as int + 1 ==> forall k :: 0 <= k < |r.value| ==> min <= r.value[k] <= max)
  {
    RandomIndexesOutcome(min, max, n, draws);
    var drawn := RandomIndexes(min, max, n, draws);
    if drawn.Ok? {
      SortedDistinctIncreasing(drawn.value);
      if min as int <= max as int + 1 {
        SortedInRange(drawn.value, min, max);
      }
    }
  }

  lemma SortedInRange(t: seq<int>, min: int, max: int)
    requires forall k :: 0 <= k < |t| ==> min <= t[k] <= max
    ensures var s := Sorting.SortedBy(JavaStrings.IntegerCompare, t);
      forall k :: 0 <= k < |s| ==> min <= s[k] <= max
  {
    var s := Sorting.SortedBy(JavaStrings.IntegerCompare, t);
    forall k | 0 <= k < |s|
      ensures min <= s[k] <= max
    {
      assert s[k] in multiset(t);
    }
  }

  /** Sorting distinct ints ascending makes them strictly increasing and keeps them. */
  lemma SortedDistinctIncreasing(t: seq<int>)
    requires Distinct(t)
    ensures multiset(Sorting.SortedBy(JavaStrings.IntegerCompare, t)) == multiset(t)
    ensures |Sorting.SortedBy(JavaStrings.IntegerCompare, t)| == |t|
    ensures Increasing(Sorting.SortedBy(JavaStrings.IntegerCompare, t))
  {
    var s := Sorting.SortedBy(JavaStrings.IntegerCompare, t);
    IntegerCompareIsTotalPreorder();
    Sorting.SortedByIsStableSort(JavaStrings.IntegerCompare, t);
    DistinctOfSubMultiset(s, t);
    forall i, j | 0 <= i < j < |s|
      ensures s[i] < s[j]
    {
      assert JavaStrings.IntegerCompare(s[i], s[j]) <= 0;
    }
  }

  /** getSortedRandomIndexes: getRandomIndexes, then Arrays.sort on the result array. */
  method GetSortedRandomIndexes(min: int32, max: int32, n: int32, draws: seq<int32>) returns (r: Result<seq<int>, IndexError>)
    requires n <= |draws|
    ensures r == SortedRandomIndexes(min, max, n, draws)
  {
    var drawn := GetRandomIndexes(min, max, n, draws);
    if drawn.Err? {
      return drawn;
    }
    var re := new int[|drawn.value|](k requires 0 <= k < |drawn.value| => drawn.value[k]);
    assert re[..] == drawn.value;
    Sorting.StableSort(re, JavaStrings.IntegerCompare);
    return Ok(re[..]);
  }

  /** The elements at the given positions, in the order of the positions. */
  function Picks<T>(list: seq<T>, indexes: seq<int>): (r: seq<T>)
    requires forall k :: 0 <= k < |indexes| ==> 0 <= indexes[k] < |list|
    ensures |r| == |indexes|
  {
    seq(|indexes|, k requires 0 <= k < |indexes| => list[indexes[k]])
  }

  /** Distinct positions pick every element at most as often as the list holds it. */
  lemma {:induction false} PicksSubMultiset<T>(list: seq<T>, indexes: seq<int>)
    requires forall k :: 0 <= k < |indexes| ==> 0 <= indexes[k] < |list|
    requires Distinct(indexes)
    ensures multiset(Picks(list, indexes)) <= multiset(list)
    decreases |list|
  {
    if |list| > 0 {
      var m := |list| - 1;
      var init := list[..m];
      assert list == init + [list[m]];
      if p :| 0 <= p < |indexes| && indexes[p] == m {
        var others := indexes[..p] + indexes[p + 1..];
        WithoutPosition(indexes, p, m);
        PicksSubMultiset(init, others);
        PicksWithout(list, indexes, p);
        PicksPrefix(list, others);
      } else {
        PicksPrefix(list, indexes);
        PicksSubMultiset(init, indexes);
      }
    }
  }

  /** Dropping the position of the largest index m leaves distinct indexes below m. */
  lemma WithoutPosition(indexes: seq<int>, p: nat, m: int)
    requires p < |indexes| && indexes[p] == m && Distinct(indexes)
    requires forall k :: 0 <= k < |indexes| ==> 0 <= indexes[k] <= m
    ensures var others := indexes[..p] + indexes[p + 1..];
      && Distinct(others)
      && forall k :: 0 <= k < |others| ==> 0 <= others[k] < m
  {
    var others := indexes[..p] + indexes[p + 1..];
    forall k | 0 <= k < |others|
      ensures others[k] == indexes[if k < p then k else k + 1]
    {
    }
  }

  /** What the picks lose when one position is dropped: exactly the element it picked. */
  lemma PicksWithout<T>(list: seq<T>, indexes: seq<int>, p: nat)
    requires forall k :: 0 <= k < |indexes| ==> 0 <= indexes[k] < |list|
    requires p < |indexes|
    ensures var others := indexes[..p] + indexes[p + 1..];
      multiset(Picks(list, indexes)) == multiset(Picks(list, others)) + multiset{list[indexes[p]]}
  {
    var others := indexes[..p] + indexes[p + 1..];
    var all := Picks(list, indexes);
    assert all == all[..p] + [all[p]] + all[p + 1..];
    assert Picks(list, others) == all[..p] + all[p + 1..];
  }

  /** Indexes below |init| pick the same elements from init as from init + [e]. */
  lemma PicksPrefix<T>(list: seq<T>, indexes: seq<int>)
    requires |list| > 0
    requires forall k :: 0 <= k < |indexes| ==> 0 <= indexes[k] < |list| - 1
    ensures Picks(list, indexes) == Picks(list[..|list| - 1], indexes)
  {
  }

  /** The loop both sub-list methods end with: `tmp.add(list.get(idx))` for each index
      in turn. */
  method Collect<T>(list: seq<T>, indexes: seq<int>) returns (tmp: seq<T>)
    requires forall k :: 0 <= k < |indexes| ==> 0 <= indexes[k] < |list|
    ensures tmp == Picks(list, indexes)
  {
    tmp := [];
    for k := 0 to |indexes|
      invariant tmp == Picks(list, indexes[..k])
    {
      tmp := tmp + [list[indexes[k]]];
    }
    assert indexes[..|indexes|] == indexes;
  }

  /** randomSubList as a function: wanting more elements than the list has is an
      IndexOutOfBoundsException; otherwise the elements at getRandomIndexes(0, size - 1, n),
      in the order drawn. */
  function RandomSubListOf<T>(list: seq<T>, n: int32, draws: seq<int32>): (r: Result<seq<T>, IndexError>)
    requires |list| <= IntMax && n <= |draws|
    ensures r.Err? <==> n < 0 || |list| < n
    ensures r.Ok? ==> |r.value| == n
  {
    if |list| < n then Err(IndexOutOfBounds)
    else
      var indexes := RandomIndexes(0, |list| - 1, n, draws);
      RandomIndexesOutcome(0, |list| - 1, n, draws);
      if indexes.Err? then Err(indexes.error)
      else Ok(Picks(list, indexes.value))
  }

  /** randomSubList. */
  method RandomSubList<T>(list: seq<T>, n: int32, draws: seq<int32>) returns (r: Result<seq<T>, IndexError>)
    requires |list| <= IntMax && n <= |draws|
    ensures r == RandomSubListOf(list, n, draws)
  {
    if |list| < n {
      return Err(IndexOutOfBounds);
    }
    var indexes := GetRandomIndexes(0, |list| - 1, n, draws);
    if indexes.Err? {
      return Err(indexes.error);
    }
    RandomIndexesOutcome(0, |list| - 1, n, draws);
    var tmp := Collect(list, indexes.value);
    return Ok(tmp);
  }

  /** randomSubList fails exactly when n is negative or larger than the list; otherwise
      it yields n elements of the list, none more often than the list holds it, so the
      elements are distinct when the list's are. */
  lemma RandomSubListOutcome<T>(list: seq<T>, n: int32, draws: seq<int32>)
    requires |list| <= IntMax && n <= |draws|
    ensures var r := RandomSubListOf(list, n, draws);
      && (r.Err? <==> n < 0 || |list| < n)
      && (|list| < n ==> r == Err(IndexOutOfBounds))
      && (n < 0 ==> r == Err(NegativeArraySize))
      && (r.Ok? ==> |r.value| == n && multiset(r.value) <= multiset(list))
      && (r.Ok? && Distinct(list) ==> Distinct(r.value))
      && (r.Ok? ==> exists idx :: |idx| == n && Distinct(idx) && (forall k :: 0 <= k < n ==> 0 <= idx[k] < |list|)
                                  && r.value == Picks(list, idx))
  {
    var r := RandomSubListOf(list, n, draws);
    RandomIndexesOutcome(0, |list| - 1, n, draws);
    if r.Ok? {
      var indexes := RandomIndexes(0, |list| - 1, n, draws);
      assert r.value == Picks(list, indexes.value);
      PicksSubMultiset(list, indexes.value);
      if Distinct(list) {
        DistinctOfSubMultiset(r.value, list);
      }
    }
  }

  /** sortedRandomSubList as a function: the same, with the indexes sorted. */
  function SortedRandomSubListOf<T>(list: seq<T>, n: int32, draws: seq<int32>): (r: Result<seq<T>, IndexError>)
    requires |list| <= IntMax && n <= |draws|
    ensures r.Err? <==> n < 0 || |list| < n
    ensures r.Ok? ==> |r.value| == n
  {
    if |list| < n then Err(IndexOutOfBounds)
    else
      var indexes := SortedRandomIndexes(0, |list| - 1, n, draws);
      SortedRandomIndexesOutcome(0, |list| - 1, n, draws);
      if indexes.Err? then Err(indexes.error)
      else Ok(Picks(list, indexes.value))
  }

  /** sortedRandomSubList. */
  method SortedRandomSubList<T>(list: seq<T>, n: int32, draws: seq<int32>) returns (r: Result<seq<T>, IndexError>)
    requires |list| <= IntMax && n <= |draws|
    ensures r == SortedRandomSubListOf(list, n, draws)
  {
    if |list| < n {
      return Err(IndexOutOfBounds);
    }
    var indexes := GetSortedRandomIndexes(0, |list| - 1, n, draws);
    if indexes.Err? {
      return Err(indexes.error);
    }
    SortedRandomIndexesOutcome(0, |list| - 1, n, draws);
    var tmp := Collect(list, indexes.value);
    return Ok(tmp);
  }

  /** sortedRandomSubList fails exactly as randomSubList does; otherwise it yields n
      elements of the list taken at increasing positions, so a list in order by any
      comparator gives a sub-list in that order. */
  lemma SortedRandomSubListOutcome<T>(list: seq<T>, n: int32, draws: seq<int32>, cmp: (T, T) -> int)
    requires |list| <= IntMax && n <= |draws|
    ensures var r := SortedRandomSubListOf(list, n, draws);
      && (r.Err? <==> n < 0 || |list| < n)
      && (|list| < n ==> r == Err(IndexOutOfBounds))
      && (n < 0 ==> r == Err(NegativeArraySize))
      && (r.Ok? ==> |r.value| == n && multiset(r.value) <= multiset(list))
      && (r.Ok? && Sorting.Sorted(cmp, list) ==> Sorting.Sorted(cmp, r.value))
      && (r.Ok? ==> exists idx :: |idx| == n && Increasing(idx) && (forall k :: 0 <= k < n ==> 0 <= idx[k] < |list|)
                                  && r.value == Picks(list, idx))
  {
    var r := SortedRandomSubListOf(list, n, draws);
    SortedRandomIndexesOutcome(0, |list| - 1, n, draws);
    RandomIndexesOutcome(0, |list| - 1, n, draws);
    if r.Ok? {
      var indexes := SortedRandomIndexes(0, |list| - 1, n, draws).value;
      assert r.value == Picks(list, indexes);
      assert Distinct(indexes);
      PicksSubMultiset(list, indexes);
      if Sorting.Sorted(cmp, list) {
        PicksKeepOrder(list, indexes, cmp);
      }
    }
  }

  /** Elements picked at increasing positions keep the list's order. */
  lemma PicksKeepOrder<T>(list: seq<T>, indexes: seq<int>, cmp: (T, T) -> int)
    requires forall k :: 0 <= k < |indexes| ==> 0 <= indexes[k] < |list|
    requires Increasing(indexes) && Sorting.Sorted(cmp, list)
    ensures Sorting.Sorted(cmp, Picks(list, indexes))
  {
    var s := Picks(list, indexes);
    forall i, j | 0 <= i < j < |s|
      ensures cmp(s[i], s[j]) <= 0
    {
      assert indexes[i] < indexes[j];
    }
  }

  /** The fill loop of getRandomIndexes as written: the bound `min + len` is an int sum,
      so once it passes Integer.MAX_VALUE it wraps below min and the loop never runs.
      Slot k holds min + k only when the loop reaches i = min + k. */
  function SourceAsWritten(min: int32, len: int32): (r: seq<int>)
    requires len >= 0
    ensures |r| == len
    ensures min as int + len as int <= IntMax ==> r == Range(min, len)
    ensures min as int + len as int > IntMax ==> forall k :: 0 <= k < len ==> r[k] == 0
  {
    var bound := ToInt32(min as int + len as int);
    seq(len, k => if min as int + k < bound then min as int + k else 0)
  }

  /** getRandomIndexes with the fill loop as written. */
  function RandomIndexesAsWritten(min: int32, max: int32, n: int32, draws: seq<int32>): (r: Result<seq<int>, IndexError>)
    requires n <= |draws|
    ensures var len := ToInt32(max as int - min as int + 1);
      && (r.Ok? <==> 0 <= n <= len)
      && (len < 0 || n < 0 ==> r == Err(NegativeArraySize))
      && (0 <= len < n ==> r == Err(DivisionByZero))
      && (r.Ok? ==> |r.value| == n)
  {
    var len := ToInt32(max as int - min as int + 1);
    if len < 0 || n < 0 then Err(NegativeArraySize)
    else Draw(SourceAsWritten(min, len), draws, n)
  }

  /** While min + len fits in an int the loop as written fills the candidates as
      intended, so the two agree; randomSubList and sortedRandomSubList, which draw from
      [0, size - 1], are never affected. */
  lemma AsWrittenAgreesWithoutOverflow(min: int32, max: int32, n: int32, draws: seq<int32>)
    requires n <= |draws|
    requires min as int + ToInt32(max as int - min as int + 1) <= IntMax
    ensures RandomIndexesAsWritten(min, max, n, draws) == RandomIndexes(min, max, n, draws)
  {
    var len := ToInt32(max as int - min as int + 1);
    if len >= 0 {
      assert SourceAsWritten(min, len) == Range(min, len);
    }
  }

  lemma SubListsAreUnaffected(size: int32, n: int32, draws: seq<int32>)
    requires 0 <= size && n <= |draws|
    ensures RandomIndexesAsWritten(0, size - 1, n, draws) == RandomIndexes(0, size - 1, n, draws)
  {
    AsWrittenAgreesWithoutOverflow(0, size - 1, n, draws);
  }

  /** Drawing from a pool of zeros yields zeros. */
  lemma DrawFromZeros(pool: seq<int>, draws: seq<int32>, n: nat)
    requires n <= |draws| && n <= |pool| <= IntMax
    requires forall k :: 0 <= k < |pool| ==> pool[k] == 0
    ensures Draw(pool, draws, n) == Ok(seq(n, _ => 0))
  {
    DrawOutcome(pool, draws, n);
    var r := Draw(pool, draws, n).value;
    forall k | 0 <= k < n
      ensures r[k] == 0
    {
      assert r[k] in multiset(pool);
    }
    assert r == seq(n, _ => 0);
  }

  /** The overflow: for [2147483642, 2147483647] the bound min + 6 wraps, the candidates
      stay 0 and three draws return three zeros, none of them in range and not
      distinct; the intended definition returns three distinct indexes in the range. */
  lemma OverflowCounterexample(draws: seq<int32>)
    requires 3 <= |draws|
    ensures RandomIndexesAsWritten(2147483642, 2147483647, 3, draws) == Ok([0, 0, 0])
    ensures var r := RandomIndexes(2147483642, 2147483647, 3, draws);
      && r.Ok? && |r.value| == 3 && Distinct(r.value)
      && forall k :: 0 <= k < 3 ==> 2147483642 <= r.value[k] <= 2147483647
  {
    var pool := SourceAsWritten(2147483642, 6);
    assert ToInt32(2147483642 + 6) == 2147483648 - 0x1_0000_0000;
    DrawFromZeros(pool, draws, 3);
    assert seq(3, _ => 0) == [0, 0, 0];
    RandomIndexesOutcome(2147483642, 2147483647, 3, draws);
  }
}
