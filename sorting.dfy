/** Stable sorting by a comparator that returns negative, zero or positive ints, as
    List.sort does: specified by insertion sort and characterised as the unique
    arrangement that is sorted and keeps tied elements in their input order. */
module Sorting {

  ghost predicate Antisymmetric<T(!new)>(cmp: (T, T) -> int)
  {
    forall a, b :: cmp(a, b) == -cmp(b, a)
  }

  /** Transitivity at one triple; the proofs below name the triples they use. */
  ghost predicate TransitiveAt<T>(cmp: (T, T) -> int, a: T, b: T, c: T)
  {
    cmp(a, b) <= 0 && cmp(b, c) <= 0 ==> cmp(a, c) <= 0
  }

  ghost predicate Transitive<T(!new)>(cmp: (T, T) -> int)
  {
    forall a, b, c :: TransitiveAt(cmp, a, b, c)
  }

  /** What the comparator contract of java.util.Comparator asks for. */
  ghost predicate TotalPreorder<T(!new)>(cmp: (T, T) -> int)
  {
    Antisymmetric(cmp) && Transitive(cmp)
  }

  /** No element is ordered after a later one. */
  ghost predicate Sorted<T>(cmp: (T, T) -> int, s: seq<T>)
  {
    forall i, j :: 0 <= i < j < |s| ==> cmp(s[i], s[j]) <= 0
  }

  /** The elements of s that tie with x, in their order in s. */
  function Ties<T>(cmp: (T, T) -> int, s: seq<T>, x: T): (t: seq<T>)
    ensures |t| <= |s|
  {
    if |s| == 0 then []
    else
      var last := s[|s| - 1];
      Ties(cmp, s[..|s| - 1], x) + (if cmp(last, x) == 0 then [last] else [])
  }

  /** The ties of x are elements of s that tie with x. */
  lemma {:induction false} TiesAreFrom<T>(cmp: (T, T) -> int, s: seq<T>, x: T, e: T)
    requires e in Ties(cmp, s, x)
    ensures e in s && cmp(e, x) == 0
  {
    var init := s[..|s| - 1];
    if e !in Ties(cmp, init, x) {
      assert e == s[|s| - 1];
    } else {
      TiesAreFrom(cmp, init, x, e);
      assert s == init + [s[|s| - 1]];
    }
  }

  /** Inserts x after the last element of s that is not ordered after it. */
  function Insert<T>(cmp: (T, T) -> int, s: seq<T>, x: T): (r: seq<T>)
    ensures |r| == |s| + 1
  {
    if |s| == 0 then [x]
    else
      var init, last := s[..|s| - 1], s[|s| - 1];
      if cmp(last, x) > 0 then Insert(cmp, init, x) + [last] else s + [x]
  }

  /** Inserting adds x and loses nothing. */
  lemma {:induction false} InsertPermutes<T>(cmp: (T, T) -> int, s: seq<T>, x: T)
    ensures multiset(Insert(cmp, s, x)) == multiset(s) + multiset{x}
  {
    if |s| > 0 {
      var init, last := s[..|s| - 1], s[|s| - 1];
      assert s == init + [last];
      if cmp(last, x) > 0 {
        InsertPermutes(cmp, init, x);
      }
    }
  }

  /** Insertion sort, inserting the elements in input order: a permutation of s. */
  function SortedBy<T>(cmp: (T, T) -> int, s: seq<T>): (r: seq<T>)
    ensures |r| == |s|
    ensures multiset(r) == multiset(s)
  {
    if |s| == 0 then []
    else
      var init, last := s[..|s| - 1], s[|s| - 1];
      InsertPermutes(cmp, SortedBy(cmp, init), last);
      assert s == init + [last];
      Insert(cmp, SortedBy(cmp, init), last)
  }

  lemma TiesAppend<T>(cmp: (T, T) -> int, s: seq<T>, e: T, x: T)
    ensures Ties(cmp, s + [e], x) == Ties(cmp, s, x) + (if cmp(e, x) == 0 then [e] else [])
  {
    assert (s + [e])[..|s|] == s;
  }

  lemma {:induction false} InsertKeepsSorted<T(!new)>(cmp: (T, T) -> int, s: seq<T>, x: T)
    requires TotalPreorder(cmp)
    requires Sorted(cmp, s)
    ensures Sorted(cmp, Insert(cmp, s, x))
  {
    if |s| > 0 {
      var init, last := s[..|s| - 1], s[|s| - 1];
      if cmp(last, x) > 0 {
        InsertKeepsSorted(cmp, init, x);
        InsertStaysBefore(cmp, init, x, last);
        SortedAppend(cmp, Insert(cmp, init, x), last);
      } else {
        forall i | 0 <= i < |s| - 1
          ensures cmp(s[i], x) <= 0
        {
          assert TransitiveAt(cmp, s[i], last, x);
        }
        SortedAppend(cmp, s, x);
      }
    }
  }

  /** Appending an element no earlier element is ordered after keeps a sequence sorted. */
  lemma SortedAppend<T>(cmp: (T, T) -> int, t: seq<T>, e: T)
    requires Sorted(cmp, t)
    requires forall i :: 0 <= i < |t| ==> cmp(t[i], e) <= 0
    ensures Sorted(cmp, t + [e])
  {
  }

  /** Inserting x, ordered before `last`, into elements none of which is ordered after
      `last`, yields elements none of which is ordered after `last`. */
  lemma InsertStaysBefore<T(!new)>(cmp: (T, T) -> int, init: seq<T>, x: T, last: T)
    requires Antisymmetric(cmp)
    requires cmp(last, x) > 0
    requires forall i :: 0 <= i < |init| ==> cmp(init[i], last) <= 0
    ensures forall i :: 0 <= i < |init| + 1 ==> cmp(Insert(cmp, init, x)[i], last) <= 0
  {
    var t := Insert(cmp, init, x);
    InsertPermutes(cmp, init, x);
    forall i | 0 <= i < |t|
      ensures cmp(t[i], last) <= 0
    {
      assert t[i] in multiset(t);
      if t[i] != x {
        assert t[i] in multiset(init);
        var j :| 0 <= j < |init| && init[j] == t[i];
      }
    }
  }

  /** Inserting y adds y to the ties of x when y ties with x and changes nothing else:
      y lands after every element it ties with. */
  lemma {:induction false} InsertTies<T(!new)>(cmp: (T, T) -> int, s: seq<T>, y: T, x: T)
    requires TotalPreorder(cmp)
    ensures Ties(cmp, Insert(cmp, s, y), x) == Ties(cmp, s, x) + (if cmp(y, x) == 0 then [y] else [])
  {
    var ys := if cmp(y, x) == 0 then [y] else [];
    if |s| == 0 {
      TiesAppend(cmp, [], y, x);
    } else {
      var init, last := s[..|s| - 1], s[|s| - 1];
      var ls := if cmp(last, x) == 0 then [last] else [];
      assert Ties(cmp, s, x) == Ties(cmp, init, x) + ls;
      if cmp(last, y) > 0 {
        InsertTies(cmp, init, y, x);
        TiesAppend(cmp, Insert(cmp, init, y), last, x);
        assert Insert(cmp, s, y) == Insert(cmp, init, y) + [last];
        assert TransitiveAt(cmp, last, x, y);
        assert ls == [] || ys == [];
      } else {
        TiesAppend(cmp, s, y, x);
      }
    }
  }

  /** Insertion sort is a stable sort: its output is sorted, a permutation of its input
      (SortedBy's contract), and lists the elements that tie with any x in input order. */
  lemma {:induction false} SortedByIsStableSort<T(!new)>(cmp: (T, T) -> int, s: seq<T>)
    requires TotalPreorder(cmp)
    ensures multiset(SortedBy(cmp, s)) == multiset(s)
    ensures Sorted(cmp, SortedBy(cmp, s))
    ensures forall x :: Ties(cmp, SortedBy(cmp, s), x) == Ties(cmp, s, x)
  {
    if |s| > 0 {
      var init, last := s[..|s| - 1], s[|s| - 1];
      SortedByIsStableSort(cmp, init);
      InsertKeepsSorted(cmp, SortedBy(cmp, init), last);
      forall x
        ensures Ties(cmp, SortedBy(cmp, s), x) == Ties(cmp, s, x)
      {
        InsertTies(cmp, SortedBy(cmp, init), last, x);
      }
    }
  }

  /** A non-empty sequence lists its last element among the ties of that element. */
  lemma LastIsTie<T(!new)>(cmp: (T, T) -> int, w: seq<T>)
    requires Antisymmetric(cmp)
    requires |w| > 0
    ensures Ties(cmp, w, w[|w| - 1]) == Ties(cmp, w[..|w| - 1], w[|w| - 1]) + [w[|w| - 1]]
  {
    assert cmp(w[|w| - 1], w[|w| - 1]) == 0;
  }

  /** Two sorted sequences with the same ties for every x end in the same element. */
  lemma SameLast<T(!new)>(cmp: (T, T) -> int, u: seq<T>, v: seq<T>)
    requires Antisymmetric(cmp)
    requires |u| > 0 && |v| > 0
    requires Sorted(cmp, u) && Sorted(cmp, v)
    requires forall x :: Ties(cmp, u, x) == Ties(cmp, v, x)
    ensures u[|u| - 1] == v[|v| - 1]
  {
    var ul, vl := u[|u| - 1], v[|v| - 1];
    LastIsTie(cmp, u);
    LastIsTie(cmp, v);
    assert ul in Ties(cmp, v, ul);
    TiesAreFrom(cmp, v, ul, ul);
    var i :| 0 <= i < |v| && v[i] == ul;
    assert vl in Ties(cmp, u, vl);
    TiesAreFrom(cmp, u, vl, vl);
    var j :| 0 <= j < |u| && u[j] == vl;
    assert cmp(ul, vl) <= 0 by {
      if i < |v| - 1 { assert cmp(v[i], v[|v| - 1]) <= 0; }
    }
    assert cmp(vl, ul) <= 0 by {
      if j < |u| - 1 { assert cmp(u[j], u[|u| - 1]) <= 0; }
    }
    assert Ties(cmp, u, ul)[|Ties(cmp, u, ul)| - 1] == ul;
  }

  /** Removing the same last element keeps the ties equal. */
  lemma DropLastTies<T>(cmp: (T, T) -> int, u: seq<T>, v: seq<T>, x: T)
    requires |u| > 0 && |v| > 0 && u[|u| - 1] == v[|v| - 1]
    requires Ties(cmp, u, x) == Ties(cmp, v, x)
    ensures Ties(cmp, u[..|u| - 1], x) == Ties(cmp, v[..|v| - 1], x)
  {
    var tu, tv := Ties(cmp, u[..|u| - 1], x), Ties(cmp, v[..|v| - 1], x);
    var tail := if cmp(u[|u| - 1], x) == 0 then [u[|u| - 1]] else [];
    assert tu + tail == tv + tail;
    assert tu == (tu + tail)[..|tu + tail| - |tail|];
    assert tv == (tv + tail)[..|tv + tail| - |tail|];
  }

  /** An empty sequence has no ties, a non-empty one has its last element's. */
  lemma EmptyTies<T(!new)>(cmp: (T, T) -> int, u: seq<T>, v: seq<T>)
    requires Antisymmetric(cmp)
    requires forall x :: Ties(cmp, u, x) == Ties(cmp, v, x)
    ensures |u| == 0 <==> |v| == 0
  {
    if |u| > 0 {
      LastIsTie(cmp, u);
      assert Ties(cmp, v, u[|u| - 1]) != [];
    }
    if |v| > 0 {
      LastIsTie(cmp, v);
      assert Ties(cmp, u, v[|v| - 1]) != [];
    }
  }

  /** Two sorted sequences with the same ties for every x are equal. */
  lemma {:induction false} StableOrderIsUnique<T(!new)>(cmp: (T, T) -> int, u: seq<T>, v: seq<T>)
    requires Antisymmetric(cmp)
    requires Sorted(cmp, u) && Sorted(cmp, v)
    requires forall x :: Ties(cmp, u, x) == Ties(cmp, v, x)
    ensures u == v
    decreases |u|
  {
    EmptyTies(cmp, u, v);
    if |u| > 0 {
      SameLast(cmp, u, v);
      var u', v' := u[..|u| - 1], v[..|v| - 1];
      forall x
        ensures Ties(cmp, u', x) == Ties(cmp, v', x)
      {
        DropLastTies(cmp, u, v, x);
      }
      assert Sorted(cmp, u') && Sorted(cmp, v');
      StableOrderIsUnique(cmp, u', v');
      assert u == u' + [u[|u| - 1]] && v == v' + [v[|v| - 1]];
    }
  }

  /** Any stable sort of s, TimSort included, yields SortedBy(cmp, s). */
  lemma StableSortIsDetermined<T(!new)>(cmp: (T, T) -> int, s: seq<T>, t: seq<T>)
    requires TotalPreorder(cmp)
    requires Sorted(cmp, t)
    requires forall x :: Ties(cmp, t, x) == Ties(cmp, s, x)
    ensures t == SortedBy(cmp, s)
  {
    SortedByIsStableSort(cmp, s);
    StableOrderIsUnique(cmp, t, SortedBy(cmp, s));
  }

  /** List.sort, in place: an insertion sort that moves each element left past the
      elements ordered after it. It yields SortedBy, the unique stable sort
      (StableSortIsDetermined), so it agrees with the library's merge sort. */
  method StableSort<T>(a: array<T>, cmp: (T, T) -> int)
    modifies a
    ensures a[..] == SortedBy(cmp, old(a[..]))
  {
    ghost var input := a[..];
    for i := 0 to a.Length
      invariant a[..] == SortedBy(cmp, input[..i]) + input[i..]
    {
      SortStep(a, cmp, input, i);
    }
    assert input[..a.Length] == input;
  }

  /** One pass of the outer loop: the sorted prefix grows by the next input element. */
  method SortStep<T>(a: array<T>, cmp: (T, T) -> int, ghost input: seq<T>, i: nat)
    requires i < a.Length == |input|
    requires a[..] == SortedBy(cmp, input[..i]) + input[i..]
    modifies a
    ensures a[..] == SortedBy(cmp, input[..i + 1]) + input[i + 1..]
  {
    ghost var prefix := SortedBy(cmp, input[..i]);
    SplitAt(a[..], prefix, input[i..]);
    InsertLast(a, i, cmp);
    SortedByStep(cmp, input, i);
    JoinAt(a[..], i + 1);
  }

  /** The two halves of a concatenation, read back by slicing. */
  lemma SplitAt<T>(s: seq<T>, p: seq<T>, r: seq<T>)
    requires s == p + r && |r| > 0
    ensures s[..|p|] == p && s[|p|] == r[0] && s[|p| + 1..] == r[1..]
  {
  }

  lemma JoinAt<T>(s: seq<T>, k: nat)
    requires k <= |s|
    ensures s == s[..k] + s[k..]
  {
  }

  /** Sorting one more element of s inserts it into the sorted prefix. */
  lemma SortedByStep<T>(cmp: (T, T) -> int, s: seq<T>, i: nat)
    requires i < |s|
    ensures SortedBy(cmp, s[..i + 1]) == Insert(cmp, SortedBy(cmp, s[..i]), s[i])
  {
    assert s[..i + 1][..i] == s[..i];
  }

  /** The inner loop: moves a[i] left past the elements of a[..i] ordered after it. */
  method InsertLast<T>(a: array<T>, i: nat, cmp: (T, T) -> int)
    requires i < a.Length
    modifies a
    ensures a[..i + 1] == Insert(cmp, old(a[..i]), old(a[i]))
    ensures a[i + 1..] == old(a[i + 1..])
  {
    ghost var sorted := a[..i];
    ghost var rest := a[i + 1..];
    var x := a[i];
    var j := i;
    while j > 0 && cmp(a[j - 1], x) > 0
      invariant 0 <= j <= i
      invariant a[..j] == sorted[..j]
      invariant a[j + 1..i + 1] == sorted[j..]
      invariant a[i + 1..] == rest
      invariant forall k :: j <= k < i ==> cmp(sorted[k], x) > 0
    {
      ghost var before := a[..];
      a[j] := a[j - 1];
      ShiftStep(before, a[..], sorted, j, i);
      j := j - 1;
    }
    ghost var before := a[..];
    a[j] := x;
    PlaceStep(before, a[..], sorted, j, i, x);
    InsertAt(cmp, sorted, j, x);
  }

  /** Copying t[j - 1] into the gap at j moves the gap one place left. */
  lemma ShiftStep<T>(s: seq<T>, t: seq<T>, sorted: seq<T>, j: nat, i: nat)
    requires 0 < j <= i < |s| && |sorted| == i
    requires s[..j] == sorted[..j] && s[j + 1..i + 1] == sorted[j..]
    requires t == s[j := s[j - 1]]
    ensures t[..j - 1] == sorted[..j - 1] && t[j..i + 1] == sorted[j - 1..]
    ensures t[i + 1..] == s[i + 1..]
  {
    assert t[j..i + 1] == [sorted[j - 1]] + sorted[j..];
  }

  /** Filling the gap at j with x completes the insertion. */
  lemma PlaceStep<T>(s: seq<T>, t: seq<T>, sorted: seq<T>, j: nat, i: nat, x: T)
    requires j <= i < |s| && |sorted| == i
    requires s[..j] == sorted[..j] && s[j + 1..i + 1] == sorted[j..]
    requires t == s[j := x]
    ensures t[..i + 1] == sorted[..j] + [x] + sorted[j..]
    ensures t[i + 1..] == s[i + 1..]
  {
  }

  /** Insert puts x right after the last element not ordered after it: at position j
      when every element from j on is ordered after x and the one before j is not. */
  lemma {:induction false} InsertAt<T>(cmp: (T, T) -> int, s: seq<T>, j: nat, x: T)
    requires j <= |s|
    requires j > 0 ==> cmp(s[j - 1], x) <= 0
    requires forall k :: j <= k < |s| ==> cmp(s[k], x) > 0
    ensures Insert(cmp, s, x) == s[..j] + [x] + s[j..]
  {
    if j < |s| {
      var init, last := s[..|s| - 1], s[|s| - 1];
      assert cmp(last, x) > 0;
      assert forall k :: j <= k < |init| ==> init[k] == s[k];
      InsertAt(cmp, init, j, x);
      assert Insert(cmp, s, x) == Insert(cmp, init, x) + [last];
      assert init[..j] == s[..j] && init[j..] + [last] == s[j..];
    } else {
      assert s[..j] == s && s[j..] == [];
    }
  }
}
