/** GetterComparator and ComparatorChain: how PageWrapper orders two list elements by
    the orders of a Sort. */
module Comparators {
  import opened Results
  import opened Reflection
  import JavaStrings

  datatype Direction = Asc | Desc

  datatype NullHandling = Native | NullsFirst | NullsLast

  /** Sort.Order: the property to sort by and how. */
  datatype Order = Order(property: string, direction: Direction, ignoreCase: bool, nullHandling: NullHandling)

  /** A GetterComparator: an order together with the getter of its property. */
  datatype Key = Key(order: Order, getter: MethodDesc)

  /** toString of a non-null value. */
  function ToText(v: Value): string
  {
    match v
    case IntValue(i) => JavaStrings.DecimalText(i)
    case TextValue(s) => s
  }

  /** The value a key compares for a record: what the getter returns, replaced by its
      toString text when the getter's declared type is not Comparable. Every non-null
      value of one key is of one kind: a number for a Comparable numeric type, text
      otherwise. */
  function Projected(k: Key, r: Record): (v: Option<Value>)
    ensures v.Some? ==> v.value.IntValue? == k.getter.returnType.ComparableInt?
    ensures v.None? <==> Invoke(k.getter, r).None?
    ensures IsComparable(k.getter.returnType) ==> v == Invoke(k.getter, r)
    ensures !IsComparable(k.getter.returnType) && Invoke(k.getter, r).Some? ==>
              v == Some(TextValue(ToText(Invoke(k.getter, r).value)))
  {
    var v := Invoke(k.getter, r);
    if IsComparable(k.getter.returnType) then v
    else if v.Some? then Some(TextValue(ToText(v.value)))
    else None
  }

  predicate SameKind(v: Value, w: Value)
  {
    v.IntValue? == w.IntValue?
  }

  /** Two non-null values: String.compareTo, or compareToIgnoreCase when the order asks
      for it, for text; Integer.compareTo for numbers. */
  function CompareValues(v: Value, w: Value, ignoreCase: bool): (r: int)
    requires SameKind(v, w)
    ensures v == w ==> r == 0
    ensures v.IntValue? ==> (r < 0 <==> v.i < w.i) && (r == 0 <==> v.i == w.i)
    ensures v.TextValue? && !ignoreCase ==> (r == 0 <==> v.s == w.s)
    ensures v.TextValue? && ignoreCase ==> (r == 0 <==> JavaStrings.Lower(v.s) == JavaStrings.Lower(w.s))
  {
    match (v, w)
    case (TextValue(s), TextValue(t)) =>
      if ignoreCase then JavaStrings.CompareToIgnoreCase(s, t) else JavaStrings.CompareTo(s, t)
    case (IntValue(x), IntValue(y)) => JavaStrings.IntegerCompare(x, y)
  }

  /** Where a record whose value is null goes against one whose value is not: before it
      (-1) under NULLS_FIRST and under NATIVE with ASC, after it (1) under NULLS_LAST and
      under NATIVE with DESC. */
  function NullRank(o: Order): int
  {
    match o.nullHandling
    case NullsFirst => -1
    case NullsLast => 1
    case Native => if o.direction == Asc then -1 else 1
  }

  /** One order applied to two projected values. A null against a non-null value gives
      -1 or 1 by the null handling; that result, like a comparison of two values, is
      negated under DESC only when the handling is NATIVE. */
  function CompareOptional(o: Order, v1: Option<Value>, v2: Option<Value>): (r: int)
    requires v1.Some? && v2.Some? ==> SameKind(v1.value, v2.value)
    ensures v1.None? && v2.None? ==> r == 0
    ensures v1.None? && v2.Some? ==> r == NullRank(o)
    ensures v1.Some? && v2.None? ==> r == -NullRank(o)
    ensures v1.Some? && v2.Some? ==> (r == 0 <==> CompareValues(v1.value, v2.value, o.ignoreCase) == 0)
    ensures v1.Some? && v2.Some? ==>
              r == (if o.direction == Desc then -CompareValues(v1.value, v2.value, o.ignoreCase)
                    else CompareValues(v1.value, v2.value, o.ignoreCase))
  {
    var (result, adjust) :=
      if v1.None? && v2.None? then (0, false)
      else if v1.None? then
        match o.nullHandling
        case Native => (-1, true)
        case NullsFirst => (-1, false)
        case NullsLast => (1, false)
      else if v2.None? then
        match o.nullHandling
        case Native => (1, true)
        case NullsFirst => (1, false)
        case NullsLast => (-1, false)
      else (CompareValues(v1.value, v2.value, o.ignoreCase), true);
    if adjust && o.direction == Desc then -result else result
  }

  /** GetterComparator.compare: every record ties with itself; a record whose getter
      gives null goes to the end NullRank names against one whose getter gives a value;
      two values compare in their own order under ASC and in the reverse under DESC. */
  function CompareKey(k: Key, a: Record, b: Record): (r: int)
    ensures a == b ==> r == 0
    ensures Invoke(k.getter, a).None? && Invoke(k.getter, b).Some? ==> r == NullRank(k.order)
    ensures Invoke(k.getter, a).Some? && Invoke(k.getter, b).None? ==> r == -NullRank(k.order)
    ensures Projected(k, a).Some? && Projected(k, b).Some? ==>
              var c := CompareValues(Projected(k, a).value, Projected(k, b).value, k.order.ignoreCase);
              r == (if k.order.direction == Desc then -c else c)
  {
    CompareOptional(k.order, Projected(k, a), Projected(k, b))
  }

  lemma ValuesAntisymmetric(v: Value, w: Value, ignoreCase: bool)
    requires SameKind(v, w)
    ensures CompareValues(v, w, ignoreCase) == -CompareValues(w, v, ignoreCase)
  {
    match (v, w)
    case (TextValue(s), TextValue(t)) =>
      JavaStrings.CompareToAntisymmetric(s, t);
      JavaStrings.CompareToAntisymmetric(JavaStrings.Lower(s), JavaStrings.Lower(t));
    case (IntValue(x), IntValue(y)) =>
  }

  lemma ValuesTransitive(u: Value, v: Value, w: Value, ignoreCase: bool)
    requires SameKind(u, v) && SameKind(v, w)
    requires CompareValues(u, v, ignoreCase) <= 0 && CompareValues(v, w, ignoreCase) <= 0
    ensures CompareValues(u, w, ignoreCase) <= 0
  {
    match (u, v, w)
    case (TextValue(s), TextValue(t), TextValue(x)) =>
      if ignoreCase {
        JavaStrings.CompareToTransitive(JavaStrings.Lower(s), JavaStrings.Lower(t), JavaStrings.Lower(x));
      } else {
        JavaStrings.CompareToTransitive(s, t, x);
      }
    case (IntValue(_), IntValue(_), IntValue(_)) =>
  }

  /** Swapping the records negates a key's result. */
  lemma KeyAntisymmetric(k: Key, a: Record, b: Record)
    ensures CompareKey(k, a, b) == -CompareKey(k, b, a)
  {
    var v1, v2 := Projected(k, a), Projected(k, b);
    if v1.Some? && v2.Some? {
      ValuesAntisymmetric(v1.value, v2.value, k.order.ignoreCase);
    }
  }

  /** A key orders records as a total preorder: "not after" is transitive. */
  lemma KeyTransitive(k: Key, a: Record, b: Record, c: Record)
    requires CompareKey(k, a, b) <= 0 && CompareKey(k, b, c) <= 0
    ensures CompareKey(k, a, c) <= 0
  {
    var v1, v2, v3 := Projected(k, a), Projected(k, b), Projected(k, c);
    var ic := k.order.ignoreCase;
    if v1.Some? && v2.Some? && v3.Some? {
      var x, y, z := v1.value, v2.value, v3.value;
      if k.order.direction == Asc {
        ValuesTransitive(x, y, z, ic);
      } else {
        ValuesAntisymmetric(x, y, ic);
        ValuesAntisymmetric(y, z, ic);
        ValuesAntisymmetric(x, z, ic);
        ValuesTransitive(z, y, x, ic);
      }
    }
  }

  /** Two null values tie, and a null record compares exactly as a record whose getter
      returned null. */
  lemma NullsTie(k: Key, a: Record, b: Record)
    requires Invoke(k.getter, a).None? && Invoke(k.getter, b).None?
    ensures CompareKey(k, a, b) == 0
    ensures CompareKey(k, NullRecord, b) == CompareKey(k, a, b)
  {
  }

  /** The consequence of comparing through toString: under a getter of primitive type
      int, whose values are not Comparable objects, 10 sorts before 9 ascending, because
      the text "10" sorts before "9"; under Integer, 9 sorts before 10. */
  lemma PrimitiveNumbersCompareAsText(k: Key, a: Record, b: Record)
    requires k.getter.returnType == PrimitiveType && k.order.direction == Asc
    requires Invoke(k.getter, a) == Some(IntValue(10)) && Invoke(k.getter, b) == Some(IntValue(9))
    ensures CompareKey(k, a, b) < 0
    ensures var boxed := k.(getter := k.getter.(returnType := ComparableInt));
      CompareKey(boxed, a, b) > 0
  {
    assert JavaStrings.DecimalText(10) == "10";
    assert JavaStrings.DecimalText(9) == "9";
    assert JavaStrings.Utf16("10") == ['1' as int, '0' as int];
    assert JavaStrings.Utf16("9") == ['9' as int];
    var boxed := k.(getter := k.getter.(returnType := ComparableInt));
    assert Invoke(boxed.getter, a) == Some(IntValue(10));
    assert Invoke(boxed.getter, b) == Some(IntValue(9));
  }

  function Reversed(k: Key): Key
  {
    k.(order := k.order.(direction := if k.order.direction == Asc then Desc else Asc))
  }

  /** What DESC changes: under NATIVE it negates every result; under NULLS_FIRST and
      NULLS_LAST it negates the comparison of two values and leaves the null placement. */
  lemma DirectionReverses(k: Key, a: Record, b: Record)
    ensures var both := Projected(k, a).Some? && Projected(k, b).Some?;
            CompareKey(Reversed(k), a, b)
            == if both || k.order.nullHandling == Native then -CompareKey(k, a, b) else CompareKey(k, a, b)
  {
    assert Projected(Reversed(k), a) == Projected(k, a);
    assert Projected(Reversed(k), b) == Projected(k, b);
  }

  /** ComparatorChain.compare: the first key that does not tie decides, so a non-zero
      result is the result of one of the keys, and every record ties with itself. */
  function Chain(keys: seq<Key>, a: Record, b: Record): (r: int)
    ensures a == b ==> r == 0
    ensures r != 0 ==> exists j :: 0 <= j < |keys| && CompareKey(keys[j], a, b) == r
  {
    if |keys| == 0 then 0
    else
      var c := CompareKey(keys[0], a, b);
      if c != 0 then c else Chain(keys[1..], a, b)
  }

  /** ComparatorChain.compare as the source runs it: a loop that returns at the first
      non-zero result. */
  method ChainCompare(keys: seq<Key>, a: Record, b: Record) returns (r: int)
    ensures r == Chain(keys, a, b)
  {
    for i := 0 to |keys|
      invariant Chain(keys[i..], a, b) == Chain(keys, a, b)
    {
      var retval := CompareKey(keys[i], a, b);
      if retval != 0 {
        return retval;
      }
      assert keys[i..][1..] == keys[i + 1..];
    }
    return 0;
  }

  /** The chain is lexicographic: a key decides when every key before it ties. */
  lemma {:induction false} ChainFirstDifferenceDecides(keys: seq<Key>, a: Record, b: Record, i: nat)
    requires i < |keys|
    requires forall j :: 0 <= j < i ==> CompareKey(keys[j], a, b) == 0
    requires CompareKey(keys[i], a, b) != 0
    ensures Chain(keys, a, b) == CompareKey(keys[i], a, b)
  {
    if i > 0 {
      ChainFirstDifferenceDecides(keys[1..], a, b, i - 1);
    }
  }

  /** The chain ties exactly when every key ties. */
  lemma {:induction false} ChainTieIffAllTie(keys: seq<Key>, a: Record, b: Record)
    ensures Chain(keys, a, b) == 0 <==> forall j :: 0 <= j < |keys| ==> CompareKey(keys[j], a, b) == 0
  {
    if |keys| > 0 {
      ChainTieIffAllTie(keys[1..], a, b);
      assert forall j :: 1 <= j < |keys| ==> keys[j] == keys[1..][j - 1];
    }
  }

  lemma {:induction false} ChainAntisymmetric(keys: seq<Key>, a: Record, b: Record)
    ensures Chain(keys, a, b) == -Chain(keys, b, a)
  {
    if |keys| > 0 {
      KeyAntisymmetric(keys[0], a, b);
      ChainAntisymmetric(keys[1..], a, b);
    }
  }

  /** The chain is a total preorder, so a stable sort by it is well defined. */
  lemma {:induction false} ChainTransitive(keys: seq<Key>, a: Record, b: Record, c: Record)
    requires Chain(keys, a, b) <= 0 && Chain(keys, b, c) <= 0
    ensures Chain(keys, a, c) <= 0
  {
    if |keys| > 0 {
      var k := keys[0];
      KeyAntisymmetric(k, a, b);
      KeyAntisymmetric(k, b, c);
      KeyAntisymmetric(k, a, c);
      var x, y := CompareKey(k, a, b), CompareKey(k, b, c);
      if x == 0 && y == 0 {
        KeyTransitive(k, a, b, c);
        KeyTransitive(k, c, b, a);
        ChainTransitive(keys[1..], a, b, c);
      } else if CompareKey(k, a, c) >= 0 {
        // x and y are both at most 0 and one of them is negative
        if x < 0 {
          KeyTransitive(k, b, c, a);
        } else {
          KeyTransitive(k, c, a, b);
        }
      }
    }
  }

  lemma ChainTieTransitive(keys: seq<Key>, a: Record, b: Record, c: Record)
    requires Chain(keys, a, b) == 0 && Chain(keys, b, c) == 0
    ensures Chain(keys, a, c) == 0
  {
    ChainTransitive(keys, a, b, c);
    ChainAntisymmetric(keys, a, b);
    ChainAntisymmetric(keys, b, c);
    ChainAntisymmetric(keys, a, c);
    ChainTransitive(keys, c, b, a);
  }
}
