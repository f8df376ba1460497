/** What PageWrapper learns about list elements by reflection: the methods of the first
    element's class, the getters among them, and the values those getters return. */
module Reflection {
  import opened Results
  import JavaStrings

  /** A non-null value a getter returns: a number, or text (a String, or the toString of
      some other object). */
  datatype Value = IntValue(i: int) | TextValue(s: string)

  /** The declared return type of a method, as far as getter discovery and comparison care. */
  datatype ReturnType =
    | VoidType        // void or java.lang.Void: never a getter
    | PrimitiveType   // int, long, boolean, ...: not a Comparable class
    | ComparableInt   // Integer, Long, ...: Comparable, compared numerically
    | ComparableText  // String: Comparable, compared as text
    | OtherType       // any other reference type that is not Comparable

  /** Comparable.class.isAssignableFrom(returnType). */
  predicate IsComparable(t: ReturnType)
  {
    t.ComparableInt? || t.ComparableText?
  }

  /** The values a method of declared type t can return. */
  predicate Fits(v: Value, t: ReturnType)
  {
    match t
    case ComparableInt => v.IntValue?
    case ComparableText => v.TextValue?
    case _ => true
  }

  /** A method: the class that declares it, its name and signature. */
  datatype MethodDesc = MethodDesc(declaringClass: string, name: string, parameterCount: nat, isStatic: bool, returnType: ReturnType)

  /** A class: its name, the names of the class itself and of every class and interface
      it extends or implements, and the public methods getMethods() lists, in that
      order. */
  datatype ClassDesc = ClassDesc(name: string, supertypes: set<string>, methods: seq<MethodDesc>)

  /** Whether a record is an instance of the class that declares a method, so that
      Method.invoke accepts it as the target; invoke then runs the record's own
      (possibly overriding) zero-argument method of that name. */
  predicate Accepts(getter: MethodDesc, r: Record)
  {
    r.Instance? && getter.declaringClass in r.cls.supertypes
  }

  /** A list element: null, or an instance of a class together with what each of its
      zero-argument methods returns (None for null); a method name missing from
      results is one whose invocation throws. */
  datatype Record = NullRecord | Instance(cls: ClassDesc, results: map<string, Option<Value>>)

  /** getter.invoke(r) with every exception caught and read as null: a null record
      (NullPointerException), an object that is not an instance of the getter's
      declaring class (IllegalArgumentException), or a getter that throws gives None.
      A result that does not fit the declared type cannot come from an instance of the
      declaring class, so it is read as a failed invocation too. */
  function Invoke(getter: MethodDesc, r: Record): (v: Option<Value>)
    ensures v.Some? ==> Fits(v.value, getter.returnType)
    ensures v.Some? ==> Accepts(getter, r) && getter.name in r.results && r.results[getter.name] == v
    ensures Accepts(getter, r) && getter.name in r.results
            && (r.results[getter.name].Some? ==> Fits(r.results[getter.name].value, getter.returnType))
            ==> v == r.results[getter.name]
  {
    match r
    case NullRecord => None
    case Instance(cls, results) =>
      if Accepts(getter, r) && getter.name in results
         && (results[getter.name].Some? ==> Fits(results[getter.name].value, getter.returnType))
      then results[getter.name]
      else None
  }

  /** Introspector.decapitalize, the rule of section 8.8 of the JavaBeans specification:
      the first character is lowered unless the first two are both upper case. */
  function Decapitalize(name: string): (r: string)
    ensures |r| == |name|
    ensures |name| > 0 ==> r[1..] == name[1..]
    ensures |name| > 1 && JavaStrings.IsUpper(name[0]) && JavaStrings.IsUpper(name[1]) ==> r == name
    ensures |name| > 0 && !(|name| > 1 && JavaStrings.IsUpper(name[0]) && JavaStrings.IsUpper(name[1])) ==> r[0] == JavaStrings.LowerChar(name[0])
  {
    if |name| == 0 then name
    else if |name| > 1 && JavaStrings.IsUpper(name[1]) && JavaStrings.IsUpper(name[0]) then name
    else [JavaStrings.LowerChar(name[0])] + name[1..]
  }

  predicate HasPrefix(s: string, p: string)
  {
    |p| <= |s| && s[..|p|] == p
  }

  /** The test findAllGetters applies to each method: the three skips, then a name
      starting with "get" or "is". */
  predicate IsGetter(m: MethodDesc)
    ensures IsGetter(m) ==> m.parameterCount == 0 && !m.isStatic && m.returnType != VoidType
    ensures IsGetter(m) ==> |m.name| >= 2 && (m.name[..2] == "is" || (|m.name| >= 3 && m.name[..3] == "get"))
  {
    && m.parameterCount == 0
    && !m.isStatic
    && m.returnType != VoidType
    && (HasPrefix(m.name, "get") || HasPrefix(m.name, "is"))
  }

  /** The property a getter exposes: the decapitalised stem after "get", or else after "is". */
  function PropertyName(m: MethodDesc): (p: string)
    requires IsGetter(m)
    ensures var stem := if HasPrefix(m.name, "get") then 3 else 2;
      && |p| == |m.name| - stem
      && (|p| > 0 ==> p[1..] == m.name[stem + 1..])
  {
    if HasPrefix(m.name, "get") then Decapitalize(m.name[3..]) else Decapitalize(m.name[2..])
  }

  /** What the getter test and the property key make of some method names: a "get"
      prefix wins over "is"; a name that merely starts with "is" counts, so issue()
      exposes "sue"; Object.getClass() exposes "class". */
  lemma GetterNameExamples(cls: string)
    ensures var m := MethodDesc(cls, "getName", 0, false, ComparableText);
      IsGetter(m) && PropertyName(m) == "name"
    ensures var m := MethodDesc(cls, "issue", 0, false, ComparableText);
      IsGetter(m) && PropertyName(m) == "sue"
    ensures var m := MethodDesc(cls, "getClass", 0, false, OtherType);
      IsGetter(m) && PropertyName(m) == "class"
  {
    assert "getName"[..3] == "get" && "getName"[3..] == "Name";
    assert Decapitalize("Name") == "name";
    assert "issue"[..3][2] != "get"[2] && "issue"[..2] == "is" && "issue"[2..] == "sue";
    assert Decapitalize("sue") == "sue";
    assert "getClass"[..3] == "get" && "getClass"[3..] == "Class";
    assert Decapitalize("Class") == "class";
  }

  /** The edge cases of the stem: a bare get() exposes the empty name, and an upper-case
      pair after the prefix is kept as it is. */
  lemma GetterNameEdgeExamples(cls: string)
    ensures var m := MethodDesc(cls, "get", 0, false, ComparableText);
      IsGetter(m) && PropertyName(m) == ""
    ensures var m := MethodDesc(cls, "getURL", 0, false, ComparableText);
      IsGetter(m) && PropertyName(m) == "URL"
  {
    assert "get"[..3] == "get" && "get"[3..] == "";
    assert "getURL"[..3] == "get" && "getURL"[3..] == "URL";
  }

  /** Methods the getter test skips: one taking a parameter, a static one, a void one,
      and one whose name has neither prefix. */
  lemma NotGetterExamples(cls: string)
    ensures !IsGetter(MethodDesc(cls, "getName", 1, false, ComparableText))
    ensures !IsGetter(MethodDesc(cls, "getName", 0, true, ComparableText))
    ensures !IsGetter(MethodDesc(cls, "getName", 0, false, VoidType))
    ensures !IsGetter(MethodDesc(cls, "name", 0, false, ComparableText))
  {
    assert "name"[..3][0] != "get"[0] && "name"[..2][0] != "is"[0];
  }

  /** The property table findAllGetters builds from a method list; a later getter of the
      same property overwrites an earlier one, as HashMap.put does. */
  function Getters(ms: seq<MethodDesc>): (g: map<string, MethodDesc>)
    ensures forall p :: p in g ==> g[p] in ms && IsGetter(g[p]) && PropertyName(g[p]) == p
  {
    if |ms| == 0 then map[]
    else
      var g := Getters(ms[..|ms| - 1]);
      var m := ms[|ms| - 1];
      if IsGetter(m) then g[PropertyName(m) := m] else g
  }

  /** A property is in the table exactly when some getter in the list exposes it. */
  lemma {:induction false} GettersDomain(ms: seq<MethodDesc>, p: string)
    ensures p in Getters(ms) <==> exists i :: 0 <= i < |ms| && IsGetter(ms[i]) && PropertyName(ms[i]) == p
  {
    if |ms| > 0 {
      var init := ms[..|ms| - 1];
      GettersDomain(init, p);
      if p in Getters(init) {
        var i :| 0 <= i < |init| && IsGetter(init[i]) && PropertyName(init[i]) == p;
        assert ms[i] == init[i];
      }
      if exists i :: 0 <= i < |ms| && IsGetter(ms[i]) && PropertyName(ms[i]) == p {
        var i :| 0 <= i < |ms| && IsGetter(ms[i]) && PropertyName(ms[i]) == p;
        if i < |ms| - 1 {
          assert init[i] == ms[i];
        }
      }
    }
  }

  /** The table holds, for each property, the last getter in the list that exposes it. */
  lemma {:induction false} GettersLastWins(ms: seq<MethodDesc>, i: nat)
    requires i < |ms| && IsGetter(ms[i])
    requires forall j :: i < j < |ms| && IsGetter(ms[j]) ==> PropertyName(ms[j]) != PropertyName(ms[i])
    ensures PropertyName(ms[i]) in Getters(ms) && Getters(ms)[PropertyName(ms[i])] == ms[i]
  {
    if i < |ms| - 1 {
      var init := ms[..|ms| - 1];
      assert init[i] == ms[i];
      GettersLastWins(init, i);
    }
  }

  /** findAllGetters: one pass over the methods, skipping those with parameters, static
      ones and void ones, and recording each "get"/"is" method under its property name. */
  method FindAllGetters(cls: ClassDesc) returns (result: map<string, MethodDesc>)
    ensures result == Getters(cls.methods)
  {
    var ms := cls.methods;
    result := map[];
    for i := 0 to |ms|
      invariant result == Getters(ms[..i])
    {
      assert ms[..i + 1][..i] == ms[..i];
      var m := ms[i];
      if m.parameterCount != 0 {
        continue;
      }
      if m.isStatic {
        continue;
      }
      if m.returnType == VoidType {
        continue;
      }
      var methodName := m.name;
      if HasPrefix(methodName, "get") {
        result := result[Decapitalize(methodName[3..]) := m];
      } else if HasPrefix(methodName, "is") {
        result := result[Decapitalize(methodName[2..]) := m];
      }
    }
    assert ms[..|ms|] == ms;
  }
}
