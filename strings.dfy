/** The parts of java.lang.String and java.lang.Integer that the page comparator relies on.
    A Java string is a sequence of UTF-16 code units; a Dafny string is a sequence of
    Unicode scalar values, so every comparison goes through the UTF-16 encoding. */
module JavaStrings {

  /** A UTF-16 code unit: Java's `char`. */
  type CodeUnit = x: int | 0 <= x < 0x1_0000

  /** The UTF-16 encoding of one character: itself below U+10000, otherwise a high
      surrogate followed by a low surrogate. */
  function Utf16Char(c: char): (u: seq<CodeUnit>)
    ensures |u| == 1 <==> c as int < 0x1_0000
    ensures |u| == 1 ==> u[0] == c as int && !(0xD800 <= u[0] < 0xE000)
    ensures |u| == 2 ==> 0xD800 <= u[0] < 0xDC00 && 0xDC00 <= u[1] < 0xE000
    ensures |u| == 1 || |u| == 2
  {
    var v := c as int;
    if v < 0x1_0000 then [v]
    else [0xD800 + (v - 0x1_0000) / 0x400, 0xDC00 + (v - 0x1_0000) % 0x400]
  }

  /** Two characters with the same encoding are the same character. */
  lemma Utf16CharInjective(c: char, d: char)
    requires Utf16Char(c) == Utf16Char(d)
    ensures c == d
  {
    var u := Utf16Char(c);
    if |u| == 2 {
      var x, y := c as int - 0x1_0000, d as int - 0x1_0000;
      assert x == (x / 0x400) * 0x400 + x % 0x400;
      assert y == (y / 0x400) * 0x400 + y % 0x400;
    }
  }

  /** The code units of a string. */
  function Utf16(s: string): (u: seq<CodeUnit>)
    ensures |u| >= |s|
  {
    if |s| == 0 then [] else Utf16Char(s[0]) + Utf16(s[1..])
  }

  /** The encoding loses nothing: different strings have different code units. */
  lemma {:induction false} Utf16Injective(s: string, t: string)
    ensures Utf16(s) == Utf16(t) ==> s == t
  {
    if Utf16(s) == Utf16(t) && |s| > 0 && |t| > 0 {
      var a, b := Utf16Char(s[0]), Utf16Char(t[0]);
      assert Utf16(s) == a + Utf16(s[1..]) && Utf16(t) == b + Utf16(t[1..]);
      assert a[0] == Utf16(s)[0] == b[0];
      assert |a| == |b|;
      if |a| == 2 {
        assert a[1] == Utf16(s)[1] == b[1];
      }
      assert a == b;
      Utf16CharInjective(s[0], t[0]);
      assert Utf16(s[1..]) == Utf16(s)[|a|..] == Utf16(t[1..]);
      Utf16Injective(s[1..], t[1..]);
      assert s == [s[0]] + s[1..] && t == [t[0]] + t[1..];
    }
  }

  /** The comparison String.compareTo makes on code units: the difference of the first
      pair of units that differ, or else the difference of the lengths. */
  function CompareUnits(u: seq<CodeUnit>, w: seq<CodeUnit>): int
  {
    if |u| == 0 || |w| == 0 then |u| - |w|
    else if u[0] != w[0] then u[0] - w[0]
    else CompareUnits(u[1..], w[1..])
  }

  lemma {:induction false} UnitsAntisymmetric(u: seq<CodeUnit>, w: seq<CodeUnit>)
    ensures CompareUnits(u, w) == -CompareUnits(w, u)
  {
    if |u| > 0 && |w| > 0 && u[0] == w[0] {
      UnitsAntisymmetric(u[1..], w[1..]);
    }
  }

  lemma {:induction false} UnitsZeroIffEqual(u: seq<CodeUnit>, w: seq<CodeUnit>)
    ensures CompareUnits(u, w) == 0 <==> u == w
  {
    if |u| > 0 && |w| > 0 && u[0] == w[0] {
      UnitsZeroIffEqual(u[1..], w[1..]);
      assert u == [u[0]] + u[1..] && w == [w[0]] + w[1..];
    }
  }

  lemma {:induction false} UnitsTransitive(u: seq<CodeUnit>, v: seq<CodeUnit>, w: seq<CodeUnit>)
    requires CompareUnits(u, v) <= 0 && CompareUnits(v, w) <= 0
    ensures CompareUnits(u, w) <= 0
  {
    if |u| > 0 && |v| > 0 && |w| > 0 && u[0] == v[0] && v[0] == w[0] {
      UnitsTransitive(u[1..], v[1..], w[1..]);
    }
  }

  /** String.compareTo: zero exactly for equal strings. */
  function CompareTo(s: string, t: string): (r: int)
    ensures r == 0 <==> s == t
  {
    UnitsZeroIffEqual(Utf16(s), Utf16(t));
    Utf16Injective(s, t);
    CompareUnits(Utf16(s), Utf16(t))
  }

  lemma CompareToAntisymmetric(s: string, t: string)
    ensures CompareTo(s, t) == -CompareTo(t, s)
  {
    UnitsAntisymmetric(Utf16(s), Utf16(t));
  }

  lemma CompareToTransitive(s: string, t: string, u: string)
    requires CompareTo(s, t) <= 0 && CompareTo(t, u) <= 0
    ensures CompareTo(s, u) <= 0
  {
    UnitsTransitive(Utf16(s), Utf16(t), Utf16(u));
  }

  /** Java orders by code units, not by code points: U+FFFF comes after U+1F600, whose
      high surrogate 0xD83D is below 0xFFFF. */
  lemma CodeUnitOrder()
    ensures CompareTo("\U{FFFF}", "\U{1F600}") == 0xFFFF - 0xD83D
  {
    assert Utf16("\U{FFFF}") == [0xFFFF];
    assert Utf16("\U{1F600}") == [0xD83D, 0xDE00];
  }

  predicate IsUpper(c: char)
  {
    'A' <= c <= 'Z'
  }

  /** Case folding, restricted to ASCII letters. */
  function LowerChar(c: char): char
  {
    if IsUpper(c) then (c as int + 32) as char else c
  }

  function Lower(s: string): (r: string)
    ensures |r| == |s|
    ensures forall i :: 0 <= i < |s| ==> r[i] == LowerChar(s[i])
  {
    seq(|s|, i requires 0 <= i < |s| => LowerChar(s[i]))
  }

  /** String.compareToIgnoreCase: per character, two characters that agree once folded
      are equal; otherwise the folded characters decide, and the lengths last. */
  function CompareToIgnoreCase(s: string, t: string): (r: int)
    ensures r == 0 <==> Lower(s) == Lower(t)
  {
    CompareTo(Lower(s), Lower(t))
  }

  function DigitChar(d: nat): char
    requires d < 10
  {
    ('0' as int + d) as char
  }

  /** The number a string of decimal digits denotes, most significant digit first. */
  function DigitsValue(s: string): int
  {
    if |s| == 0 then 0 else DigitsValue(s[..|s| - 1]) * 10 + (s[|s| - 1] as int - '0' as int)
  }

  /** The decimal digits of n, without leading zeros: they spell n. */
  function Digits(n: nat): (r: string)
    ensures |r| > 0
    ensures forall i :: 0 <= i < |r| ==> '0' <= r[i] <= '9'
    ensures DigitsValue(r) == n
  {
    if n < 10 then [DigitChar(n)]
    else
      var high := Digits(n / 10);
      assert (high + [DigitChar(n % 10)])[..|high|] == high;
      high + [DigitChar(n % 10)]
  }

  /** The number Integer.parseInt reads from a decimal text. */
  function DecimalValue(s: string): int
  {
    if |s| > 0 && s[0] == '-' then -DigitsValue(s[1..]) else DigitsValue(s)
  }

  /** Integer.toString: a minus sign exactly for negative numbers, then the decimal
      digits; reading the text back gives the number. */
  function DecimalText(n: int): (r: string)
    ensures |r| > 0
    ensures r[0] == '-' <==> n < 0
    ensures forall i :: 0 < i < |r| ==> '0' <= r[i] <= '9'
    ensures DecimalValue(r) == n
  {
    if n < 0 then
      var digits := Digits(-n);
      assert ("-" + digits)[1..] == digits;
      "-" + digits
    else Digits(n)
  }

  /** Different numbers have different texts. */
  lemma DecimalTextInjective(m: int, n: int)
    ensures DecimalText(m) == DecimalText(n) ==> m == n
  {
  }

  /** Integer.compare, which Integer.compareTo returns. */
  function IntegerCompare(x: int, y: int): (r: int)
    ensures r < 0 <==> x < y
    ensures r == 0 <==> x == y
    ensures -1 <= r <= 1
  {
    if x < y then -1 else if x == y then 0 else 1
  }
}
