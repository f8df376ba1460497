/** Java's 32-bit int arithmetic: narrowing, truncating remainder and Math.abs. */
module JavaInts {
  const IntMin: int := -0x8000_0000
  const IntMax: int := 0x7fff_ffff

  /** Java's int. */
  type int32 = x: int | -0x8000_0000 <= x <= 0x7fff_ffff

  /** Narrowing to int, as the `(int)` cast of a long and int addition do: keeps the
      low 32 bits, read as a two's-complement number. */
  function ToInt32(x: int): (r: int32)
    ensures IntMin <= x <= IntMax ==> r == x
    ensures IntMax < x <= 0x1_0000_0000 + IntMax ==> r == x - 0x1_0000_0000
    ensures IntMin - 0x1_0000_0000 <= x < IntMin ==> r == x + 0x1_0000_0000
  {
    var m := x % 0x1_0000_0000;
    if m <= IntMax then m else m - 0x1_0000_0000
  }

  /** Java's `%`: the remainder of division truncated toward zero, so it takes the sign
      of the dividend. */
  function Rem(x: int, d: int): (r: int)
    requires d > 0
    ensures -d < r < d
    ensures x >= 0 ==> r == x % d
    ensures x < 0 ==> r == -((-x) % d)
    ensures x >= 0 ==> r >= 0
    ensures x <= 0 ==> r <= 0
  {
    if x >= 0 then x % d else -((-x) % d)
  }

  /** Math.abs on an int; Integer.MIN_VALUE is its own absolute value, because its
      negation wraps back to itself. */
  function Abs(x: int32): (r: int32)
    ensures x == IntMin ==> r == IntMin
    ensures x != IntMin ==> r >= 0 && (r == x || r == -x)
  {
    if x >= 0 then x else if x == IntMin then x else -x
  }
}
