/**
  Machine integers of the .NET runtime. C# evaluates `int` arithmetic unchecked (two's
  complement wrap-around), truncates `/` and `%` toward zero, and its `(short)` cast keeps the
  low sixteen bits. Dafny's integers are unbounded and its `/`, `%` are Euclidean, so each of
  these is written out here once and used by every other module.
*/
module Int32 {

  const TwoTo16: int := 0x1_0000
  const TwoTo32: int := 0x1_0000_0000

  type int32 = x: int | -0x8000_0000 <= x < 0x8000_0000
  type uint32 = x: int | 0 <= x < 0x1_0000_0000
  type int16 = x: int | -0x8000 <= x < 0x8000
  type byte = x: int | 0 <= x < 0x100

  /** The value C#'s unchecked `int` arithmetic yields for the mathematical result `x`. */
  function Wrap(x: int): (r: int32)
    ensures (r - x) % TwoTo32 == 0
    ensures -0x8000_0000 <= x < 0x8000_0000 ==> r == x
  {
    (x + 0x8000_0000) % TwoTo32 - 0x8000_0000
  }

  /** The `(short)` cast: the low sixteen bits of `x`, read as a signed number. */
  function ToShort(x: int): (r: int16)
    ensures (r - x) % TwoTo16 == 0
    ensures -0x8000 <= x < 0x8000 ==> r == x
  {
    (x + 0x8000) % TwoTo16 - 0x8000
  }

  /** The `(int)` cast of a `uint`: the same thirty-two bits read as a signed number. */
  function UintToInt(x: uint32): (r: int32)
    ensures (r - x) % TwoTo32 == 0
    ensures x < 0x8000_0000 ==> r == x
  {
    Wrap(x)
  }

  /** Two integers that agree modulo 2^32 wrap to the same `int`. */
  lemma WrapCongruent(a: int, b: int)
    requires (a - b) % TwoTo32 == 0
    ensures Wrap(a) == Wrap(b)
  {
    var k := (a - b) / TwoTo32;
    assert a == b + k * TwoTo32;
    var qa := (a + 0x8000_0000) / TwoTo32;
    var qb := (b + 0x8000_0000) / TwoTo32;
    assert (a + 0x8000_0000) == (b + 0x8000_0000) + k * TwoTo32;
    assert qa == qb + k;
  }

  /** Wrapping an intermediate result does not change the wrapped sum. */
  lemma WrapAddLeft(a: int, b: int)
    ensures Wrap(Wrap(a) + b) == Wrap(a + b)
  {
    assert (Wrap(a) - a) % TwoTo32 == 0;
    assert ((Wrap(a) + b) - (a + b)) % TwoTo32 == 0;
    WrapCongruent(Wrap(a) + b, a + b);
  }

  /** C#'s `a / b`: the quotient truncated toward zero. */
  function Quot(a: int, b: int): (q: int)
    requires b != 0
    ensures 0 <= a ==> 0 <= b ==> 0 <= q
    ensures b > 0 && a >= 0 ==> q * b <= a < q * b + b
    ensures b > 0 && a < 0 ==> q * b - b < a <= q * b
  {
    if a >= 0 then (if b > 0 then DivBounds(a, b); a / b else -(a / -b))
    else if b > 0 then
      var m := -a / b;
      DivBounds(-a, b);
      assert (-m) * b == -(m * b);
      -m
    else -a / -b
  }

  /** Euclidean division of a non-negative number by a positive one brackets the dividend. */
  lemma DivBounds(n: int, d: int)
    requires n >= 0 && d > 0
    ensures 0 <= n / d && (n / d) * d <= n < (n / d) * d + d
  {
    assert n == (n / d) * d + n % d;
  }

  /** C#'s `a % b`: the remainder that takes the sign of the dividend. */
  function Rem(a: int, b: int): (r: int)
    requires b != 0
    ensures a == Quot(a, b) * b + r
  {
    a - Quot(a, b) * b
  }

  /** The remainder is smaller than the divisor in magnitude and shares the dividend's sign. */
  lemma RemBounds(a: int, b: int)
    requires b > 0
    ensures 0 <= a ==> 0 <= Rem(a, b) < b
    ensures a < 0 ==> -b < Rem(a, b) <= 0
  {
  }

  /** A truncated quotient by a positive divisor lies between zero and the dividend. */
  lemma QuotBounds(a: int, b: int)
    requires b > 0
    ensures 0 <= a ==> 0 <= Quot(a, b) <= a
    ensures a < 0 ==> a <= Quot(a, b) <= 0
    ensures 0 <= a && 2 <= b ==> 2 * Quot(a, b) <= a
  {
    var q := Quot(a, b);
    ScaleByPositive(q, b);
    if 0 <= a && 2 <= b {
      ScaleByPositive(q, b - 2);
      assert q * b == q * (b - 2) + 2 * q;
    }
  }

  lemma ScaleByPositive(q: int, b: int)
    requires b >= 0
    ensures q >= 0 ==> q * b >= 0
    ensures q <= 0 ==> q * b <= 0
    ensures q >= 0 && b >= 1 ==> q <= q * b
    ensures q <= 0 && b >= 1 ==> q * b <= q
  {
    if b >= 1 {
      assert q * b == q * (b - 1) + q;
    }
  }
}
