/** The integers of a 32-bit C: wrapping, and division towards zero. */
module CInt {

  /** Assigning to a variable of this type checks that nothing overflows. */
  type long = x: int | -0x8000_0000 <= x < 0x8000_0000

  const LONG_MIN := -0x8000_0000
  const LONG_MAX := 0x7fff_ffff
  const ULONG_MAX := 0xffff_ffff
  /** The number of values of a word, and the end of the address space. */
  const TWO_32 := 0x1_0000_0000

  /** errno.h */
  const EINVAL := 25
  const ENOMEM := 39

  /** What is left of a result in a long. */
  function Wrap32(x: int): long {
    (x + 0x8000_0000) % TWO_32 - 0x8000_0000
  }

  /** A whole number of words more or less makes no difference. */
  lemma WrapWhole(x: int, y: int)
    requires x % TWO_32 == y % TWO_32
    ensures Wrap32(x) == Wrap32(y)
  {
  }

  lemma WrapAdd(a: int, b: int)
    ensures Wrap32(Wrap32(a) + b) == Wrap32(a + b)
  {
  }

  lemma WrapInRange(t: int)
    ensures Wrap32(t) == t <==> LONG_MIN <= t <= LONG_MAX
  {
  }

  function Least(a: int, b: int): int {
    if a < b then a else b
  }

  function Abs(v: int): int { if v < 0 then -v else v }

  /** Division and remainder as C has them: towards zero. */
  function TruncDiv(a: int, b: int): int
    requires b != 0
  {
    if (a < 0) == (b < 0) then Abs(a) / Abs(b) else -(Abs(a) / Abs(b))
  }

  function TruncMod(a: int, b: int): int
    requires b != 0
  {
    if a < 0 then -(Abs(a) % Abs(b)) else Abs(a) % Abs(b)
  }

  /** The two belong together, and the remainder has the sign of the dividend. */
  lemma TruncLaw(a: int, b: int)
    requires b != 0
    ensures a == b * TruncDiv(a, b) + TruncMod(a, b)
    ensures Abs(TruncMod(a, b)) < Abs(b) && (TruncMod(a, b) == 0 || (TruncMod(a, b) < 0 <==> a < 0))
  {
  }

  lemma TimesMono(a: int, b: int, c: int)
    requires a <= b && 0 <= c
    ensures a * c <= b * c
  {
  }

  lemma AtLeastOnce(d: int, b: int)
    requires 1 <= d && 0 < b
    ensures b <= d * b && -d * b <= -b
  {
    assert 0 <= (d - 1) * b;
  }

  function Pow2(n: nat): nat {
    if n == 0 then 1 else 2 * Pow2(n - 1)
  }

  lemma Divided(a: nat, b: nat)
    requires b > 0
    ensures a == a / b * b + a % b && 0 <= a / b && 0 <= a % b < b
  {
    var q := a / b;
    assert a == q * b + a % b;
    if q <= -1 { TimesMono(q, -1, b); }
  }

  lemma MultipleMod(q: int, b: nat)
    requires b > 0
    ensures q * b % b == 0
  {
    var x := q * b;
    var r, d := x % b, q - x / b;
    assert x == x / b * b + r;
    assert d * b == r;
    if d >= 1 { TimesMono(1, d, b); }
    if d <= -1 { TimesMono(d, -1, b); }
  }

  lemma Cancel(x: int, y: int, p: nat)
    requires p > 0 && x * p == y * p
    ensures x == y
  {
    if x < y { TimesMono(x + 1, y, p); }
    if y < x { TimesMono(y + 1, x, p); }
  }

  lemma ProductQuotient(x: int, p: nat)
    requires p > 0 && x >= 0
    ensures x * p / p == x
  {
    MultipleMod(x, p);
    Divided(x * p, p);
    Cancel(x, x * p / p, p);
  }
}
