/** 32-bit division on the 68000, which divides by 16 bits only. Registers hold
    0..2^32-1; the carry of an instruction is the extend flag `x`. */
module M68kDivision {

  import opened CInt

  const WORD := 0x1_0000
  const SIGN := 0x8000_0000

  predicate IsLong(r: int) {
    0 <= r < TWO_32
  }

  function Hi(r: int): int { r / WORD }
  function Lo(r: int): int { r % WORD }

  function Swap(r: int): int { Lo(r) * WORD + Hi(r) }

  /** move.w: the low word becomes that of `v`. */
  function MoveW(r: int, v: int): int { Hi(r) * WORD + Lo(v) }

  function NotW(r: int): int { Hi(r) * WORD + (WORD - 1 - Lo(r)) }

  /** neg.l */
  function Neg(r: int): int { if r == 0 then 0 else TWO_32 - r }

  /** movea.w extends the sign of the word. */
  function MoveaW(r: int): int { if Lo(r) < SIGN / WORD then Lo(r) else TWO_32 - WORD + Lo(r) }

  /** divu: remainder and quotient in the high and low word; a quotient that
      does not fit leaves the register alone. */
  function Divu(r: int, d: int): int
    requires Lo(d) != 0
  {
    if r / Lo(d) >= WORD then r else r % Lo(d) * WORD + r / Lo(d)
  }

  /** add.l, addx.l */
  method Add(a: int, b: int, x: bool) returns (r: int, carry: bool)
    requires IsLong(a) && IsLong(b)
    ensures IsLong(r) && r + (if carry then TWO_32 else 0) == a + b + (if x then 1 else 0)
  {
    var s := a + b + if x then 1 else 0;
    carry := s >= TWO_32;
    r := if carry then s - TWO_32 else s;
  }

  /** sub.l */
  method Sub(a: int, b: int) returns (r: int, borrow: bool)
    requires IsLong(a) && IsLong(b)
    ensures IsLong(r) && borrow == (a < b) && r == a - b + (if borrow then TWO_32 else 0)
  {
    borrow := a < b;
    r := if borrow then a - b + TWO_32 else a - b;
  }

  /** `n` doublings. */
  ghost function Shl(v: int, n: nat): int
    decreases n
  {
    if n == 0 then v else Shl(2 * v, n - 1)
  }

  lemma {:induction false} ShlBounds(v: int, n: nat)
    requires 0 <= v
    ensures v <= Shl(v, n) && (n > 0 ==> 2 * v <= Shl(v, n))
    decreases n
  {
    if n == 0 {
    } else {
      ShlBounds(2 * v, n - 1);
    }
  }

  lemma Shl15(v: int)
    ensures Shl(v, 15) == 0x8000 * v
  {
    assert Shl(v, 15) == Shl(0x10 * v, 11);
    assert Shl(0x10 * v, 11) == Shl(0x100 * v, 7);
    assert Shl(0x100 * v, 7) == Shl(0x1000 * v, 3);
  }

  lemma Quotient(a: int, b: int, q: int, r: int)
    requires 0 < b && a == q * b + r && 0 <= r < b
    ensures q == a / b && r == a % b
  {
    var d := a / b - q;
    assert a / b * b + a % b == a;
    assert d * b == r - a % b by { assert (a / b - q) * b == a / b * b - q * b; }
    assert -d * b == -(d * b);
    if d >= 1 { AtLeastOnce(d, b); }
    if d <= -1 { AtLeastOnce(-d, b); }
  }

  /** What holds before step `k` of the 16 steps: `rem` is what is left of the
      leading bits of the dividend, all of which are in `s`; the other bits, `e`,
      are on top of `low`, above the complement of the quotient bits `q`. */
  ghost predicate Before(a: int, b: int, k: nat, rem: int, low: int, q: int, qb: int, u: int, s: int, e: int) {
    && k <= 15 && 0 <= q < u && Shl(u, 15 - k) == 0x8000 && Shl(s, 15 - k) == a * TWO_32
    && 0 <= rem < 2 * b && 0 <= e < 0x8000 && 0 <= qb
    && (rem + 2 * qb) * TWO_32 + e * 2 * WORD == s && low == e * 2 * WORD + (u - 1 - q)
  }

  /** One step, up to the last one, in numbers. */
  lemma StepKeeps(a: int, b: int, k: nat, rem: int, low: int, q: int, qb: int, u: int, s: int, e: int, r: int,
                  bit: int, c: int, low': int)
    requires IsLong(a) && WORD <= b < TWO_32 && k < 15 && Before(a, b, k, rem, low, q, qb, u, s, e)
    requires (bit == 1 && rem >= b && r == rem - b) || (bit == 0 && rem < b && r == rem)
    requires (c == 0 || c == 1) && IsLong(low') && low' + c * TWO_32 == 2 * low + 1 - bit
    ensures 2 * r + c < TWO_32
    ensures Before(a, b, k + 1, 2 * r + c, low', 2 * q + bit, 2 * qb + bit * b, 2 * u, 2 * s, 2 * e - c * 0x8000)
  {
    ShlBounds(u, 15 - k);
    ShlBounds(s, 15 - k);
    assert u <= 0x4000;
    assert c == (if e >= 0x4000 then 1 else 0);
  }

  lemma FirstDoubling(a: int, b: int, rem: int, low: int, c: int)
    requires IsLong(a) && WORD <= b && (c == 0 || c == 1)
    requires IsLong(low) && low + c * TWO_32 == 2 * (Lo(a) * WORD) && rem == 2 * Hi(a) + c
    ensures Before(a, b, 0, rem, low, 0, 0, 1, 2 * WORD * a, Lo(a) - c * 0x8000)
  {
    Shl15(1);
    Shl15(2 * WORD * a);
  }

  lemma LastStep(a: int, b: int, rem: int, low: int, q: int, qb: int, u: int, s: int, e: int)
    requires Before(a, b, 15, rem, low, q, qb, u, s, e)
    ensures rem + 2 * qb == a && low == 0x7fff - q && 0 <= rem < 2 * b && 0 <= q < 0x8000
  {
  }

  /** One turn of the loop: subtract, add back if that was too much, and shift
      the complemented quotient bit and the next bit of the dividend in. */
  method DivideStep(b: int, rem0: int, low0: int)
    returns (rem: int, low: int, x: bool, ghost r: int, ghost bit: int, ghost c: int)
    requires IsLong(b) && IsLong(rem0) && IsLong(low0)
    ensures (bit == 1 && rem0 >= b && r == rem0 - b) || (bit == 0 && rem0 < b && r == rem0)
    ensures (c == 0 || c == 1) && IsLong(low) && low + c * TWO_32 == 2 * low0 + 1 - bit
    ensures IsLong(rem) && rem + (if x then TWO_32 else 0) == 2 * r + c
  {
    rem, x := Sub(rem0, b);
    if x {
      rem, x := Add(rem, b, false);
    }
    r, bit := rem, if x then 0 else 1;
    low, x := Add(low0, low0, x);
    c := if x then 1 else 0;
    rem, x := Add(rem, rem, x);
  }

  /** The 16 steps of a division by more than a word. The extend flag left over
      is bit 32 of the doubled remainder. */
  method Divide16(b: int, rem0: int, low0: int, ghost a: int) returns (rem: int, low: int, x: bool)
    requires IsLong(a) && WORD <= b < TWO_32 && rem0 == Hi(a) && low0 == Lo(a) * WORD
    ensures low == WORD - 1 - a / b && IsLong(rem) && rem + (if x then TWO_32 else 0) == 2 * (a % b)
  {
    hide Before, Shl;
    low, x := Add(low0, low0, false);
    ghost var c := if x then 1 else 0;
    rem, x := Add(rem0, rem0, x);
    FirstDoubling(a, b, rem, low, c);
    ghost var q, qb, u, s, e := 0, 0, 1, 2 * WORD * a, Lo(a) - c * 0x8000;
    ghost var k, r, bit := 0, 0, 0;
    var d2 := 15;
    while d2 >= 0
      invariant -1 <= d2 == 15 - k
      invariant IsLong(rem) && IsLong(low) && qb == q * b
      invariant d2 >= 0 ==> Before(a, b, k, rem, low, q, qb, u, s, e)
      invariant d2 < 0 ==> low == WORD - 1 - a / b && rem + (if x then TWO_32 else 0) == 2 * (a % b)
    {
      ghost var rem1, low1 := rem, low;
      rem, low, x, r, bit, c := DivideStep(b, rem, low);
      Times(q, qb, bit, b);
      if d2 > 0 {
        StepKeeps(a, b, k, rem1, low1, q, qb, u, s, e, r, bit, c, low);
      } else {
        LastStep(a, b, rem1, low1, q, qb, u, s, e);
        LastBit(a, b, rem1, low1, q, qb, r, bit, c, low);
      }
      q, qb, u, s, e := 2 * q + bit, 2 * qb + bit * b, 2 * u, 2 * s, 2 * e - c * 0x8000;
      k := k + 1;
      d2 := d2 - 1;
    }
  }

  lemma Times(q: int, qb: int, bit: int, b: int)
    requires qb == q * b
    ensures 2 * qb + bit * b == (2 * q + bit) * b
  {
  }

  lemma LastBit(a: int, b: int, rem: int, low: int, q: int, qb: int, r: int, bit: int, c: int, low': int)
    requires 0 < b && qb == q * b && rem + 2 * qb == a && 0 <= rem < 2 * b && low == 0x7fff - q && 0 <= q < 0x8000
    requires (bit == 1 && rem >= b && r == rem - b) || (bit == 0 && rem < b && r == rem)
    requires IsLong(low') && (c == 0 || c == 1) && low' + c * TWO_32 == 2 * low + 1 - bit
    ensures low' == WORD - 1 - a / b && r == a % b && c == 0
  {
    Times(q, qb, bit, b);
    Quotient(a, b, 2 * q + bit, r);
  }

  // ---- the routines ----

  lemma Halves(a: int, hi: int, lo: int)
    requires 0 <= hi < WORD && 0 <= lo < WORD && a == hi * WORD + lo
    ensures Hi(a) == hi && Lo(a) == lo && IsLong(a)
  {
  }

  /** Division by one word in two steps, the high word first. */
  lemma TwoSteps(a: int, b: int)
    requires IsLong(a) && 0 < b < WORD
    ensures var q1, n := Hi(a) / b, Hi(a) % b * WORD + Lo(a);
      && 0 <= q1 < WORD && 0 <= n / b < WORD && 0 <= n % b < b && 0 <= n < TWO_32
      && a / b == q1 * WORD + n / b && a % b == n % b
  {
    var q1, r1 := Hi(a) / b, Hi(a) % b;
    var n := r1 * WORD + Lo(a);
    assert Hi(a) == q1 * b + r1;
    assert n == n / b * b + n % b;
    assert a == (q1 * WORD + n / b) * b + n % b by {
      assert a == (q1 * b + r1) * WORD + Lo(a);
      assert q1 * b * WORD == q1 * WORD * b;
      assert (q1 * WORD + n / b) * b == q1 * WORD * b + n / b * b;
    }
    Quotient(a, b, q1 * WORD + n / b, n % b);
    SmallQuotient(n, b, WORD);
    SmallQuotient(Hi(a), b, WORD);
  }

  lemma SmallQuotient(n: int, b: int, w: int)
    requires 0 < b && 0 <= n < b * w
    ensures 0 <= n / b < w
  {
  }

  /** What divu leaves when the quotient fits. */
  lemma DivuFits(n: int, b: int)
    requires 0 < b < WORD && 0 <= n < TWO_32 && n / b < WORD
    ensures Lo(b) == b && Hi(Divu(n, b)) == n % b && Lo(Divu(n, b)) == n / b && IsLong(Divu(n, b))
  {
  }

  lemma Words(r: int)
    requires IsLong(r)
    ensures r == Hi(r) * WORD + Lo(r) && 0 <= Hi(r) < WORD && 0 <= Lo(r) < WORD
    ensures Hi(Swap(r)) == Lo(r) && Lo(Swap(r)) == Hi(r) && Swap(Swap(r)) == r && IsLong(Swap(r))
  {
  }

  lemma MoveWords(r: int, v: int)
    requires IsLong(r)
    ensures Hi(MoveW(r, v)) == Hi(r) && Lo(MoveW(r, v)) == Lo(v) && IsLong(MoveW(r, v))
    ensures MoveW(r, v) == Hi(r) * WORD + Lo(v)
  {
  }

  lemma MoveaWord(r: int)
    requires IsLong(r)
    ensures Lo(MoveaW(r)) == Lo(r)
  {
  }

  /** The paths of a division by one word. */
  method DivideByWord(a: int, b: int) returns (d0: int)
    requires IsLong(a) && 0 < b < WORD
    ensures d0 == a / b
  {
    hide Divu, Hi, Lo, Swap, MoveW, MoveaW;
    d0 := a;
    var d1 := b;
    var d2 := Swap(d0);
    Words(a);
    if Lo(d2) != 0 {
      TwoSteps(a, b);
      d0 := Hi(d0);
      d2 := Swap(d2);
      DivuFits(d0, b);
      d0 := Divu(d0, d1);
      var a0 := MoveaW(d0);
      MoveaWord(d0);
      MoveWords(d0, d2);
      d0 := MoveW(d0, d2);
      Words(d0);
      DivuFits(d0, b);
      d0 := Divu(d0, d1);
      Words(d0);
      MoveWords(Swap(d0), a0);
      d0 := MoveW(Swap(d0), a0);
      Words(d0);
      d0 := Swap(d0);
      Words(d0);
    } else {
      SmallQuotient(a, b, WORD);
      DivuFits(a, b);
      d0 := Divu(d0, d1);
      d0 := Lo(d0);
    }
  }

  method Uldiv(a: int, b: int) returns (d0: int)
    requires IsLong(a) && IsLong(b) && b != 0
    ensures d0 == a / b
  {
    hide Hi, Lo, Swap;
    d0 := a;
    var d1 := b;
    var d2 := Swap(d1);
    Words(a);
    Words(b);
    if Lo(d2) != 0 {
      var x;
      d0 := Swap(d0);
      d1 := Lo(d0);
      d0 := Hi(d0) * WORD;
      d1, d0, x := Divide16(b, d1, d0, a);
      QuotientBelow(a, b);
      Halves(d0, 0, d0);
      d0 := NotW(d0);
    } else {
      d0 := DivideByWord(a, b);
    }
  }

  lemma QuotientBelow(a: int, b: int)
    requires IsLong(a) && WORD <= b
    ensures 0 <= a / b < WORD
  {
  }

  method RemainderByWord(a: int, b: int) returns (d0: int)
    requires IsLong(a) && 0 < b < WORD
    ensures d0 == a % b
  {
    hide Divu, Hi, Lo, Swap, MoveW;
    d0 := a;
    var d1 := b;
    var d2 := Swap(d0);
    Words(a);
    if Lo(d2) != 0 {
      TwoSteps(a, b);
      d0 := Hi(d0);
      d2 := Swap(d2);
      DivuFits(d0, b);
      d0 := Divu(d0, d1);
      MoveWords(d0, d2);
      d0 := MoveW(d0, d2);
      DivuFits(d0, b);
      d0 := Divu(d0, d1);
      d0 := Hi(d0);
    } else {
      SmallQuotient(a, b, WORD);
      DivuFits(a, b);
      d0 := Divu(d0, d1);
      d0 := Hi(d0);
    }
  }

  method Ulmod(a: int, b: int) returns (d0: int)
    requires IsLong(a) && IsLong(b) && b != 0
    ensures d0 == a % b
  {
    hide Hi, Lo, Swap;
    d0 := a;
    var d1 := b;
    var d2 := Swap(d1);
    Words(a);
    Words(b);
    if Lo(d2) != 0 {
      var x;
      d1 := d0;
      d0 := Hi(d0);
      d1 := Swap(d1);
      d1 := Hi(d1) * WORD;
      d0, d1, x := Divide16(b, d0, d1, a);
      d0 := d0 / 2 + (if x then SIGN else 0);
    } else {
      d0 := RemainderByWord(a, b);
    }
  }

  // ---- signed division ----

  /** The signed number in a register. */
  function Signed(r: int): int {
    if r < SIGN then r else r - TWO_32
  }

  function Unsigned(v: int): int {
    v % TWO_32
  }

  lemma ApplySign(q: int, negative: bool)
    requires 0 <= q <= SIGN
    ensures var d0, v := if negative then Neg(q) else q, if negative then -q else q;
      IsLong(d0) && d0 == Unsigned(v) && (q < SIGN || negative ==> Signed(d0) == v)
  {
  }

  /** The absolute value of the signed number in a register. */
  lemma Magnitude(a: int)
    requires IsLong(a)
    ensures (if a >= SIGN then Neg(a) else a) == Abs(Signed(a)) <= SIGN
  {
  }

  /** The quotient is exact except for the one that no long holds. */
  method Ldiv(a: int, b: int) returns (d0: int)
    requires IsLong(a) && IsLong(b) && b != 0
    ensures d0 == Unsigned(TruncDiv(Signed(a), Signed(b)))
    ensures !(a == SIGN && b == TWO_32 - 1) ==> Signed(d0) == TruncDiv(Signed(a), Signed(b))
  {
    hide Neg, Unsigned;
    Magnitude(a);
    Magnitude(b);
    d0 := a;
    var negative := d0 >= SIGN;
    if negative {
      d0 := Neg(d0);
    }
    var d1 := b;
    negative := negative != (d1 >= SIGN);
    if d1 >= SIGN {
      d1 := Neg(d1);
    }
    QuotientAtMost(d0, d1);
    d0 := Uldiv(d0, d1);
    ApplySign(d0, negative);
    if negative {
      d0 := Neg(d0);
    }
  }

  lemma QuotientAtMost(n: int, d: int)
    requires 0 <= n <= SIGN && 0 < d
    ensures 0 <= n / d <= n && (n / d == SIGN ==> d == 1 && n == SIGN)
  {
  }

  method Lmod(a: int, b: int) returns (d0: int)
    requires IsLong(a) && IsLong(b) && b != 0
    ensures Signed(d0) == TruncMod(Signed(a), Signed(b)) && IsLong(d0)
  {
    hide Neg, Unsigned;
    Magnitude(a);
    Magnitude(b);
    d0 := a;
    var a1 := d0;
    if d0 >= SIGN {
      d0 := Neg(d0);
    }
    var d1 := b;
    if d1 >= SIGN {
      d1 := Neg(d1);
    }
    d0 := Ulmod(d0, d1);
    ApplySign(d0, a1 >= SIGN);
    if a1 >= SIGN {
      d0 := Neg(d0);
    }
  }

  /** The C function div: quotient and remainder belong together, always in 32
      bits, and as numbers unless no long holds the quotient. */
  method Div(num: int, denom: int) returns (quot: int, rem: int)
    requires IsLong(num) && IsLong(denom) && denom != 0
    ensures Unsigned(Signed(denom) * Signed(quot) + Signed(rem)) == num
    ensures Signed(denom) * Signed(quot) + Signed(rem) == Signed(num) <==> !(num == SIGN && denom == TWO_32 - 1)
    ensures Abs(Signed(rem)) < Abs(Signed(denom)) && (rem == 0 || (Signed(rem) < 0 <==> Signed(num) < 0))
  {
    quot := Ldiv(num, denom);
    rem := Lmod(num, denom);
    TruncLaw(Signed(num), Signed(denom));
  }
}
