/** strtol, strtoul and strtoull over their common parsers. */
module TextToInteger {

  import opened CInt
  import opened Numerals
  import M68kDivision

  // ---- what a text denotes ----

  function SkipBlanks(t: string, i: nat): (r: nat)
    requires i <= |t|
    ensures i <= r <= |t|
    decreases |t| - i
  {
    if i < |t| && t[i] in {' ', '\t'} then SkipBlanks(t, i + 1) else i
  }

  /** The end of the digits that start at `i`. */
  function DigitsEnd(t: string, i: nat, b: int): (e: nat)
    requires i <= |t|
    ensures i <= e <= |t|
    decreases |t| - i
  {
    if i < |t| && DigitVal(t[i]) < b then DigitsEnd(t, i + 1, b) else i
  }

  /** Where the digits start, and their base. */
  datatype Opening = Rejected | Opening(at: nat, base: long)

  predicate IsB(t: string, i: nat) { i < |t| && t[i] in {'b', 'B'} }
  predicate IsX(t: string, i: nat) { i < |t| && t[i] in {'x', 'X'} }

  function Open(t: string, i: nat, base: long): (o: Opening)
    requires i < |t|
    ensures o.Opening? ==> i <= o.at <= |t|
  {
    if t[i] != '0' then Opening(i, if base == 0 then 10 else base)
    else if IsB(t, i + 1) then (if base in {0, 2} then Opening(i + 2, 2) else Rejected)
    else if IsX(t, i + 1) then (if base in {0, 16} then Opening(i + 2, 16) else Rejected)
    else Opening(i + 1, if base == 0 then 8 else base)
  }

  /** A number of any size, and where it ends. */
  datatype Parsed = Parsed(value: int, negative: bool, end: nat)

  /** What the code finds behind the sign. */
  function Subject(t: string, j: nat, negative: bool, base: long): (n: Parsed)
    requires j <= |t|
    ensures n.end <= |t|
  {
    if j == |t| then Parsed(0, negative, 0)
    else
      match Open(t, j, base)
      case Rejected => Parsed(0, negative, 0)
      case Opening(at, b) =>
        var e := DigitsEnd(t, at, b);
        Parsed(Value(t[at..e], b), negative, e)
  }

  function Parse(t: string, base: long): (n: Parsed)
    ensures n.end <= |t|
  {
    var i := SkipBlanks(t, 0);
    var negative := i < |t| && t[i] == '-';
    Subject(t, if negative then i + 1 else i, negative, base)
  }

  function Signed(n: Parsed): int {
    if n.negative then -n.value else n.value
  }

  function Clamp(v: int): int {
    if v < LONG_MIN then LONG_MIN else if v > LONG_MAX then LONG_MAX else v
  }

  function AtMost(v: int, limit: int): int {
    if v > limit then limit else v
  }

  // ---- shift-and-add multiplication ----

  ghost function Product(a: int, m: int): int {
    a * m
  }

  lemma ProductIs(a: int, m: int)
    ensures Product(a, m) == a * m
  {
  }

  /** The lowest bit of the multiplier is taken off. */
  lemma TakeBit(a: nat, m: nat)
    ensures Product(a, m) == Product(2 * a, m / 2) + if m % 2 == 1 then a else 0
    ensures Product(2 * a, m / 2) >= if m / 2 == 0 then 0 else 2 * a
    ensures m / 2 == 0 ==> Product(2 * a, m / 2) == 0
  {
  }

  /** Keeps ret + in * mul. The flag is raised exactly when the product does not
      fit. */
  method Mul32(in0: nat, mul0: nat) returns (ret: nat, overflow: bool)
    requires in0 <= ULONG_MAX && mul0 <= ULONG_MAX
    ensures ret <= ULONG_MAX
    ensures overflow == (in0 * mul0 > ULONG_MAX)
    ensures !overflow ==> ret == in0 * mul0
  {
    hide Product;
    ProductIs(in0, mul0);
    ret := 0;
    overflow := false;
    var a: nat, mul := in0, mul0;
    while true
      invariant a <= ULONG_MAX && 0 <= mul && ret <= ULONG_MAX
      invariant ret + Product(a, mul) == Product(in0, mul0)
      decreases mul
    {
      TakeBit(a, mul);
      if mul % 2 == 1 {
        ret, overflow := M68kDivision.Add(ret, a, false);
        if overflow { return; }
      }
      mul := mul / 2;
      if mul == 0 { return; }
      a, overflow := M68kDivision.Add(a, a, false);
      if overflow { return; }
    }
  }

  const ULLONG_MAX := 0xffff_ffff_ffff_ffff

  function Pair(hi: int, lo: int): int {
    hi * TWO_32 + lo
  }

  /** Addition in two registers, the carry of the lower word going to the upper
      one. */
  method AddPair(hi0: nat, lo0: nat, hi1: nat, lo1: nat) returns (hi: nat, lo: nat, carry: bool)
    requires hi0 <= ULONG_MAX && lo0 <= ULONG_MAX && hi1 <= ULONG_MAX && lo1 <= ULONG_MAX
    ensures hi <= ULONG_MAX && lo <= ULONG_MAX
    ensures carry == (Pair(hi0, lo0) + Pair(hi1, lo1) > ULLONG_MAX)
    ensures !carry ==> Pair(hi, lo) == Pair(hi0, lo0) + Pair(hi1, lo1)
  {
    lo, carry := M68kDivision.Add(lo0, lo1, false);
    hi, carry := M68kDivision.Add(hi0, hi1, carry);
  }

  /** Mul32 in two registers. */
  method Mul64(in0: nat, mul0: nat) returns (ret: nat, overflow: bool)
    requires in0 <= ULLONG_MAX && mul0 <= ULONG_MAX
    ensures ret <= ULLONG_MAX
    ensures overflow == (in0 * mul0 > ULLONG_MAX)
    ensures !overflow ==> ret == in0 * mul0
  {
    hide Product;
    ProductIs(in0, mul0);
    var retLo: nat, retHi: nat := 0, 0;
    overflow := false;
    var lo: nat, hi: nat, mul := in0 % TWO_32, in0 / TWO_32, mul0;
    while true
      invariant lo <= ULONG_MAX && hi <= ULONG_MAX && 0 <= mul
      invariant retLo <= ULONG_MAX && retHi <= ULONG_MAX
      invariant Pair(retHi, retLo) + Product(Pair(hi, lo), mul) == Product(in0, mul0)
      decreases mul
    {
      TakeBit(Pair(hi, lo), mul);
      if mul % 2 == 1 {
        retHi, retLo, overflow := AddPair(retHi, retLo, hi, lo);
        if overflow { break; }
      }
      mul := mul / 2;
      if mul == 0 { break; }
      hi, lo, overflow := AddPair(hi, lo, hi, lo);
      if overflow { break; }
    }
    ret := Pair(retHi, retLo);
  }

  method Add32(a: nat, add: nat) returns (ret: nat, overflow: bool)
    requires a <= ULONG_MAX && add <= ULONG_MAX
    ensures ret <= ULONG_MAX
    ensures overflow == (a + add > ULONG_MAX)
    ensures !overflow ==> ret == a + add
  {
    ret, overflow := M68kDivision.Add(a, add, false);
  }

  method Add64(a: nat, add: nat) returns (ret: nat, overflow: bool)
    requires a <= ULLONG_MAX && add <= ULONG_MAX
    ensures ret <= ULLONG_MAX
    ensures overflow == (a + add > ULLONG_MAX)
    ensures !overflow ==> ret == a + add
  {
    var hi, lo;
    hi, lo, overflow := AddPair(a / TWO_32, a % TWO_32, 0, add);
    ret := Pair(hi, lo);
  }

  // ---- the parsers ----

  /** The characters before the terminator. */
  function Text(s: seq<char>): (t: string)
    requires '\0' in s
    ensures |t| < |s| && t == s[..|t|] && s[|t|] == '\0'
    ensures '\0' !in t
  {
    if s[0] == '\0' then [] else [s[0]] + Text(s[1..])
  }

  /** Blanks, sign and prefix. */
  method ReadOpening(s: seq<char>, base: long) returns (o: Opening, negative: bool)
    requires '\0' in s
    ensures var t := Text(s); var i := SkipBlanks(t, 0); var j := if negative then i + 1 else i;
      negative == (i < |t| && t[i] == '-') && o == if j == |t| then Rejected else Open(t, j, base)
  {
    ghost var t := Text(s);
    var p := 0;
    while s[p] != '\0' && s[p] in {' ', '\t'}
      invariant 0 <= p <= |t| && SkipBlanks(t, p) == SkipBlanks(t, 0)
      decreases |t| - p
    {
      p := p + 1;
    }
    negative := s[p] == '-';
    if negative { p := p + 1; }
    if s[p] == '\0' { return Rejected, negative; }
    var b := base;
    if s[p] == '0' {
      p := p + 1;
      var letter := ClearCase(s[p] as int);
      if letter == 'B' as int {
        if b != 0 && b != 2 { return Rejected, negative; }
        b := 2;
        p := p + 1;
      } else if letter == 'X' as int {
        if b != 0 && b != 16 { return Rejected, negative; }
        b := 16;
        p := p + 1;
      } else if b == 0 {
        b := 8;
      }
    } else if b == 0 {
      b := 10;
    }
    o := Opening(p, b);
  }

  lemma {:induction false} ValueNonNegative(s: string, b: nat)
    ensures Value(s, b) >= 0
  {
    if s == [] {
    } else {
      ValueNonNegative(s[..|s| - 1], b);
      TimesMono(0, Value(s[..|s| - 1], b), b);
    }
  }

  /** One digit more, and the value does not get smaller. */
  lemma ValueStep(t: string, at: nat, p: nat, b: nat)
    requires at <= p < |t| && 1 <= b
    ensures Value(t[at..p + 1], b) == Value(t[at..p], b) * b + DigitVal(t[p])
    ensures 0 <= Value(t[at..p], b) <= Value(t[at..p + 1], b)
  {
    assert t[at..p + 1][..p - at] == t[at..p];
    ValueNonNegative(t[at..p], b);
    TimesMono(1, b, Value(t[at..p], b));
  }

  /** Exact while the number fits, the greatest value from then on; digits that
      no longer count are still consumed. */
  method Accumulate32(s: seq<char>, at: nat, base: long) returns (ret: nat, p: nat)
    requires '\0' in s && at <= |Text(s)|
    ensures var t := Text(s);
      p == DigitsEnd(t, at, base) && ret == AtMost(Value(t[at..p], base), ULONG_MAX)
  {
    hide Value, DigitVal;
    ghost var t := Text(s);
    p, ret := at, 0;
    var overflow := false;
    ValueOfNothing(base);
    assert t[at..p] == "";
    while s[p] != '\0'
      invariant at <= p <= |t| && ret <= ULONG_MAX
      invariant DigitsEnd(t, p, base) == DigitsEnd(t, at, base)
      invariant if overflow then Value(t[at..p], base) > ULONG_MAX else ret == Value(t[at..p], base)
      decreases |t| - p
    {
      var val := DigitVal(s[p]);
      if val >= base { break; }
      ValueStep(t, at, p, base);
      if !overflow {
        if ret != 0 { ret, overflow := Mul32(ret, base); }
        var carry;
        ret, carry := Add32(ret, val);
        overflow := overflow || carry;
      }
      p := p + 1;
    }
    ret := if overflow then ULONG_MAX else ret;
  }

  method Accumulate64(s: seq<char>, at: nat, base: long) returns (ret: nat, p: nat)
    requires '\0' in s && at <= |Text(s)|
    ensures var t := Text(s);
      p == DigitsEnd(t, at, base) && ret == AtMost(Value(t[at..p], base), ULLONG_MAX)
  {
    hide Value, DigitVal;
    ghost var t := Text(s);
    p, ret := at, 0;
    var overflow := false;
    ValueOfNothing(base);
    assert t[at..p] == "";
    while s[p] != '\0'
      invariant at <= p <= |t| && ret <= ULLONG_MAX
      invariant DigitsEnd(t, p, base) == DigitsEnd(t, at, base)
      invariant if overflow then Value(t[at..p], base) > ULLONG_MAX else ret == Value(t[at..p], base)
      decreases |t| - p
    {
      var val := DigitVal(s[p]);
      if val >= base { break; }
      ValueStep(t, at, p, base);
      if !overflow {
        if ret != 0 { ret, overflow := Mul64(ret, base); }
        var carry;
        ret, carry := Add64(ret, val);
        overflow := overflow || carry;
      }
      p := p + 1;
    }
    ret := if overflow then ULLONG_MAX else ret;
  }

  lemma ValueOfNothing(b: int)
    ensures Value("", b) == 0
  {
  }

  method StrtoulInternal(s: seq<char>, base: long) returns (ret: nat, end: nat, sign: bool)
    requires '\0' in s
    ensures var n := Parse(Text(s), base);
      ret == AtMost(n.value, ULONG_MAX) && end == n.end && sign == n.negative
  {
    hide Value, DigitVal, DigitsEnd, SkipBlanks, Open;
    var o;
    o, sign := ReadOpening(s, base);
    if o.Rejected? { return 0, 0, sign; }
    ret, end := Accumulate32(s, o.at, o.base);
  }

  method StrtoullInternal(s: seq<char>, base: long) returns (ret: nat, end: nat, sign: bool)
    requires '\0' in s
    ensures var n := Parse(Text(s), base);
      ret == AtMost(n.value, ULLONG_MAX) && end == n.end && sign == n.negative
  {
    hide Value, DigitVal, DigitsEnd, SkipBlanks, Open;
    var o;
    o, sign := ReadOpening(s, base);
    if o.Rejected? { return 0, 0, sign; }
    ret, end := Accumulate64(s, o.at, o.base);
  }

  lemma ParsedNonNegative(t: string, base: long)
    ensures Parse(t, base).value >= 0
  {
    var i := SkipBlanks(t, 0);
    var j := if i < |t| && t[i] == '-' then i + 1 else i;
    if j < |t| && Open(t, j, base).Opening? {
      var o := Open(t, j, base);
      var e := DigitsEnd(t, o.at, o.base);
      if o.base >= 0 { ValueNonNegative(t[o.at..e], o.base); } else { assert t[o.at..e] == ""; }
    }
  }

  /** The signed number, held to the range of a long. */
  method Strtol(s: seq<char>, base: long) returns (r: int, end: nat)
    requires '\0' in s
    ensures r == Clamp(Signed(Parse(Text(s), base)))
    ensures end == Parse(Text(s), base).end
  {
    var ret, sign;
    ret, end, sign := StrtoulInternal(s, base);
    ParsedNonNegative(Text(s), base);
    r := if ret > LONG_MAX then (if sign then LONG_MIN else LONG_MAX) else (if sign then -ret else ret);
  }

  /** What section 7.22.1.4 of ISO/IEC 9899:2011 asks of strtoul. */
  function StandardUnsigned(n: Parsed): int {
    if n.value > ULONG_MAX then ULONG_MAX else Signed(n) % TWO_32
  }

  /** Right unless a negative number saturates: the sign is applied to that too. */
  method Strtoul(s: seq<char>, base: long) returns (r: int, end: nat)
    requires '\0' in s
    ensures end == Parse(Text(s), base).end
    ensures var n := Parse(Text(s), base);
      && (r == StandardUnsigned(n) <==> !(n.negative && n.value > ULONG_MAX))
      && (n.negative && n.value > ULONG_MAX ==> r == 1)
  {
    var ret, sign;
    ret, end, sign := StrtoulInternal(s, base);
    ParsedNonNegative(Text(s), base);
    r := if sign then -ret % TWO_32 else ret;
  }
}
