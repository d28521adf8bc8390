/** Numbers as text: what a digit string denotes, and the numeral of a number. */
module Numerals {

  import opened CInt

  /** Two strings of one table: lower and upper case digits. */
  const LOWER := "0123456789abcdef"
  const UPPER := "0123456789ABCDEF"

  /** The value that the parsers give a character; 37 stands for no digit. A
      character beyond 127 is negative in C. */
  function DigitVal(c: char): nat {
    if '0' <= c <= '9' then c as int - '0' as int
    else if c >= 128 as char then 37
    else
      var val := 10 + ClearCase(c as int) - 'A' as int;
      if val < 10 then 37 else val
  }

  /** The bit that makes letters small is cleared, in a 7-bit character. */
  function ClearCase(c: int): int {
    if c / 32 % 2 == 1 then c - 32 else c
  }

  /** What a digit string denotes, most significant digit first. */
  function Value(s: string, b: int): int {
    if s == [] then 0 else Value(s[..|s| - 1], b) * b + DigitVal(s[|s| - 1])
  }

  predicate AllDigits(s: string, b: int) {
    forall i :: 0 <= i < |s| ==> DigitVal(s[i]) < b
  }

  /** One step of a conversion to base `b`. */
  lemma AtLeastBase(v: nat, b: nat)
    requires 2 <= b <= v
    ensures 0 < v / b && 2 * (v / b) <= v && v == v / b * b + v % b
  {
  }

  /** A number written with the fewest digits. */
  function Numeral(v: nat, b: nat, digits: string): (s: string)
    requires 2 <= b <= |digits|
    ensures |s| > 0
  {
    if v < b then
      [digits[v]]
    else
      AtLeastBase(v, b);
      Numeral(v / b, b, digits) + [digits[v % b]]
  }

  function Zeros(n: int): (s: string)
    ensures |s| == if n < 0 then 0 else n
  {
    Repeat('0', n)
  }

  /** `n` times the character, none if `n` is negative. */
  function Repeat(c: char, n: int): (s: string)
    ensures |s| == if n < 0 then 0 else n
    ensures forall i :: 0 <= i < |s| ==> s[i] == c
    decreases if n < 0 then 0 else n
  {
    if n <= 0 then [] else Repeat(c, n - 1) + [c]
  }

  /** A digit or a letter with that value, the letters from 10 on. */
  predicate Stands(c: char, d: nat) {
    if d < 10 then c as int == '0' as int + d
    else d < 36 && (c as int == 'a' as int + d - 10 || c as int == 'A' as int + d - 10)
  }

  /** The parsers know these characters, in either case, and no others as digits
      of any base. */
  lemma DigitValIs(c: char)
    ensures forall d: nat :: d < 36 ==> (DigitVal(c) == d <==> Stands(c, d))
  {
  }

  predicate IsAlphabet(digits: string) {
    2 <= |digits| <= 36 && forall d :: 0 <= d < |digits| ==> Stands(digits[d], d)
  }

  const SMALL_REST := "ghijklmnopqrstuvwxyz"
  const CAPITAL_REST := "GHIJKLMNOPQRSTUVWXYZ"

  /** The digits of base 36 in either case. */
  lemma WholeAlphabets()
    ensures IsAlphabet("0123456789abcdef" + SMALL_REST) && IsAlphabet("0123456789ABCDEF" + CAPITAL_REST)
  {
    assert forall d :: 0 <= d < 20 ==> Stands(SMALL_REST[d], d + 16) && Stands(CAPITAL_REST[d], d + 16);
  }

  lemma Alphabets()
    ensures IsAlphabet(LOWER) && IsAlphabet(UPPER)
  {
  }

  lemma DigitOfTable(digits: string, d: nat)
    requires IsAlphabet(digits) && d < |digits|
    ensures DigitVal(digits[d]) == d && (digits[d] == '0' <==> d == 0)
  {
    DigitValIs(digits[d]);
  }

  /** Digits above 9 are small letters in one table, capitals in the other. */
  lemma {:induction false} NumeralLetters(v: nat, b: nat)
    requires 2 <= b <= 16
    ensures forall c :: c in Numeral(v, b, LOWER) ==> '0' <= c <= '9' || 'a' <= c <= 'f'
    ensures forall c :: c in Numeral(v, b, UPPER) ==> '0' <= c <= '9' || 'A' <= c <= 'F'
  {
    DigitRange(v, b);
    NumeralStep(v, b, LOWER);
    NumeralStep(v, b, UPPER);
    if v < b {
    } else {
      NumeralLetters(v / b, b);
    }
  }

  /** No base needs more digits than base two. */
  lemma {:induction false} NumeralLength(v: nat, b: nat, digits: string, n: nat)
    requires 2 <= b <= |digits| && 1 <= n && v < Pow2(n)
    ensures |Numeral(v, b, digits)| <= n
  {
    if v < b {
    } else {
      AtLeastBase(v, b);
      NumeralLength(v / b, b, digits, n - 1);
    }
  }

  lemma LongLength(v: nat, b: nat, digits: string)
    requires 2 <= b <= |digits| && v < TWO_32
    ensures |Numeral(v, b, digits)| <= 32
  {
    assert Pow2(8) == 256;
    assert Pow2(16) == 256 * Pow2(8);
    assert Pow2(24) == 256 * Pow2(16);
    assert Pow2(32) == 256 * Pow2(24);
    NumeralLength(v, b, digits, 32);
  }

  /** Leading zeros do not change what a digit string denotes. */
  lemma {:induction false} LeadingZeros(n: int, s: string, b: int)
    requires b >= 1
    ensures Value(Zeros(n) + s, b) == Value(s, b)
  {
    var w := Zeros(n) + s;
    if s != [] {
      LeadingZeros(n, s[..|s| - 1], b);
      assert w[..|w| - 1] == Zeros(n) + s[..|s| - 1];
    } else if n > 0 {
      LeadingZeros(n - 1, s, b);
      assert w[..|w| - 1] == Zeros(n - 1) + s;
    }
  }

  function Reversed(s: string): (r: string)
    ensures |r| == |s|
  {
    if s == [] then [] else [s[|s| - 1]] + Reversed(s[..|s| - 1])
  }

  lemma EmptyReversed()
    ensures Reversed("") == ""
  {
  }

  lemma ReversedSnoc(s: string, c: char)
    ensures Reversed(s + [c]) == [c] + Reversed(s)
  {
  }

  /** The part of a numeral that is left when its last digit is taken. */
  function Leading(v: nat, b: nat, digits: string): string
    requires 2 <= b <= |digits|
  {
    if v < b then ""
    else
      AtLeastBase(v, b);
      Numeral(v / b, b, digits)
  }

  lemma DigitRange(v: nat, b: nat)
    requires 2 <= b
    ensures 0 <= v / b <= v && (v / b == 0 <==> v < b) && (v / b != 0 ==> v / b < v) && 0 <= v % b < b
    ensures v < b ==> v % b == v
  {
  }

  lemma NumeralStep(v: nat, b: nat, digits: string)
    requires 2 <= b <= |digits|
    ensures 0 <= v % b < b && Numeral(v, b, digits) == Leading(v, b, digits) + [digits[v % b]]
  {
    DigitRange(v, b);
  }

  lemma AppendDigit(s: string, c: char, b: int)
    ensures Value(s + [c], b) == Value(s, b) * b + DigitVal(c)
    ensures AllDigits(s, b) && DigitVal(c) < b ==> AllDigits(s + [c], b)
    ensures (s + [c])[0] == if s == [] then c else s[0]
  {
  }

  lemma NoDigits(b: int)
    ensures Value("", b) == 0 && AllDigits("", b)
  {
  }

  /** A numeral consists of digits, denotes its number, and starts with a zero
      only when that is all. */
  lemma {:induction false} NumeralDenotes(v: nat, b: nat, digits: string)
    requires 2 <= b <= |digits| && IsAlphabet(digits)
    ensures AllDigits(Numeral(v, b, digits), b)
    ensures Value(Numeral(v, b, digits), b) == v
    ensures Numeral(v, b, digits)[0] == '0' <==> v == 0
  {
    hide DigitVal, IsAlphabet, Numeral, Value, AllDigits;
    DigitRange(v, b);
    NumeralStep(v, b, digits);
    DigitOfTable(digits, v % b);
    AppendDigit(Leading(v, b, digits), digits[v % b], b);
    NoDigits(b);
    if v < b {
    } else {
      AtLeastBase(v, b);
      NumeralDenotes(v / b, b, digits);
    }
  }

  /** The digits of a value, the last one first, into a buffer from `at` on. */
  method PutDigits(value: nat, radix: nat, digits: string, buf: array<char>, at: nat) returns (i: nat)
    requires 2 <= radix <= |digits| && value < TWO_32
    requires at + |Numeral(value, radix, digits)| <= buf.Length
    modifies buf
    ensures i == at + |Numeral(value, radix, digits)|
    ensures Reversed(buf[at..i]) == Numeral(value, radix, digits)
    ensures buf[..at] == old(buf[..at])
  {
    hide Numeral, Reversed;
    var v: nat := value;
    i := at;
    assert Reversed(buf[at..i]) == "" by { EmptyReversed(); }
    while true
      invariant at <= i
      invariant i + |Numeral(v, radix, digits)| <= buf.Length
      invariant Numeral(value, radix, digits) == Numeral(v, radix, digits) + Reversed(buf[at..i])
      invariant buf[..at] == old(buf[..at])
      decreases v
    {
      DigitRange(v, radix);
      NumeralStep(v, radix, digits);
      ghost var before := buf[at..i];
      ReversedSnoc(before, digits[v % radix]);
      buf[i] := digits[v % radix];
      i := i + 1;
      assert buf[at..i] == before + [digits[v % radix]];
      v := v / radix;
      if v == 0 { break; }
    }
  }
}
