/** What an integer conversion of printf writes, by section 7.21.6.1 of
    ISO/IEC 9899:2011. */
module PrintfSpec {

  import opened CInt
  import opened Numerals

  /** A conversion specification. `sign` is '+', ' ' or '\0'; a negative
      precision is none. */
  datatype Conv = Conv(letter: char, left: bool, zero: bool, hash: bool, sign: char, width: nat, precision: int)

  predicate IsSigned(c: Conv) { c.letter in {'d', 'i'} }

  predicate IsInteger(c: Conv) { c.letter in {'d', 'i', 'u', 'o', 'x', 'X'} }

  function Radix(c: Conv): nat {
    if c.letter == 'o' then 8 else if c.letter in {'x', 'X'} then 16 else 10
  }

  function Table(c: Conv): string {
    if c.letter == 'X' then UPPER else LOWER
  }

  /** The number that is converted: an int or an unsigned int, both 32 bits. */
  function Magnitude(c: Conv, v: long): nat {
    if IsSigned(c) then Abs(v) else v % TWO_32
  }

  function Plain(c: Conv, v: long): (s: string)
    ensures |s| > 0
  {
    Numeral(Magnitude(c, v), Radix(c), Table(c))
  }

  /** At least as many digits as the precision says. Zero with precision zero
      has none; the alternative form of octal starts with a zero. */
  function Digits(c: Conv, v: long): string {
    var s := if c.precision == 0 && Magnitude(c, v) == 0 then "" else Zeros(c.precision - |Plain(c, v)|) + Plain(c, v);
    if c.letter == 'o' && c.hash && (s == "" || s[0] != '0') then "0" + s else s
  }

  /** Sign or prefix. */
  function Lead(c: Conv, v: long): string {
    if IsSigned(c) then (if v < 0 then "-" else if c.sign != '\0' then [c.sign] else "")
    else if c.hash && c.letter in {'x', 'X'} && v != 0 then ['0', c.letter]
    else ""
  }

  /** The zero flag counts without the minus flag and without a precision. */
  function Body(c: Conv, v: long): string {
    var fill := if c.zero && !c.left && c.precision < 0 then Zeros(c.width - |Lead(c, v)| - |Digits(c, v)|) else "";
    Lead(c, v) + fill + Digits(c, v)
  }

  function Field(body: string, width: nat, left: bool): string {
    if left then body + Repeat(' ', width - |body|) else Repeat(' ', width - |body|) + body
  }

  function Standard(c: Conv, v: long): string {
    Field(Body(c, v), c.width, c.left)
  }

  /** doprnt takes precision zero for none. */
  function Effective(c: Conv): Conv {
    if c.precision > 0 then c else c.(precision := -1)
  }

  /** The digits of a conversion, in numbers: base, value, no zero in front, and
      small letters but for X. */
  lemma PlainIs(c: Conv, v: long)
    requires IsInteger(c)
    ensures var s, b := Plain(c, v), if c.letter == 'o' then 8 else if c.letter in {'x', 'X'} then 16 else 10;
      && AllDigits(s, b) && Value(s, b) == (if c.letter in {'d', 'i'} then Abs(v) else v % TWO_32)
      && (s[0] == '0' <==> v == 0)
      && (forall x :: x in s ==> '0' <= x <= '9' || (if c.letter == 'X' then 'A' <= x <= 'F' else 'a' <= x <= 'f'))
  {
    hide DigitVal, Value, AllDigits, Numeral;
    Alphabets();
    NumeralDenotes(Magnitude(c, v), Radix(c), Table(c));
    NumeralLetters(Magnitude(c, v), Radix(c));
  }

  lemma RepeatAt(c: char, n: nat, s: string, k: nat)
    requires k < n + |s|
    ensures (Repeat(c, n) + s)[k] == if k < n then c else s[k - n]
  {
  }

  /** Precision zero comes out right exactly when there is a digit to print and
      the zero flag has nothing to fill. */
  lemma PrecisionZero(c: Conv, v: long)
    requires IsInteger(c) && c.precision == 0 && c.sign in {'\0', '+', ' '}
    ensures Standard(Effective(c), v) == Standard(c, v) <==>
            (Magnitude(c, v) != 0 || (c.letter == 'o' && c.hash)) &&
            !(c.zero && !c.left && c.width > |Lead(c, v)| + |Digits(c, v)|)
  {
    if Magnitude(c, v) == 0 && !(c.letter == 'o' && c.hash) {
      NothingAgainstZero(c, v);
    } else {
      SameDigits(c, v);
      if c.zero && !c.left && c.width > |Lead(c, v)| + |Digits(c, v)| {
        ZerosAgainstBlanks(c, v);
      }
    }
  }

  /** "%.0d" of 0 prints a digit, */
  lemma PrecisionZeroFails()
    ensures var c := Conv('d', false, false, false, '\0', 0, 0);
      Standard(Effective(c), 0) == "0" && Standard(c, 0) == ""
  {
  }

  /** and "%03.0d" of 5 prints zeros. */
  lemma PrecisionZeroFills()
    ensures var c := Conv('d', false, true, false, '\0', 3, 0);
      Standard(Effective(c), 5) == "005" && Standard(c, 5) == "  5"
  {
    assert Repeat('0', 2) == "00" && Repeat(' ', 2) == "  ";
    assert Numeral(5, 10, LOWER) == "5";
  }

  lemma SameDigits(c: Conv, v: long)
    requires IsInteger(c) && c.precision == 0
    requires Magnitude(c, v) != 0 || (c.letter == 'o' && c.hash)
    ensures Digits(Effective(c), v) == Digits(c, v) && Lead(Effective(c), v) == Lead(c, v)
    ensures !c.zero || c.left || c.width <= |Lead(c, v)| + |Digits(c, v)| ==> Body(Effective(c), v) == Body(c, v)
  {
  }

  lemma ZerosAgainstBlanks(c: Conv, v: long)
    requires IsInteger(c) && c.precision == 0 && c.sign in {'\0', '+', ' '}
    requires Magnitude(c, v) != 0 || (c.letter == 'o' && c.hash)
    requires c.zero && !c.left && c.width > |Lead(c, v)| + |Digits(c, v)|
    ensures Standard(Effective(c), v) != Standard(c, v)
  {
    hide Digits;
    var e := Effective(c);
    SameDigits(c, v);
    var k := c.width - |Digits(c, v)| - 1;
    assert Standard(e, v)[k] == '0';
    RepeatAt(' ', c.width - |Body(c, v)|, Body(c, v), k);
    assert Standard(c, v)[k] != '0';
  }

  lemma NothingAgainstZero(c: Conv, v: long)
    requires IsInteger(c) && c.precision == 0 && c.sign in {'\0', '+', ' '}
    requires Magnitude(c, v) == 0 && !(c.letter == 'o' && c.hash)
    ensures Standard(Effective(c), v) != Standard(c, v)
  {
    var e := Effective(c);
    assert v == 0;
    assert Digits(e, v) == "0" && Digits(c, v) == "";
    assert '0' in Body(e, v);
    assert '0' !in Lead(c, v);
    assert '0' !in Standard(c, v);
  }

  // ---- plus and space together ----

  /** The sign flag that counts for doprnt: the last one. */
  function LastSign(flags: string): char {
    if flags == "" then '\0'
    else if flags[|flags| - 1] in {'+', ' '} then flags[|flags| - 1]
    else LastSign(flags[..|flags| - 1])
  }

  /** The one that counts by the standard. */
  function StandardSign(flags: string): char {
    if '+' in flags then '+' else if ' ' in flags then ' ' else '\0'
  }

  lemma {:induction false} LastSignIs(flags: string)
    ensures LastSign(flags) in {'\0', '+', ' '}
    ensures LastSign(flags) == '+' ==> '+' in flags
    ensures LastSign(flags) == '\0' <==> '+' !in flags && ' ' !in flags
    ensures '+' !in flags ==> LastSign(flags) == StandardSign(flags)
  {
    if flags == "" {
    } else {
      LastSignIs(flags[..|flags| - 1]);
    }
  }

  /** A number comes out right exactly when it shows no sign flag, or there is no
      plus among them, or the plus comes after the last space. */
  lemma SignFlags(c: Conv, flags: string, v: long)
    requires IsInteger(c)
    ensures Standard(c.(sign := LastSign(flags)), v) == Standard(c.(sign := StandardSign(flags)), v) <==>
            !IsSigned(c) || v < 0 || '+' !in flags || LastSign(flags) == '+'
  {
    hide Standard;
    LastSignIs(flags);
    if !IsSigned(c) || v < 0 {
      SignUnused(c, v, LastSign(flags), StandardSign(flags));
    } else if '+' in flags && LastSign(flags) != '+' {
      SpaceAgainstPlus(c, v);
    }
  }

  /** "%+ d" of 5 prints a blank. */
  lemma SignFlagsFail()
    ensures var c := Conv('d', false, false, false, '\0', 0, -1);
      && Standard(c.(sign := LastSign("+ ")), 5) == " 5"
      && Standard(c.(sign := StandardSign("+ ")), 5) == "+5"
  {
    assert LastSign("+ ") == ' ';
  }

  lemma SignUnused(c: Conv, v: long, s: char, u: char)
    requires !IsSigned(c) || v < 0
    ensures Standard(c.(sign := s), v) == Standard(c.(sign := u), v)
  {
    hide Zeros, Repeat, Numeral;
    var p, q := c.(sign := s), c.(sign := u);
    assert Lead(p, v) == Lead(q, v);
    assert Plain(p, v) == Plain(q, v);
    assert Digits(p, v) == Digits(q, v);
    assert Body(p, v) == Body(q, v);
  }

  lemma SpaceAgainstPlus(c: Conv, v: long)
    requires IsSigned(c) && v >= 0
    ensures Standard(c.(sign := ' '), v) != Standard(c.(sign := '+'), v)
  {
    hide Digits;
    var p, q := c.(sign := '+'), c.(sign := ' ');
    assert Body(p, v)[0] == '+';
    PadsOnly(Body(p, v), c.width, c.left, '+');
    DigitsOnly(q, v);
    assert '+' !in Body(q, v);
    PadsOnly(Body(q, v), c.width, c.left, '+');
  }

  lemma PadsOnly(body: string, width: nat, left: bool, x: char)
    requires x != ' '
    ensures x in Field(body, width, left) <==> x in body
  {
  }

  lemma DigitsOnly(c: Conv, v: long)
    requires IsSigned(c)
    ensures '+' !in Digits(c, v)
  {
    Alphabets();
    NoPlus(Magnitude(c, v), 10, LOWER);
  }

  lemma NoPlus(v: nat, b: nat, digits: string)
    requires 2 <= b <= |digits| && IsAlphabet(digits)
    ensures '+' !in Numeral(v, b, digits)
  {
    NumeralDenotes(v, b, digits);
    assert DigitVal('+') == 37;
  }
}
