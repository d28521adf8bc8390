/** What printf writes is read back by strtol and strtoul. */
module PrintfText {

  import opened CInt
  import opened Numerals
  import opened PrintfSpec
  import opened Printf
  import opened Doprnt
  import opened TextToInteger
  import opened NumberStandard
  import opened NumberText

  /** The blanks behind a number that is flush left. */
  function Trailing(body: string, width: nat, left: bool): nat {
    if left then |Repeat(' ', width - |body|)| else 0
  }

  lemma BlankStops(n: int, b: int)
    requires b <= 37
    ensures Stops(Repeat(' ', n), b)
  {
  }

  /** A number in a field of any width. */
  lemma FieldReadBack(blanks: string, minus: bool, prefix: string, digits: string, width: nat, left: bool,
                      base: long, b: long)
    requires forall m :: 0 <= m < |blanks| ==> blanks[m] in {' ', '\t'}
    requires 2 <= b <= 36 && AllDigits(digits, b) && digits != ""
    requires Announces(prefix, digits, "", base, b)
    ensures var body := blanks + Sign(minus) + prefix + digits;
      var text := Field(body, width, left);
      Parse(text, base) == Parsed(Value(digits, b), minus, |text| - Trailing(body, width, left))
  {
    hide Value, Parse, Announces;
    var body := blanks + Sign(minus) + prefix + digits;
    if left {
      var fill := Repeat(' ', width - |body|);
      BlankStops(width - |body|, b);
      StillAnnounced(prefix, digits, fill, base, b);
      ParseSubject(blanks, minus, prefix, digits, fill, base, b);
    } else {
      FlushRight(blanks, minus, prefix, digits, width, base, b);
    }
  }

  lemma FlushRight(blanks: string, minus: bool, prefix: string, digits: string, width: nat, base: long, b: long)
    requires forall m :: 0 <= m < |blanks| ==> blanks[m] in {' ', '\t'}
    requires 2 <= b <= 36 && AllDigits(digits, b)
    requires Announces(prefix, digits, "", base, b)
    ensures var text := Field(blanks + Sign(minus) + prefix + digits, width, false);
      Parse(text, base) == Parsed(Value(digits, b), minus, |text|)
  {
    hide Value, Parse, Announces, AllDigits;
    var body := blanks + Sign(minus) + prefix + digits;
    var fill := Repeat(' ', width - |body|);
    var more := fill + blanks;
    forall m | 0 <= m < |more| ensures more[m] in {' ', '\t'} {
      if m >= |fill| { assert more[m] == blanks[m - |fill|]; }
    }
    ParseSubject(more, minus, prefix, digits, "", base, b);
    assert more + Sign(minus) + prefix + digits + "" == fill + body;
    assert more + Sign(minus) + prefix + digits == fill + body;
  }

  lemma StillAnnounced(prefix: string, digits: string, rest: string, base: long, b: long)
    requires digits != "" && (forall m :: 0 <= m < |rest| ==> rest[m] == ' ')
    requires Announces(prefix, digits, "", base, b)
    ensures Announces(prefix, digits, rest, base, b)
  {
  }

  /** Leading zeros in a number. */
  lemma PaddedDenotes(z: int, v: nat, b: nat, table: string)
    requires 2 <= b <= |table| && IsAlphabet(table)
    ensures var digits := Zeros(z) + Numeral(v, b, table);
      AllDigits(digits, b) && Value(digits, b) == v && digits != ""
  {
    NumeralDenotes(v, b, table);
    LeadingZeros(z, Numeral(v, b, table), b);
    assert DigitVal('0') == 0;
  }

  lemma TenHasNoLetters(digits: string, b: int)
    requires b <= 10 && AllDigits(digits, b)
    ensures !LooksPrefixed(digits)
  {
  }

  /** The zeros of a signed conversion. */
  function SignedZeros(c: Conv, v: long): int {
    var k := |Plain(c, v)|;
    if c.precision > 0 then c.precision - k
    else if c.zero && !c.left && c.width > k then c.width - k - |Lead(c, v)|
    else 0
  }

  lemma SignedShape(c: Conv, v: long)
    requires IsSigned(c)
    ensures Body(Effective(c), v) == Lead(c, v) + (Zeros(SignedZeros(c, v)) + Plain(c, v))
  {
    hide Body, Plain, Lead;
    if c.precision > 0 { SignedPrecise(c, v); }
    else if c.zero && !c.left && c.width > |Plain(c, v)| { SignedFilled(c, v); }
    else {
      SignedBare(c, v);
      NoZeros();
      assert Zeros(0) + Plain(c, v) == Plain(c, v);
    }
  }

  /** How much of the buffer a conversion takes: sign or prefix, and as many digits
      as the number, the precision or the zero flag asks for. */
  lemma BodyLength(c: Conv, v: long)
    requires IsInteger(c)
    ensures var k, lead := |Plain(c, v)|, |if IsSigned(c) then Lead(c, v) else Prefix(c, v)|;
      var asked := if c.precision > 0 then c.precision - (if c.letter == 'o' then lead else 0)
                   else if c.zero && !c.left then c.width - lead
                   else 0;
      |Body(Effective(c), v)| == lead + if asked > k then asked else k
  {
    hide Body, Plain;
    if IsSigned(c) { SignedShape(c, v); } else { UnsignedShape(c, v); }
  }

  /** Every number fits if precision and zeros stay below this, and one with more
      digits than the buffer holds does not. */
  lemma WhatFits(c: Conv, v: long)
    requires IsInteger(c)
    ensures c.precision <= BUFFER_SIZE - 2 && (c.width <= BUFFER_SIZE || !c.zero || c.left || c.precision > 0) ==>
      |Body(Effective(c), v)| <= BUFFER_SIZE
    ensures c.precision > BUFFER_SIZE ==> |Body(Effective(c), v)| > BUFFER_SIZE
  {
    hide Body;
    BodyLength(c, v);
    LongLength(Magnitude(c, v), Radix(c), Table(c));
  }

  /** The digits of a signed conversion, and what stands in front of them. */
  function SignedDigits(c: Conv, v: long): string {
    Zeros(SignedZeros(c, v)) + Plain(c, v)
  }

  function SignBlank(c: Conv, v: long): string {
    if v >= 0 && c.sign == ' ' then " " else ""
  }

  lemma SignedPieces(c: Conv, v: long)
    requires IsSigned(c) && c.sign in {'\0', '+', ' '} && !(v >= 0 && c.sign == '+')
    ensures var digits := SignedDigits(c, v);
      && digits != "" && AllDigits(digits, 10) && Value(digits, 10) == Abs(v) && !LooksPrefixed(digits + "")
      && Body(Effective(c), v) == SignBlank(c, v) + Sign(v < 0) + "" + digits
  {
    hide Value, Body, Numeral, Zeros, SignedZeros;
    var digits := SignedDigits(c, v);
    SignedShape(c, v);
    PaddedDenotes(SignedZeros(c, v), Abs(v), 10, LOWER);
    TenHasNoLetters(digits, 10);
    assert digits + "" == digits;
  }

  /** %d and %i, read with base 10, or with base 0 when no zeros were put in
      front: they come back exactly if no plus was printed. The smallest long is
      no exception. */
  lemma DecimalReadBack(c: Conv, v: long, base: long)
    requires IsSigned(c) && c.sign in {'\0', '+', ' '}
    requires base == 10 || (base == 0 && SignedZeros(c, v) <= 0)
    ensures var text := Standard(Effective(c), v);
      var n := Parse(text, base);
      Clamp(Signed(n)) == v && n.end == |text| - Trailing(Body(Effective(c), v), c.width, c.left) <==>
      !(v >= 0 && c.sign == '+')
  {
    hide Value, Parse, Body, Field, SignedZeros, SignedDigits, AllDigits, LooksPrefixed, Trailing;
    if v >= 0 && c.sign == '+' {
      PlusRefused(c, v, base);
    } else {
      SignedPieces(c, v);
      if base == 0 { StartsLikeDecimal(c, v); }
      if base == 0 && v == 0 {
        ZeroReadBack(SignBlank(c, v), SignedDigits(c, v), c.width, c.left, 0);
      } else {
        FieldReadBack(SignBlank(c, v), v < 0, "", SignedDigits(c, v), c.width, c.left, base, 10);
      }
    }
  }

  /** The parser stops at a plus. */
  lemma PlusRefused(c: Conv, v: long, base: long)
    requires IsSigned(c) && c.sign == '+' && v >= 0 && base in {0, 10}
    ensures var text := Standard(Effective(c), v);
      Parse(text, base).end < |text| - Trailing(Body(Effective(c), v), c.width, c.left)
  {
    hide Value, Parse, Numeral, Zeros;
    SignedShape(c, v);
    var body := Body(Effective(c), v);
    var fill := if c.left then "" else Repeat(' ', c.width - |body|);
    assert body[0] == '+';
    var text := Standard(Effective(c), v);
    assert text[|fill|] == '+';
    SkipExact(text, 0, |fill|);
    NothingThere(text, base);
  }

  lemma StartsLikeDecimal(c: Conv, v: long)
    requires IsSigned(c) && SignedZeros(c, v) <= 0
    ensures var digits := SignedDigits(c, v);
      digits != "" && (digits[0] == '0' <==> v == 0) && (v == 0 ==> digits == "0")
  {
    Alphabets();
    NumeralDenotes(Abs(v), 10, LOWER);
    assert Zeros(SignedZeros(c, v)) == "";
  }

  /** Nothing but zeros, with a base that may be open. */
  lemma ZeroReadBack(blanks: string, digits: string, width: nat, left: bool, base: long)
    requires forall m :: 0 <= m < |blanks| ==> blanks[m] in {' ', '\t'}
    requires digits != "" && (forall i :: 0 <= i < |digits| ==> digits[i] == '0')
    requires base in {0, 16}
    ensures var body := blanks + Sign(false) + "" + digits;
      var text := Field(body, width, left);
      Parse(text, base) == Parsed(0, false, |text| - Trailing(body, width, left))
  {
    hide Parse, Value;
    var b := if base == 0 then 8 else 16;
    assert digits + "" == digits;
    ZerosAreZero(digits, b);
    FieldReadBack(blanks, false, "", digits, width, left, base, b);
  }

  lemma {:induction false} ZerosAreZero(digits: string, b: int)
    requires forall i :: 0 <= i < |digits| ==> digits[i] == '0'
    requires b >= 1
    ensures Value(digits, b) == 0 && AllDigits(digits, b)
  {
    if digits == "" {
    } else {
      ZerosAreZero(digits[..|digits| - 1], b);
    }
  }

  /** %#x and %#X with base 0 or 16, whatever the width, precision and flags. */
  lemma HexReadBack(c: Conv, v: long, base: long)
    requires c.letter in {'x', 'X'} && c.hash && base in {0, 16}
    ensures var text := Standard(Effective(c), v);
      var n := Parse(text, base);
      && n.value == v % TWO_32 && !n.negative
      && n.end == |text| - Trailing(Body(Effective(c), v), c.width, c.left)
  {
    hide Value, Parse, Body, Numeral, Zeros;
    var digits := Zeros(FillZeros(c, v)) + Plain(c, v);
    UnsignedShape(c, v);
    PaddedDenotes(FillZeros(c, v), Magnitude(c, v), 16, Table(c));
    assert Body(Effective(c), v) == "" + Sign(false) + Prefix(c, v) + digits;
    if v == 0 {
      PlainZero(c);
      AllZeros(FillZeros(c, v), digits);
      ZeroReadBack("", digits, c.width, c.left, base);
    } else {
      assert Prefix(c, v) in {"0x", "0X"};
      FieldReadBack("", false, Prefix(c, v), digits, c.width, c.left, base, 16);
    }
  }

  lemma PlainZero(c: Conv)
    ensures Plain(c, 0) == "0"
  {
  }

  lemma AllZeros(z: int, digits: string)
    requires digits == Zeros(z) + "0"
    ensures forall i :: 0 <= i < |digits| ==> digits[i] == '0'
  {
  }

  /** %#o with base 0. */
  lemma OctalReadBack(c: Conv, v: long)
    requires c.letter == 'o' && c.hash
    ensures var text := Standard(Effective(c), v);
      var n := Parse(text, 0);
      && n.value == v % TWO_32 && !n.negative
      && n.end == |text| - Trailing(Body(Effective(c), v), c.width, c.left)
  {
    hide Value, Parse, Body, Numeral, Zeros, FillZeros, DigitVal, AllDigits, IsAlphabet;
    var digits := Zeros(FillZeros(c, v)) + Plain(c, v);
    UnsignedShape(c, v);
    Alphabets();
    PaddedDenotes(FillZeros(c, v), Magnitude(c, v), 8, LOWER);
    if v == 0 {
      PlainZero(c);
      AllZeros(FillZeros(c, v), digits);
      assert Body(Effective(c), v) == "" + Sign(false) + "" + digits;
      ZeroReadBack("", digits, c.width, c.left, 0);
    } else {
      OneZeroMore(digits);
      assert Body(Effective(c), v) == "" + Sign(false) + "" + ("0" + digits);
      OctalField("0" + digits, c.width, c.left);
    }
  }

  lemma OctalField(digits: string, width: nat, left: bool)
    requires AllDigits(digits, 8) && digits != "" && digits[0] == '0'
    ensures var body := "" + Sign(false) + "" + digits;
      var text := Field(body, width, left);
      Parse(text, 0) == Parsed(Value(digits, 8), false, |text| - Trailing(body, width, left))
  {
    TenHasNoLetters(digits, 8);
    assert digits + "" == digits;
    FieldReadBack("", false, "", digits, width, left, 0, 8);
  }

  lemma OneZeroMore(digits: string)
    requires AllDigits(digits, 8)
    ensures AllDigits("0" + digits, 8) && Value("0" + digits, 8) == Value(digits, 8)
  {
    assert "0" + digits == Zeros(1) + digits;
    LeadingZeros(1, digits, 8);
  }

  /** The formats "%ld", "%#lx" and "%#lo" with one argument. */
  lemma OneConversion(t: string, v: long, letter: char)
    requires t in {"%ld", "%#lx", "%#lo"} && letter == t[|t| - 1]
    ensures Format(t, 0, [Word(v)], 0) == Standard(Effective(Conv(letter, false, false, '#' in t, '\0', 0, -1)), v)
  {
    hide Standard, Effective;
    var f := if '#' in t then 2 else 1;
    assert FlagsEnd(t, 1) == f;
    assert t[1..f] == if '#' in t then "#" else "";
    assert LastSign(t[1..f]) == '\0';
    assert DigitsEnd(t, f, 10) == f;
    assert t[f..f] == "";
    var d := DirectiveAt(t, 1, [Word(v)], 0);
    assert d == Directive(Conv(letter, false, false, '#' in t, '\0', 0, -1), |t| - 1, 0);
  }

  /** Text printed with one of them parses back with base 0, up to its end. */
  lemma PrintedParsesBack(t: string, v: long)
    requires t in {"%ld", "%#lx", "%#lo"}
    ensures var text := Format(t, 0, [Word(v)], 0);
      var n := Parse(text, 0);
      && n.end == |text|
      && if t == "%ld" then Clamp(Signed(n)) == v else StandardUnsigned(n) == v % TWO_32
  {
    hide Parse, Standard, Format, Body, Effective, Numeral, Value, Plain, Lead;
    var letter := t[|t| - 1];
    var c := Conv(letter, false, false, '#' in t, '\0', 0, -1);
    OneConversion(t, v, letter);
    if letter == 'd' {
      DecimalReadBack(c, v, 0);
    } else if letter == 'x' {
      HexReadBack(c, v, 0);
    } else {
      OctalReadBack(c, v);
    }
  }
}
