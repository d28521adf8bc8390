/** The parsers on the texts they are for, and the way back from a number. */
module NumberText {

  import opened CInt
  import opened Numerals
  import opened IntegerToText
  import opened TextToInteger

  lemma {:induction false} SkipExact(t: string, i: nat, k: nat)
    requires i <= k <= |t|
    requires forall m :: i <= m < k ==> t[m] in {' ', '\t'}
    requires k < |t| ==> t[k] !in {' ', '\t'}
    ensures SkipBlanks(t, i) == k
    decreases k - i
  {
    if i >= k {
    } else {
      SkipExact(t, i + 1, k);
    }
  }

  lemma {:induction false} DigitsExact(t: string, i: nat, k: nat, b: int)
    requires i <= k <= |t|
    requires forall m :: i <= m < k ==> DigitVal(t[m]) < b
    requires k < |t| ==> DigitVal(t[k]) >= b
    ensures DigitsEnd(t, i, b) == k
    decreases k - i
  {
    if i >= k {
    } else {
      DigitsExact(t, i + 1, k, b);
    }
  }

  function Sign(minus: bool): string {
    if minus then "-" else ""
  }

  /** A zero and a letter that the parsers take for a prefix. */
  predicate LooksPrefixed(w: string) {
    |w| >= 2 && w[0] == '0' && w[1] in {'b', 'B', 'x', 'X'}
  }

  /** With `base` requested, these characters are read as a numeral of base `b`. */
  predicate Announces(prefix: string, digits: string, rest: string, base: long, b: long) {
    || (prefix in {"0x", "0X"} && base in {0, 16} && b == 16)
    || (prefix in {"0b", "0B"} && base in {0, 2} && b == 2)
    || (prefix == "" && digits != "" && !LooksPrefixed(digits + rest) &&
        b == if base != 0 then base else if digits[0] == '0' then 8 else 10)
  }

  predicate Stops(rest: string, b: int) {
    rest == "" || DigitVal(rest[0]) >= b
  }

  /** `w` stands in `t` at `q`. */
  predicate StandsAt(t: string, q: nat, w: string) {
    q + |w| <= |t| && t[q..q + |w|] == w
  }

  /** Section 7.22.1.4 of ISO/IEC 9899:2011, without the plus sign: blanks, a
      sign, a prefix, digits, and what follows. */
  lemma ParseSubject(blanks: string, minus: bool, prefix: string, digits: string, rest: string, base: long, b: long)
    requires forall m :: 0 <= m < |blanks| ==> blanks[m] in {' ', '\t'}
    requires 2 <= b <= 36 && AllDigits(digits, b) && Stops(rest, b)
    requires Announces(prefix, digits, rest, base, b)
    ensures Parse(blanks + Sign(minus) + prefix + digits + rest, base) ==
            Parsed(Value(digits, b), minus, |blanks + Sign(minus) + prefix + digits|)
  {
    hide Value, Open, DigitsEnd, SkipBlanks, Announces, StandsAt, AllDigits, Stops, Sign;
    var t := blanks + Sign(minus) + prefix + digits + rest;
    var j := |blanks + Sign(minus)|;
    Pieces(blanks + Sign(minus), prefix, digits, rest);
    SkipsTo(blanks, minus, prefix, digits, rest, base, b);
    OpensAt(t, j, prefix, digits, rest, base, b);
    EndsAt(t, j + |prefix|, Open(t, j, base).at, digits, rest, b);
    ParseFrom(t, base, |blanks|, minus, digits, b);
  }

  lemma Pieces(head: string, prefix: string, digits: string, rest: string)
    ensures var t := head + prefix + digits + rest;
      var q := |head| + |prefix|;
      && StandsAt(t, |head|, prefix + digits + rest) && StandsAt(t, q, digits)
      && |t| == q + |digits| + |rest|
      && (rest != "" ==> t[q + |digits|] == rest[0])
  {
  }

  /** Parse, once the pieces are known. */
  lemma ParseFrom(t: string, base: long, i: nat, minus: bool, digits: string, b: long)
    requires SkipBlanks(t, 0) == i < |t| && (t[i] == '-' <==> minus)
    requires i + |Sign(minus)| < |t|
    requires Open(t, i + |Sign(minus)|, base).Opening?
    requires Open(t, i + |Sign(minus)|, base).base == b
    requires var at := Open(t, i + |Sign(minus)|, base).at;
      Value(t[at..DigitsEnd(t, at, b)], b) == Value(digits, b)
    ensures Parse(t, base) ==
            Parsed(Value(digits, b), minus, DigitsEnd(t, Open(t, i + |Sign(minus)|, base).at, b))
  {
  }

  lemma SkipsTo(blanks: string, minus: bool, prefix: string, digits: string, rest: string, base: long, b: long)
    requires forall m :: 0 <= m < |blanks| ==> blanks[m] in {' ', '\t'}
    requires 2 <= b <= 36 && AllDigits(digits, b) && Announces(prefix, digits, rest, base, b)
    ensures var t := blanks + Sign(minus) + prefix + digits + rest;
      SkipBlanks(t, 0) == |blanks| && |blanks + Sign(minus)| < |t| && (t[|blanks|] == '-' <==> minus)
  {
    var w := prefix + digits + rest;
    var t := blanks + Sign(minus) + w;
    assert t == blanks + Sign(minus) + prefix + digits + rest;
    assert w[0] == if prefix != "" then prefix[0] else digits[0];
    assert DigitVal(w[0]) < 37;
    assert t[|blanks|] == if minus then '-' else w[0];
    SkipExact(t, 0, |blanks|);
  }

  lemma OpensAt(t: string, j: nat, prefix: string, digits: string, rest: string, base: long, b: long)
    requires StandsAt(t, j, prefix + digits + rest) && j < |t| == j + |prefix + digits + rest|
    requires 2 <= b <= 36 && AllDigits(digits, b) && Announces(prefix, digits, rest, base, b)
    ensures var o := Open(t, j, base);
      && o.Opening? && o.base == b
      && (o.at == j + |prefix| || (digits != "" && digits[0] == '0' && o.at == j + |prefix| + 1))
  {
    var w := prefix + digits + rest;
    assert t[j] == t[j..j + |w|][0] == w[0];
    if |w| > 1 { assert t[j + 1] == t[j..j + |w|][1] == w[1]; }
    if prefix == "" {
      assert w == digits + rest;
    }
  }

  lemma EndsAt(t: string, q: nat, at: nat, digits: string, rest: string, b: long)
    requires StandsAt(t, q, digits) && |t| == q + |digits| + |rest|
    requires rest != "" ==> t[q + |digits|] == rest[0]
    requires 2 <= b <= 36 && AllDigits(digits, b) && Stops(rest, b)
    requires at == q || (digits != "" && digits[0] == '0' && at == q + 1)
    ensures at <= q + |digits| == DigitsEnd(t, at, b)
    ensures Value(t[at..q + |digits|], b) == Value(digits, b)
  {
    hide Value, DigitVal, DigitsEnd;
    var e := q + |digits|;
    forall m | at <= m < e ensures DigitVal(t[m]) < b {
      assert t[m] == t[q..e][m - q] == digits[m - q];
    }
    DigitsExact(t, at, e, b);
    if at != q {
      assert t[at..e] == digits[1..];
      DropZero(digits, b);
    }
  }

  lemma DropZero(digits: string, b: long)
    requires 1 <= b && digits != "" && digits[0] == '0'
    ensures Value(digits[1..], b) == Value(digits, b)
  {
    assert digits == Zeros(1) + digits[1..];
    LeadingZeros(1, digits[1..], b);
  }

  // ---- the way back ----

  lemma SignedNumeralText(v: int, b: nat)
    requires 2 <= b <= 16
    ensures SignedNumeral(v, b) == "" + Sign(v < 0) + "" + Numeral(Abs(v), b, LOWER) + ""
  {
  }

  lemma NumeralLengthOfZero(b: nat, digits: string)
    requires 2 <= b <= |digits| && IsAlphabet(digits)
    ensures Numeral(0, b, digits) == "0"
  {
  }

  /** A numeral of any base from 2 to 36, with small letters or capitals, is read
      back to its end. */
  lemma AlphabetReadBack(v: int, b: nat, alphabet: string)
    requires 2 <= b <= |alphabet| && IsAlphabet(alphabet)
    ensures var t := Sign(v < 0) + Numeral(Abs(v), b, alphabet);
      Parse(t, b) == Parsed(Abs(v), v < 0, |t|)
  {
    hide Value, IsAlphabet;
    var digits := Numeral(Abs(v), b, alphabet);
    assert |alphabet| <= 36 by { AlphabetSize(alphabet); }
    NumeralDenotes(Abs(v), b, alphabet);
    NumeralLengthOfZero(b, alphabet);
    ParseSubject("", v < 0, "", digits, "", b, b);
    assert Sign(v < 0) + digits == "" + Sign(v < 0) + "" + digits + "" == "" + Sign(v < 0) + "" + digits;
  }

  lemma AlphabetSize(alphabet: string)
    requires IsAlphabet(alphabet)
    ensures |alphabet| <= 36
  {
  }

  /** What itoa and ultoa write is read back to its end, with nothing lost. */
  lemma NumeralReadBack(v: int, b: nat)
    requires 2 <= b <= 16
    ensures Parse(SignedNumeral(v, b), b) == Parsed(Abs(v), v < 0, |SignedNumeral(v, b)|)
  {
    hide Value, SignedNumeral;
    var digits := Numeral(Abs(v), b, LOWER);
    Alphabets();
    SignedNumeralText(v, b);
    AlphabetReadBack(v, b, LOWER);
    assert SignedNumeral(v, b) == Sign(v < 0) + digits;
  }

  /** Every number a long holds comes back through strtol. */
  lemma SignedReadBack(v: long, b: nat)
    requires 2 <= b <= 16
    ensures Clamp(Signed(Parse(SignedNumeral(v, b), b))) == v
  {
    NumeralReadBack(v, b);
  }

  lemma {:induction false} TextIs(s: seq<char>, t: string)
    requires |t| < |s| && s[..|t|] == t && s[|t|] == '\0' && '\0' !in t
    ensures '\0' in s && Text(s) == t
  {
  }

  lemma NoTerminatorInside(v: int, b: nat)
    requires 2 <= b <= 16
    ensures '\0' !in SignedNumeral(v, b)
  {
    Alphabets();
    NumeralDenotes(Abs(v), b, LOWER);
    assert DigitVal('\0') == 37;
  }

  /** itoa, then strtol on the same buffer. */
  method ItoaThenStrtol(value: long, buffer: array<char>, radix: nat) returns (ok: bool, r: int, end: nat)
    requires 2 <= radix <= 16
    requires |SignedNumeral(value, radix)| < buffer.Length
    modifies buffer
    ensures ok <==> value != LONG_MIN
    ensures ok ==> r == value && end < buffer.Length && buffer[end] == '\0'
    ensures ok ==> '\0' !in buffer[..end]
  {
    hide SignedNumeral, Parse;
    r, end := 0, 0;
    ok := Itoa(value, buffer, radix);
    if !ok {
      return;
    }
    NoTerminatorInside(value, radix);
    TextIs(buffer[..], SignedNumeral(value, radix));
    NumeralReadBack(value, radix);
    r, end := Strtol(buffer[..], radix);
  }

  /** ultoa, then strtoul on the same buffer. */
  method UltoaThenStrtoul(value: nat, buffer: array<char>, radix: nat) returns (r: int, end: nat)
    requires 2 <= radix <= 16 && value <= ULONG_MAX
    requires |Numeral(value, radix, LOWER)| < buffer.Length
    modifies buffer
    ensures r == value && end < buffer.Length && buffer[end] == '\0'
    ensures '\0' !in buffer[..end]
  {
    hide Numeral, Parse;
    Ultoa(value, buffer, radix);
    NoTerminatorInside(value, radix);
    TextIs(buffer[..], SignedNumeral(value, radix));
    NumeralReadBack(value, radix);
    r, end := Strtoul(buffer[..], radix);
  }

  /** "-4294967296" is less than any long, and strtoul returns 1 for it. */
  lemma StrtoulFails()
    ensures var n := Parse(SignedNumeral(-TWO_32, 10), 10);
      && n == Parsed(TWO_32, true, |SignedNumeral(-TWO_32, 10)|)
      && n.negative && n.value > ULONG_MAX && StandardUnsigned(n) == ULONG_MAX
  {
    NumeralReadBack(-TWO_32, 10);
  }

  method StrtoulOfTooSmall() returns (r: int)
    ensures r == 1
  {
    var s := SignedNumeral(-TWO_32, 10) + ['\0'];
    NoTerminatorInside(-TWO_32, 10);
    TextIs(s, SignedNumeral(-TWO_32, 10));
    StrtoulFails();
    var end;
    r, end := Strtoul(s, 10);
  }
}
