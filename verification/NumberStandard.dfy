/** Section 7.22.1.4 of ISO/IEC 9899:2011 in full, and exactly when the parsers
    of the library meet it. */
module NumberStandard {

  import opened CInt
  import opened CType
  import opened Numerals
  import opened TextToInteger
  import opened NumberText

  // ---- the standard ----

  function SkipSpaces(t: string, i: nat): (r: nat)
    requires i <= |t|
    ensures i <= r <= |t|
    ensures r < |t| ==> !IsSpace(t[r])
    ensures forall m :: i <= m < r ==> IsSpace(t[m])
    decreases |t| - i
  {
    if i < |t| && IsSpace(t[i]) then SkipSpaces(t, i + 1) else i
  }

  /** 0x counts as a prefix only if a hexadecimal digit comes next. */
  predicate HasHexPrefix(t: string, j: nat, base: long) {
    base in {0, 16} && j + 2 < |t| && t[j] == '0' && IsX(t, j + 1) && DigitVal(t[j + 2]) < 16
  }

  /** What the standard finds behind the sign: the longest numeral; without any
      digit there is no conversion, and the end is the start. */
  function StandardSubject(t: string, j: nat, negative: bool, base: long): (n: Parsed)
    requires j <= |t| && (base == 0 || 2 <= base <= 36)
    ensures n.end <= |t|
  {
    if HasHexPrefix(t, j, base) then
      var e := DigitsEnd(t, j + 2, 16);
      Parsed(Value(t[j + 2..e], 16), negative, e)
    else
      var b := if base != 0 then base else if j < |t| && t[j] == '0' then 8 else 10;
      var e := DigitsEnd(t, j, b);
      if e == j then Parsed(0, negative, 0) else Parsed(Value(t[j..e], b), negative, e)
  }

  /** White space, an optional sign, the subject. */
  function StandardParse(t: string, base: long): (n: Parsed)
    requires base == 0 || 2 <= base <= 36
    ensures n.end <= |t|
  {
    var i := SkipSpaces(t, 0);
    var signed := i < |t| && t[i] in {'+', '-'};
    StandardSubject(t, if signed then i + 1 else i, i < |t| && t[i] == '-', base)
  }

  lemma {:induction false} SpacesExact(t: string, i: nat, k: nat)
    requires i <= k <= |t| && (forall m :: i <= m < k ==> IsSpace(t[m])) && (k < |t| ==> !IsSpace(t[k]))
    ensures SkipSpaces(t, i) == k
    decreases k - i
  {
    if i >= k {
    } else {
      SpacesExact(t, i + 1, k);
    }
  }

  lemma SubjectStart(spaces: string, sign: string, w: string, base: long)
    requires AllSpaces(spaces) && sign in {"", "+", "-"} && (base == 0 || 2 <= base <= 36)
    requires sign == "" && w != "" ==> !IsSpace(w[0]) && w[0] !in {'+', '-'}
    ensures var t := spaces + sign + w;
      StandardParse(t, base) == StandardSubject(t, |spaces + sign|, sign == "-", base)
  {
    hide StandardSubject;
    var t := spaces + sign + w;
    forall m | 0 <= m < |spaces| ensures IsSpace(t[m]) {
      SpacesAre(spaces[m]);
    }
    assert |spaces| < |t| ==> t[|spaces|] == (sign + w)[0];
    SpacesExact(t, 0, |spaces|);
  }

  /** By the standard, these characters stand for a numeral of base `b`. */
  predicate Denotes(prefix: string, digits: string, rest: string, base: long, b: long) {
    || (prefix in {"0x", "0X"} && base in {0, 16} && b == 16)
    || (prefix == "" && digits != "" && b == (if base != 0 then base else if digits[0] == '0' then 8 else 10)
        && !(digits == "0" && base in {0, 16} && |rest| >= 2 && rest[0] in {'x', 'X'} && DigitVal(rest[1]) < 16))
  }

  /** What the standard reads: any white space, a sign or none, a prefix or none,
      digits, and something else. */
  lemma StandardReads(spaces: string, sign: string, prefix: string, digits: string, rest: string, base: long, b: long)
    requires AllSpaces(spaces) && sign in {"", "+", "-"} && (base == 0 || 2 <= base <= 36)
    requires 2 <= b <= 36 && digits != "" && AllDigits(digits, b) && Stops(rest, b)
    requires Denotes(prefix, digits, rest, base, b)
    ensures StandardParse(spaces + sign + prefix + digits + rest, base) ==
            Parsed(Value(digits, b), sign == "-", |spaces + sign + prefix + digits|)
  {
    hide Value, StandardParse, StandardSubject, DigitsEnd;
    var t, w := spaces + sign + prefix + digits + rest, prefix + digits + rest;
    var j := |spaces + sign|;
    assert t == spaces + sign + w;
    assert DigitVal(w[0]) < 36;
    SubjectStart(spaces, sign, w, base);
    Pieces(spaces + sign, prefix, digits, rest);
    EndsAt(t, j + |prefix|, j + |prefix|, digits, rest, b);
    SubjectReads(t, j, sign == "-", prefix, digits, rest, base, b);
  }

  lemma SubjectReads(t: string, j: nat, negative: bool, prefix: string, digits: string, rest: string, base: long,
                     b: long)
    requires StandsAt(t, j, prefix + digits + rest) && |t| == j + |prefix + digits + rest|
    requires 2 <= b <= 36 && digits != "" && AllDigits(digits, b) && (base == 0 || 2 <= base <= 36)
    requires Denotes(prefix, digits, rest, base, b)
    requires var q := j + |prefix|;
      DigitsEnd(t, q, b) == q + |digits| && Value(t[q..q + |digits|], b) == Value(digits, b)
    ensures StandardSubject(t, j, negative, base) == Parsed(Value(digits, b), negative, j + |prefix + digits|)
  {
    hide Value, DigitsEnd;
    var w := prefix + digits + rest;
    forall m | 0 <= m < |w| ensures t[j + m] == w[m] {
      assert t[j + m] == t[j..j + |w|][m];
    }
    if prefix == "" {
      assert w == digits + rest;
      assert t[j] == digits[0] && (|w| > 1 ==> t[j + 1] == w[1]) && (|w| > 2 ==> t[j + 2] == w[2]);
    } else {
      assert w[0] == '0' && w[1] in {'x', 'X'} && w[2] == digits[0];
      assert t[j + 1] == w[1] && t[j + 2] == w[2];
    }
  }

  /** Without a digit there is nothing, and the end is the start. */
  lemma StandardReadsNothing(spaces: string, sign: string, rest: string, base: long)
    requires AllSpaces(spaces) && sign in {"", "+", "-"} && (base == 0 || 2 <= base <= 36)
    requires sign == "" && rest != "" ==> rest[0] as int !in {32, 9, 10, 11, 12, 13} && rest[0] !in {'+', '-'}
    requires rest != "" ==> DigitVal(rest[0]) >= if base == 0 then 10 else base
    ensures StandardParse(spaces + sign + rest, base) == Parsed(0, sign == "-", 0)
  {
    var t, j := spaces + sign + rest, |spaces + sign|;
    if rest != "" {
      SpacesAre(rest[0]);
      assert t[j] == rest[0];
    }
    SubjectStart(spaces, sign, rest, base);
  }

  /** The same number and the same end. */
  predicate Agree(n: Parsed, m: Parsed) {
    Signed(n) == Signed(m) && n.end == m.end
  }

  // ---- the condition ----

  /** The least base that the first digit tells. */
  function FirstBase(base: long): long {
    if base == 0 then 10 else base
  }

  predicate DigitAt(t: string, j: nat, base: long) {
    j < |t| && DigitVal(t[j]) < FirstBase(base)
  }

  predicate SubjectConforms(t: string, j: nat, base: long)
    requires j <= |t|
  {
    || j == |t|
    || (if t[j] == '0' && IsB(t, j + 1) then false
        else if t[j] == '0' && IsX(t, j + 1) then HasHexPrefix(t, j, base)
        else j == 0 || DigitAt(t, j, base))
  }

  /** What a caller can check behind `i` blanks, spaces and tabs: the sign is no
      plus, there is a digit, 0b does not come first, and 0x does so only with base 0 or
      16 and with a hexadecimal digit behind it. Text without a digit is all right
      if nothing is skipped in front of it, or if it ends there. */
  predicate Conforming(t: string, i: nat, base: long)
    requires i <= |t|
  {
    if i < |t| && (IsSpace(t[i]) || t[i] == '+') then
      var k := SkipSpaces(t, i);
      var j := if k < |t| && t[k] in {'+', '-'} then k + 1 else k;
      i == 0 && !DigitAt(t, j, base)
    else
      SubjectConforms(t, if i < |t| && t[i] == '-' then i + 1 else i, base)
  }

  // ---- the two parsers side by side ----

  lemma {:induction false} BlanksAreSpaces(t: string, i: nat)
    requires i <= |t|
    ensures SkipSpaces(t, SkipBlanks(t, i)) == SkipSpaces(t, i)
    decreases |t| - i
  {
    if i < |t| && t[i] in {' ', '\t'} {
      BlanksAreSpaces(t, i + 1);
    } else {
      assert SkipBlanks(t, i) == i;
    }
  }

  lemma {:induction false} NotBlankThere(t: string, i: nat)
    requires i <= |t|
    ensures SkipBlanks(t, i) < |t| ==> t[SkipBlanks(t, i)] !in {' ', '\t'}
    decreases |t| - i
  {
    if i < |t| && t[i] in {' ', '\t'} {
      NotBlankThere(t, i + 1);
    } else {
      assert SkipBlanks(t, i) == i;
    }
  }

  lemma ZeroFirst(t: string, j: nat, b: long)
    requires j < |t| && t[j] == '0' && 2 <= b <= 36
    ensures DigitsEnd(t, j, b) == DigitsEnd(t, j + 1, b) > j
    ensures var e := DigitsEnd(t, j, b); Value(t[j..e], b) == Value(t[j + 1..e], b)
  {
    var e := DigitsEnd(t, j, b);
    assert t[j..e] == Zeros(1) + t[j + 1..e];
    LeadingZeros(1, t[j + 1..e], b);
  }

  /** Behind the sign the parsers differ at 0b, at 0x, and if there is no digit. */
  lemma FromSign(t: string, j: nat, negative: bool, base: long)
    requires j <= |t| && (base == 0 || 2 <= base <= 36)
    ensures var n, m := Subject(t, j, negative, base), StandardSubject(t, j, negative, base);
      if SubjectConforms(t, j, base) then n == m else n.end != m.end
  {
    hide Value;
    assert t[j..j] == "";
    ValueOfNothing(FirstBase(base));
    if j < |t| && t[j] == '0' {
      ZeroFirst(t, j, if base == 0 then 8 else base);
      AfterZero(t, j, base);
    }
  }

  lemma AfterZero(t: string, j: nat, base: long)
    requires j < |t| && t[j] == '0' && (base == 0 || 2 <= base <= 36)
    ensures var b := if base == 0 then 8 else base;
      && (IsB(t, j + 1) && b <= 11 ==> DigitsEnd(t, j + 1, b) == j + 1)
      && (IsX(t, j + 1) && b <= 33 ==> DigitsEnd(t, j + 1, b) == j + 1)
  {
  }

  /** Other white space, or a plus, where the code looks for the number. */
  lemma NothingThere(t: string, base: long)
    requires base == 0 || 2 <= base <= 36
    requires var i := SkipBlanks(t, 0); i < |t| && (IsSpace(t[i]) || t[i] == '+')
    ensures var i := SkipBlanks(t, 0);
      Parse(t, base) == Parsed(0, false, i)
  {
    var i := SkipBlanks(t, 0);
    NotBlankThere(t, 0);
    assert DigitVal(t[i]) == 37;
    assert t[i..i] == "";
    ValueOfNothing(FirstBase(base));
  }

  /** What the standard finds behind any white space and sign. */
  lemma StandardFinds(t: string, base: long)
    requires base == 0 || 2 <= base <= 36
    ensures var i := SkipSpaces(t, 0);
      var j := if i < |t| && t[i] in {'+', '-'} then i + 1 else i;
      && StandardParse(t, base) == StandardSubject(t, j, i < |t| && t[i] == '-', base)
      && (if DigitAt(t, j, base) then StandardParse(t, base).end > j
          else StandardParse(t, base) == Parsed(0, i < |t| && t[i] == '-', 0))
  {
    hide Value;
  }

  /** The parser and the standard agree exactly on conforming text; where they do
      not, the ends differ. */
  lemma ParseMeetsStandard(blanks: string, rest: string, base: long)
    requires base == 0 || 2 <= base <= 36
    requires (forall m :: 0 <= m < |blanks| ==> blanks[m] in {' ', '\t'}) && (rest != "" ==> rest[0] !in {' ', '\t'})
    ensures var t := blanks + rest;
      && (Agree(Parse(t, base), StandardParse(t, base)) <==> Conforming(t, |blanks|, base))
      && (Parse(t, base).end == StandardParse(t, base).end <==> Conforming(t, |blanks|, base))
  {
    hide Value, Subject, StandardParse, StandardSubject;
    var t, i := blanks + rest, |blanks|;
    SkipExact(t, 0, i);
    BlanksAreSpaces(t, 0);
    StandardFinds(t, base);
    if i < |t| && (IsSpace(t[i]) || t[i] == '+') {
      NothingThere(t, base);
    } else {
      assert SkipSpaces(t, 0) == i;
      var j := if i < |t| && t[i] == '-' then i + 1 else i;
      FromSign(t, j, i < |t| && t[i] == '-', base);
    }
  }

  /** One text for every way to fail: a plus, a line feed, no digit behind a
      blank, */
  lemma FailingSigns()
    ensures Parse("+1", 10) == Parsed(0, false, 0) && StandardParse("+1", 10) == Parsed(1, false, 2)
    ensures Parse("\n5", 10) == Parsed(0, false, 0) && StandardParse("\n5", 10) == Parsed(5, false, 2)
    ensures Parse(" x", 10) == Parsed(0, false, 1) && StandardParse(" x", 10) == Parsed(0, false, 0)
  {
    assert "+1"[0..0] == "\n5"[0..0] == " x"[1..1] == "";
    assert "+1"[1..2] == "1" && "\n5"[1..2] == "5";
    assert "1"[..0] == "5"[..0] == "";
  }

  /** 0x without a hexadecimal digit, 0x in another base, */
  lemma FailingHexadecimals()
    ensures Parse("0xg", 16) == Parsed(0, false, 2) && StandardParse("0xg", 16) == Parsed(0, false, 1)
    ensures Parse("0x1", 10) == Parsed(0, false, 0) && StandardParse("0x1", 10) == Parsed(0, false, 1)
  {
    assert "0xg"[2..2] == "";
    assert "0xg"[0..1] == "0x1"[0..1] == "0";
    assert "0"[..0] == "";
  }

  /** 0b with an open base, */
  lemma FailingBinary()
    ensures Parse("0b1", 0) == Parsed(1, false, 3) && StandardParse("0b1", 0) == Parsed(0, false, 1)
  {
    assert DigitsEnd("0b1", 0, 8) == 1;
    assert "0b1"[2..3] == "1" && "0b1"[0..1] == "0";
    assert "1"[..0] == "0"[..0] == "";
    assert Value("0", 8) == 0;
  }

  /** and in another one. */
  lemma FailingZeroB()
    ensures Parse("0b1", 16) == Parsed(0, false, 0) && StandardParse("0b1", 16) == Parsed(177, false, 3)
  {
    assert DigitsEnd("0b1", 2, 16) == 3;
    assert DigitsEnd("0b1", 0, 16) == 3;
    assert "0b1"[0..3] == "0b1" && "0b1"[..2] == "0b" && "0b"[..1] == "0" && "0"[..0] == "";
    assert Value("0", 16) == 0;
    assert Value("0b", 16) == 11;
  }
}
