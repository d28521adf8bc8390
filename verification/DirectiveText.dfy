/** A directive of a printf format is read back as the parts that it is written
    from. */
module DirectiveText {

  import opened CInt
  import opened Numerals
  import opened PrintfSpec
  import opened NumberText
  import opened Doprnt

  const FLAGS := {'-', '+', ' ', '0', '#'}

  /** A width: none, an asterisk, or digits that do not look like a flag. */
  predicate IsWidth(w: string) {
    w == "*" || (AllDigits(w, 10) && (w == "" || w[0] != '0'))
  }

  predicate IsPrecision(p: string) {
    p == "" || (p[0] == '.' && (p[1..] == "*" || AllDigits(p[1..], 10)))
  }

  predicate IsConversion(c: char) {
    c !in FLAGS && c !in {'*', '.', 'l', '\0'} && DigitVal(c) >= 10
  }

  /** The number that a field stands for. */
  function Denotes(w: string, args: seq<Arg>, k: nat): int {
    if w == "*" then ArgAt(args, k) else Value(w, 10)
  }

  function Stars(w: string): nat {
    if w == "*" then 1 else 0
  }

  /** The text from `i` on. */
  predicate From(t: string, i: nat, u: string) {
    i <= |t| && t[i..] == u
  }

  lemma {:induction false} FlagsPart(t: string, i: nat, flags: string, u: string)
    requires From(t, i, flags + u) && u != "" && u[0] !in FLAGS
    requires forall m :: 0 <= m < |flags| ==> flags[m] in FLAGS
    ensures var f := i + |flags|;
      FlagsEnd(t, i) == f && From(t, f, u) && t[i..f] == flags
    decreases |flags|
  {
    assert |t| == i + |flags + u|;
    assert t[i] == t[i..][0];
    if flags == "" {
      assert t[i..i] == "";
    } else {
      assert t[i + 1..] == t[i..][1..] == flags[1..] + u;
      FlagsPart(t, i + 1, flags[1..], u);
      assert t[i..i + |flags|] == t[i..][..|flags|];
    }
  }

  lemma NumberPart(t: string, i: nat, w: string, u: string, args: seq<Arg>, k: nat)
    requires From(t, i, w + u) && (w == "*" || AllDigits(w, 10))
    requires u != "" && DigitVal(u[0]) >= 10 && (w == "" ==> u[0] != '*')
    ensures i <= |t| && NumberAt(t, i, args, k) == Number(Denotes(w, args, k), i + |w|, k + Stars(w))
    ensures From(t, i + |w|, u)
  {
    hide Value, DigitVal;
    assert |t| == i + |w + u|;
    forall m | i <= m < i + |w| ensures t[m] == w[m - i] {
      assert t[m] == t[i..][m - i];
    }
    assert t[i + |w|] == t[i..][|w|] == u[0];
    assert t[i + |w|..] == t[i..][|w|..] == u;
    assert t[i..i + |w|] == w;
    if w != "*" {
      DigitsExact(t, i, i + |w|, 10);
      assert w != "" ==> DigitVal(w[0]) < 10;
      StarIsNoDigit();
    }
  }

  lemma StarIsNoDigit()
    ensures DigitVal('*') == 37
  {
  }

  lemma PrecisionPart(t: string, i: nat, p: string, u: string, args: seq<Arg>, k: nat)
    requires From(t, i, p + u) && IsPrecision(p)
    requires u != "" && DigitVal(u[0]) >= 10 && u[0] !in {'*', '.'}
    ensures var none := p == "" || p == ".";
      i <= |t| && PrecisionAt(t, i, args, k) ==
      Number(if none then -1 else Denotes(p[1..], args, k), i + |p|, k + if none then 0 else Stars(p[1..]))
    ensures From(t, i + |p|, u)
  {
    hide Value, DigitVal, NumberAt;
    assert t[i] == t[i..][0];
    if p != "" {
      assert t[i + 1..] == t[i..][1..] == p[1..] + u;
      NumberPart(t, i + 1, p[1..], u, args, k);
      assert p == "." <==> p[1..] == "";
    }
  }

  lemma LengthPart(t: string, i: nat, length: string, letter: char, rest: string)
    requires From(t, i, length + ([letter] + rest)) && length in {"", "l", "ll"} && letter != 'l'
    ensures i <= |t| && SkipLong(t, i) == i + |length| < |t| && t[i + |length|] == letter
  {
    var u := length + ([letter] + rest);
    assert forall m :: 0 <= m < |u| ==> t[i + m] == t[i..][m] == u[m];
  }

  /** The directive that the parts stand for; its letter is at `at`. */
  function Parts(flags: string, w: string, p: string, letter: char, at: nat, args: seq<Arg>, k: nat): Directive {
    var c := Fold(letter);
    var wide := Denotes(w, args, k);
    var conv := Conv(if c == 'p' then 'x' else c, '-' in flags || wide < 0, '0' in flags, '#' in flags || c == 'p',
                     LastSign(flags), Abs(wide),
                     if p == "" || p == "." then -1 else Denotes(p[1..], args, k + Stars(w)));
    Directive(conv, at, k + Stars(w) + if p == "" || p == "." then 0 else Stars(p[1..]))
  }

  lemma PartsAt(t: string, i: nat, flags: string, w: string, p: string, length: string, letter: char, rest: string,
                args: seq<Arg>, k: nat)
    requires From(t, i, flags + (w + (p + (length + ([letter] + rest)))))
    requires forall m :: 0 <= m < |flags| ==> flags[m] in FLAGS
    requires IsWidth(w) && IsPrecision(p) && length in {"", "l", "ll"} && IsConversion(letter)
    ensures i <= |t| && DirectiveAt(t, i, args, k) ==
            Parts(flags, w, p, letter, i + |flags| + |w| + |p| + |length|, args, k)
  {
    hide Value, DigitVal, FlagsEnd, NumberAt, PrecisionAt, SkipLong, Denotes, AllDigits, Stars;
    hide DirectiveAt, Parts, From;
    hide IsWidth, IsPrecision, IsConversion;
    var u3 := length + ([letter] + rest);
    var u2 := p + u3;
    Firsts(w, p, length, letter, rest);
    FlagsPart(t, i, flags, w + u2);
    NumberPart(t, i + |flags|, w, u2, args, k);
    PrecisionPart(t, i + |flags| + |w|, p, u3, args, k + Stars(w));
    LengthPart(t, i + |flags| + |w| + |p|, length, letter, rest);
    Assemble(t, i, i + |flags|, i + |flags| + |w|, i + |flags| + |w| + |p|, i + |flags| + |w| + |p| + |length|,
             flags, w, p, letter, args, k);
  }

  /** DirectiveAt, once the parts are known. */
  lemma Assemble(t: string, i: nat, f: nat, g: nat, h: nat, e: nat, flags: string, w: string, p: string, letter: char,
                 args: seq<Arg>, k: nat)
    requires i <= f <= g <= h <= e < |t| && FlagsEnd(t, i) == f && t[i..f] == flags && t[e] == letter
    requires NumberAt(t, f, args, k) == Number(Denotes(w, args, k), g, k + Stars(w))
    requires var none := p == "" || p == ".";
      PrecisionAt(t, g, args, k + Stars(w)) ==
      Number(if none then -1 else Denotes(p[1..], args, k + Stars(w)), h,
             k + Stars(w) + if none then 0 else Stars(p[1..]))
    requires SkipLong(t, h) == e
    ensures DirectiveAt(t, i, args, k) == Parts(flags, w, p, letter, e, args, k)
  {
    hide FlagsEnd, NumberAt, PrecisionAt, SkipLong, LastSign, Fold, Denotes, Stars;
  }

  /** Flags, width, precision, length and letter, one behind the other, are read
      back as what they say. */
  lemma DirectiveParts(pre: string, flags: string, w: string, p: string, length: string, letter: char, rest: string,
                       args: seq<Arg>, k: nat)
    requires forall m :: 0 <= m < |flags| ==> flags[m] in FLAGS
    requires IsWidth(w) && IsPrecision(p) && length in {"", "l", "ll"} && IsConversion(letter)
    ensures var t := pre + "%" + flags + w + p + length + [letter] + rest;
      DirectiveAt(t, |pre| + 1, args, k) ==
      Parts(flags, w, p, letter, |pre + "%" + flags + w + p + length|, args, k)
  {
    hide DirectiveAt, Parts, IsWidth, IsPrecision, IsConversion;
    var t := pre + "%" + flags + w + p + length + [letter] + rest;
    var u := flags + (w + (p + (length + ([letter] + rest))));
    assert t == pre + "%" + u;
    assert t[|pre| + 1..] == u;
    PartsAt(t, |pre| + 1, flags, w, p, length, letter, rest, args, k);
  }

  /** How the parts begin. */
  lemma Firsts(w: string, p: string, length: string, letter: char, rest: string)
    requires IsWidth(w) && IsPrecision(p) && length in {"", "l", "ll"} && IsConversion(letter)
    ensures var u3 := length + ([letter] + rest);
      var u2 := p + u3;
      var u1 := w + u2;
      && DigitVal(u3[0]) >= 10 && u3[0] !in {'*', '.'}
      && DigitVal(u2[0]) >= 10 && u2[0] != '*'
      && u1[0] !in FLAGS && letter != 'l' && (w == "*" || AllDigits(w, 10))
  {
    assert w != "" && w != "*" ==> DigitVal(w[0]) < 10;
  }

  // ---- outputs that no int counts ----

  const WIDEST := Conv('d', false, false, false, '\0', LONG_MAX, -1)

  lemma WidestOutput()
    ensures |Body(Effective(WIDEST), 1)| == 1 && |Standard(Effective(WIDEST), 1)| == LONG_MAX
  {
  }

  /** The widest field of all, with 1 in it. */
  lemma WidestField(pre: string, rest: string, args: seq<Arg>, k: nat)
    requires k + 1 < |args| && args[k] == Word(LONG_MAX) && args[k + 1] == Word(1)
    ensures var t := pre + "%*d" + rest;
      var i := |pre|;
      && |t| == i + 3 + |rest|
      && (Accepted(t, i, args, k) <==> Accepted(t, i + 3, args, k + 2))
      && |Format(t, i, args, k)| == LONG_MAX + |Format(t, i + 3, args, k + 2)|
  {
    hide DirectiveAt, Value, Standard, Body, Effective;
    WidestOutput();
    DirectiveParts(pre, "", "*", "", "", 'd', rest, args, k);
    var t := pre + "%*d" + rest;
    assert t == pre + "%" + "" + "*" + "" + "" + ['d'] + rest;
    assert t[|pre|] == '%';
    assert DirectiveAt(t, |pre| + 1, args, k) == Directive(WIDEST, |pre| + 2, k + 1);
  }

  /** "x%*d" of 2147483647 and 1 writes 2^31 characters; the count is negative. */
  lemma CountTurnsNegative()
    ensures var args := [Word(LONG_MAX), Word(1)];
      && Accepted("x%*d", 0, args, 0) && |Format("x%*d", 0, args, 0)| == 0x8000_0000
      && Wrap32(|Format("x%*d", 0, args, 0)|) == LONG_MIN
  {
    hide DirectiveAt;
    WidestField("x", "", [Word(LONG_MAX), Word(1)], 0);
    assert "x%*d" == "x" + "%*d" + "";
  }

  /** Two such fields pass the end of the address space from any place above
      the second byte, and the count is -2. */
  lemma CursorPassesEnd()
    ensures var args := [Word(LONG_MAX), Word(1), Word(LONG_MAX), Word(1)];
      && Accepted("%*d%*d", 0, args, 0) && |Format("%*d%*d", 0, args, 0)| == TWO_32 - 2
      && Wrap32(|Format("%*d%*d", 0, args, 0)|) == -2
  {
    hide DirectiveAt, Format, Accepted;
    FormatEnd("%*d%*d", [Word(LONG_MAX), Word(1), Word(LONG_MAX), Word(1)]);
    WidestField("", "%*d", [Word(LONG_MAX), Word(1), Word(LONG_MAX), Word(1)], 0);
    WidestField("%*d", "", [Word(LONG_MAX), Word(1), Word(LONG_MAX), Word(1)], 2);
    assert "%*d%*d" == "" + "%*d" + "%*d" == "%*d" + "%*d" + "";
  }
}
