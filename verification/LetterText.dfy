/** What every conversion letter of a printf format stands for, with flags, width
    and precision written out before it. */
module LetterText {

  import opened CInt
  import opened Numerals
  import opened PrintfSpec
  import opened Printf
  import opened TextConversion
  import opened Doprnt
  import opened DirectiveText

  /** A directive between two texts. */
  function Around(pre: string, flags: string, w: string, p: string, length: string, letter: char, rest: string): string
  {
    pre + "%" + flags + w + p + length + [letter] + rest
  }

  predicate WellWritten(flags: string, w: string, p: string, length: string) {
    && (forall m :: 0 <= m < |flags| ==> flags[m] in FLAGS)
    && IsWidth(w) && IsPrecision(p) && length in {"", "l", "ll"}
  }

  /** Capitals that mean the small letter. */
  predicate Means(letter: char, plain: char) {
    || letter == plain
    || (letter in {'D', 'I', 'U', 'O', 'C', 'S'} && letter as int + 32 == plain as int)
  }

  /** Where the argument is that is converted, behind those of width and precision. */
  function ArgIndex(w: string, p: string, k: nat): nat {
    k + (if w == "*" then 1 else 0) + (if p == ".*" then 1 else 0)
  }

  /** The specification that is written, by the standard. A point alone is
      precision zero, and a negative width is a minus flag. */
  function Written(flags: string, w: string, p: string, plain: char, args: seq<Arg>, k: nat): Conv {
    var wide := Denotes(w, args, k);
    Conv(plain, '-' in flags || wide < 0, '0' in flags, '#' in flags, StandardSign(flags), Abs(wide),
         if p == "" then -1 else if p == "." then 0 else Denotes(p[1..], args, ArgIndex(w, "", k)))
  }

  /** One step of a format, with the specification as doprnt reads it. */
  lemma DirectiveStep(pre: string, flags: string, w: string, p: string, length: string, letter: char, rest: string,
                      args: seq<Arg>, k: nat)
    requires WellWritten(flags, w, p, length) && IsConversion(letter)
    ensures var t := Around(pre, flags, w, p, length, letter, rest);
      var conv := Parts(flags, w, p, letter, 0, args, k).conv;
      && |t| - |rest| >= 0
      && Parts(flags, w, p, letter, 0, args, k).arg == ArgIndex(w, p, k)
      && Format(t, |pre|, args, k) == Output(conv, args, ArgIndex(w, p, k)) +
         Format(t, |t| - |rest|, args, ArgIndex(w, p, k) + Taken(conv))
  {
    hide DirectiveAt, Output, Taken, Denotes, IsWidth, IsPrecision, IsConversion;
    var t := Around(pre, flags, w, p, length, letter, rest);
    DirectiveParts(pre, flags, w, p, length, letter, rest, args, k);
    assert t[|pre|] == '%';
    assert |pre + "%" + flags + w + p + length| + 1 == |t| - |rest|;
    PrecisionStars(p);
  }

  lemma PrecisionStars(p: string)
    ensures p != "" && p != "." && IsPrecision(p) ==> (p[1..] == "*" <==> p == ".*")
  {
    if p != "" && p != "." && IsPrecision(p) { assert p == "." + p[1..]; }
  }

  lemma NegativePrecision(c: Conv, v: long)
    requires c.precision < 0
    ensures Standard(Effective(c), v) == Standard(c, v)
  {
    hide Plain, Lead, Zeros;
    EffectiveParts(c, v);
    NegativeZeros(c.precision - |Plain(c, v)|, -1 - |Plain(c, v)|);
    assert Digits(Effective(c), v) == Digits(c, v);
  }

  /** The conditions under which plus and space together, and precision zero, come
      out right. */
  predicate Regular(c: Conv, flags: string, v: long) {
    && (IsSigned(c) && v >= 0 && '+' in flags ==> LastSign(flags) == '+')
    && (c.precision == 0 ==>
          && (Magnitude(c, v) != 0 || (c.letter == 'o' && c.hash))
          && !(c.zero && !c.left && c.width > |Lead(c, v)| + |Digits(c, v)|))
  }

  lemma RegularStandard(c: Conv, flags: string, v: long)
    requires IsInteger(c) && c.sign == StandardSign(flags) && Regular(c, flags, v)
    ensures Standard(Effective(c.(sign := LastSign(flags))), v) == Standard(c, v)
  {
    hide Standard, Magnitude, Digits;
    var e := c.(sign := LastSign(flags));
    SignFlags(Effective(c), flags, v);
    assert Effective(c).(sign := LastSign(flags)) == Effective(e);
    assert Effective(c).(sign := StandardSign(flags)) == Effective(c);
    if c.precision == 0 {
      PrecisionZero(c, v);
    } else if c.precision < 0 {
      NegativePrecision(c, v);
    }
  }

  /** d, i, u, o, x and X: what the standard asks for this letter, and the next
      argument is the next. */
  lemma IntegerDirective(pre: string, flags: string, w: string, p: string, length: string, letter: char, plain: char,
                         rest: string, args: seq<Arg>, k: nat)
    requires WellWritten(flags, w, p, length)
    requires plain in {'d', 'i', 'u', 'o', 'x', 'X'} && Means(letter, plain)
    requires ArgIndex(w, p, k) < |args| && args[ArgIndex(w, p, k)].Word?
    ensures var t := Around(pre, flags, w, p, length, letter, rest);
      var n := ArgIndex(w, p, k);
      var c, v := Written(flags, w, p, plain, args, k), args[n].v;
      && |t| - |rest| >= 0
      && (Regular(c, flags, v) ==>
            Format(t, |pre|, args, k) == Standard(c, v) + Format(t, |t| - |rest|, args, n + 1))
  {
    hide Format, Standard, Denotes, IsWidth, IsPrecision, Regular, Body, Lead;
    DirectiveStep(pre, flags, w, p, length, letter, rest, args, k);
    var c, v := Written(flags, w, p, plain, args, k), args[ArgIndex(w, p, k)].v;
    assert Effective(Parts(flags, w, p, letter, 0, args, k).conv) == Effective(c.(sign := LastSign(flags)));
    if Regular(c, flags, v) { RegularStandard(c, flags, v); }
  }

  /** p is x with the # flag. */
  lemma PointerDirective(pre: string, flags: string, w: string, p: string, length: string, letter: char, rest: string,
                         args: seq<Arg>, k: nat)
    requires WellWritten(flags, w, p, length) && letter in {'p', 'P'}
    requires ArgIndex(w, p, k) < |args| && args[ArgIndex(w, p, k)].Word?
    ensures var t := Around(pre, flags, w, p, length, letter, rest);
      var n := ArgIndex(w, p, k);
      var c, v := Written(flags, w, p, 'x', args, k).(hash := true), args[n].v;
      && |t| - |rest| >= 0
      && (Regular(c, flags, v) ==>
            Format(t, |pre|, args, k) == Standard(c, v) + Format(t, |t| - |rest|, args, n + 1))
  {
    hide Format, Standard, Denotes, IsWidth, IsPrecision, Regular, Body, Lead;
    DirectiveStep(pre, flags, w, p, length, letter, rest, args, k);
    var c, v := Written(flags, w, p, 'x', args, k).(hash := true), args[ArgIndex(w, p, k)].v;
    assert Effective(Parts(flags, w, p, letter, 0, args, k).conv) == Effective(c.(sign := LastSign(flags)));
    if Regular(c, flags, v) { RegularStandard(c, flags, v); }
  }

  /** c: the character in its field. */
  lemma CharDirective(pre: string, flags: string, w: string, p: string, length: string, letter: char, rest: string,
                      args: seq<Arg>, k: nat)
    requires WellWritten(flags, w, p, length) && Means(letter, 'c') && '0' !in flags
    requires ArgIndex(w, p, k) < |args| && args[ArgIndex(w, p, k)].Word?
    ensures var t := Around(pre, flags, w, p, length, letter, rest);
      var n := ArgIndex(w, p, k);
      var c, v := Written(flags, w, p, 'c', args, k), args[n].v;
      && |t| - |rest| >= 0
      && (v != 0 || c.width == 0 ==>
            Format(t, |pre|, args, k) == StandardChar(c, v) + Format(t, |t| - |rest|, args, n + 1))
  {
    hide Format, CharOut, StandardChar, Denotes, IsWidth, IsPrecision;
    DirectiveStep(pre, flags, w, p, length, letter, rest, args, k);
    var conv, v := Parts(flags, w, p, letter, 0, args, k).conv, args[ArgIndex(w, p, k)].v;
    CharMeetsStandard(conv, v);
    SameField(conv, Written(flags, w, p, 'c', args, k), v);
  }

  lemma SameField(c: Conv, d: Conv, v: long)
    requires c.width == d.width && c.left == d.left
    ensures StandardChar(c, v) == StandardChar(d, v)
    ensures c.precision == d.precision ==> forall s :: StandardText(c, s) == StandardText(d, s)
  {
  }

  /** s: the string, or what stands for a null pointer. */
  lemma TextDirective(pre: string, flags: string, w: string, p: string, length: string, letter: char, rest: string,
                      args: seq<Arg>, k: nat)
    requires WellWritten(flags, w, p, length) && Means(letter, 's') && '0' !in flags && p != "."
    requires ArgIndex(w, p, k) < |args| && !args[ArgIndex(w, p, k)].Word?
    ensures var t := Around(pre, flags, w, p, length, letter, rest);
      var n := ArgIndex(w, p, k);
      var c, s := Written(flags, w, p, 's', args, k), if args[n].Text? then args[n].s else "(nil)";
      && |t| - |rest| >= 0
      && (c.precision == -1 || |s| <= c.precision || 0 <= c.width <= c.precision ==>
            Format(t, |pre|, args, k) == StandardText(c, s) + Format(t, |t| - |rest|, args, n + 1))
  {
    hide Format, TextOut, StandardText, Denotes, IsWidth, IsPrecision;
    DirectiveStep(pre, flags, w, p, length, letter, rest, args, k);
    var n := ArgIndex(w, p, k);
    var conv, s := Parts(flags, w, p, letter, 0, args, k).conv, if args[n].Text? then args[n].s else "(nil)";
    TextMeetsStandard(conv, s);
    SameField(conv, Written(flags, w, p, 's', args, k), 0);
  }

  /** A percent sign stands for itself, and takes no argument. */
  lemma PercentDirective(pre: string, flags: string, w: string, p: string, length: string, rest: string, args: seq<Arg>,
                         k: nat)
    requires WellWritten(flags, w, p, length)
    ensures var t := Around(pre, flags, w, p, length, '%', rest);
      && |t| - |rest| >= 0
      && Format(t, |pre|, args, k) == "%" + Format(t, |t| - |rest|, args, ArgIndex(w, p, k))
  {
    hide Format, Denotes, IsWidth, IsPrecision;
    DirectiveStep(pre, flags, w, p, length, '%', rest, args, k);
  }

  /** Any letter but these and those of floating point writes nothing, and takes no argument. */
  lemma OtherDirective(pre: string, flags: string, w: string, p: string, length: string, letter: char, rest: string,
                       args: seq<Arg>, k: nat)
    requires WellWritten(flags, w, p, length) && IsConversion(letter)
    requires letter !in {'d', 'i', 'u', 'o', 'x', 'c', 's', 'p', 'D', 'I', 'U', 'O', 'X', 'C', 'S', 'P', '%'}
    requires letter !in {'e', 'f', 'g', 'E', 'F', 'G'}
    ensures var t := Around(pre, flags, w, p, length, letter, rest);
      && |t| - |rest| >= 0
      && Format(t, |pre|, args, k) == Format(t, |t| - |rest|, args, ArgIndex(w, p, k))
  {
    hide Format, Denotes, IsWidth, IsPrecision;
    DirectiveStep(pre, flags, w, p, length, letter, rest, args, k);
  }

  /** Any other character stands for itself. */
  lemma PlainCharacter(pre: string, c: char, rest: string, args: seq<Arg>, k: nat)
    requires c != '%'
    ensures var t := pre + [c] + rest;
      Format(t, |pre|, args, k) == [c] + Format(t, |pre| + 1, args, k)
  {
  }
}
