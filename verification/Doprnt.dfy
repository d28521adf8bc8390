/** doprnt: a format with conversions of integers, characters and strings, and
    vsnprintf. */
module Doprnt {

  import opened CInt
  import opened Numerals
  import opened PrintfSpec
  import opened TextToInteger
  import opened Printf
  import opened TextConversion
  import opened MemStream

  // ---- what a format means ----

  /** The terminator stands behind the last character. */
  function At(t: string, i: nat): char {
    if i < |t| then t[i] else '\0'
  }

  /** What va_arg takes from the call: a word of 32 bits, or the address of a
      string, which may be null. */
  datatype Arg = Word(v: long) | Text(s: string) | NullText

  function ArgAt(args: seq<Arg>, k: nat): long {
    if k < |args| && args[k].Word? then args[k].v else 0
  }

  function TextAt(args: seq<Arg>, k: nat): string {
    if k < |args| && args[k].Text? then args[k].s else "(nil)"
  }

  function FlagsEnd(t: string, i: nat): (e: nat)
    requires i <= |t|
    ensures i <= e <= |t|
    decreases |t| - i
  {
    if At(t, i) in {'-', '+', ' ', '0', '#'} then FlagsEnd(t, i + 1) else i
  }

  /** A number in a format: what it is, where it ends, and how many arguments
      have been used. */
  datatype Number = Number(value: int, next: nat, used: nat)

  function NumberAt(t: string, i: nat, args: seq<Arg>, k: nat): (n: Number)
    requires i <= |t|
    ensures i <= n.next <= |t| && k <= n.used
  {
    if At(t, i) == '*' then Number(ArgAt(args, k), i + 1, k + 1)
    else
      var e := DigitsEnd(t, i, 10);
      Number(Value(t[i..e], 10), e, k)
  }

  /** A point with nothing behind it is no precision. */
  function PrecisionAt(t: string, i: nat, args: seq<Arg>, k: nat): (n: Number)
    requires i <= |t|
    ensures i <= n.next <= |t| && k <= n.used
  {
    if At(t, i) != '.' then Number(-1, i, k)
    else
      var n := NumberAt(t, i + 1, args, k);
      if n.next == i + 1 then Number(-1, i + 1, k) else n
  }

  function SkipLong(t: string, i: nat): (e: nat)
    requires i <= |t|
    ensures i <= e <= |t|
  {
    if At(t, i) == 'l' then (if At(t, i + 1) == 'l' then i + 2 else i + 1) else i
  }

  /** Capital letters other than these mean the small ones. */
  function Fold(c: char): char {
    if 'A' <= c <= 'Z' && c !in {'S', 'Q', 'X', 'E', 'G'} then (c as int + 0x20) as char else c
  }

  /** A conversion specification, the place of its letter, and the argument that
      it converts. */
  datatype Directive = Directive(conv: Conv, letterAt: nat, arg: nat)

  function DirectiveAt(t: string, i: nat, args: seq<Arg>, k: nat): (d: Directive)
    requires i <= |t|
    ensures i <= d.letterAt <= |t| && k <= d.arg
  {
    var f := FlagsEnd(t, i);
    var flags := t[i..f];
    var w := NumberAt(t, f, args, k);
    var p := PrecisionAt(t, w.next, args, w.used);
    var e := SkipLong(t, p.next);
    var letter := Fold(At(t, e));
    var conv := Conv(if letter == 'p' then 'x' else letter, '-' in flags || w.value < 0, '0' in flags,
                     '#' in flags || letter == 'p', LastSign(flags), Abs(w.value), p.value);
    Directive(conv, e, p.used)
  }

  /** What a conversion makes of argument `k`. An unknown letter writes nothing
      and takes no argument. */
  function Output(c: Conv, args: seq<Arg>, k: nat): string {
    if IsInteger(c) then Standard(Effective(c), ArgAt(args, k))
    else if c.letter == 'c' then CharOut(c, ArgAt(args, k))
    else if IsText(c) then TextOut(c, TextAt(args, k))
    else if c.letter == '%' then "%"
    else ""
  }

  function Taken(c: Conv): nat {
    if IsInteger(c) || c.letter == 'c' || IsText(c) then 1 else 0
  }

  function Format(t: string, i: nat, args: seq<Arg>, k: nat): string
    requires i <= |t|
    decreases |t| - i
  {
    if i == |t| then ""
    else if t[i] != '%' then [t[i]] + Format(t, i + 1, args, k)
    else
      var d := DirectiveAt(t, i + 1, args, k);
      if d.letterAt == |t| then ""
      else Output(d.conv, args, d.arg) + Format(t, d.letterAt + 1, args, d.arg + Taken(d.conv))
  }

  /** The arguments of a directive are there and of the right kind, its numbers
      and the length of its string fit an int, and its digits fit the buffer. */
  predicate Supplied(d: Directive, args: seq<Arg>, k: nat) {
    && d.arg + Taken(d.conv) <= |args| && (forall j :: k <= j < d.arg ==> args[j].Word?)
    && d.conv.width <= LONG_MAX && d.conv.precision <= LONG_MAX
    && (Taken(d.conv) == 1 ==> (args[d.arg].Word? <==> !IsText(d.conv)))
    && (IsText(d.conv) ==> '\0' !in TextAt(args, d.arg) && |TextAt(args, d.arg)| <= LONG_MAX)
    && (IsInteger(d.conv) ==> |Body(Effective(d.conv), ArgAt(args, d.arg))| <= BUFFER_SIZE)
  }

  /** What the caller owes: every directive has its letter, which is not one of
      the conversions of floating point, and its arguments. */
  predicate Accepted(t: string, i: nat, args: seq<Arg>, k: nat)
    requires i <= |t|
    decreases |t| - i
  {
    if i == |t| then true
    else if t[i] != '%' then Accepted(t, i + 1, args, k)
    else
      var d := DirectiveAt(t, i + 1, args, k);
      && d.letterAt < |t| && d.conv.letter !in {'f', 'e', 'E', 'g', 'G'}
      && Supplied(d, args, k)
      && Accepted(t, d.letterAt + 1, args, d.arg + Taken(d.conv))
  }

  // ---- reading a directive ----

  /** The flag loop. */
  method ReadFlags(t: string, i: nat) returns (f: nat, left: bool, zero: bool, hash: bool, sign: char)
    requires i <= |t|
    ensures f == FlagsEnd(t, i)
    ensures var flags := t[i..f];
      left == ('-' in flags) && zero == ('0' in flags) && hash == ('#' in flags) && sign == LastSign(flags)
  {
    f, left, zero, hash, sign := i, false, false, false, '\0';
    while At(t, f) in {'-', '+', ' ', '0', '#'}
      invariant i <= f <= |t| && FlagsEnd(t, f) == FlagsEnd(t, i)
      invariant var flags := t[i..f];
        left == ('-' in flags) && zero == ('0' in flags) && hash == ('#' in flags) && sign == LastSign(flags)
      decreases |t| - f
    {
      assert t[i..f + 1] == t[i..f] + [t[f]];
      LastSignStep(t[i..f], t[f]);
      match t[f] {
        case '-' => left := true;
        case '+' => sign := '+';
        case ' ' => sign := ' ';
        case '0' => zero := true;
        case _ => hash := true;
      }
      f := f + 1;
    }
  }

  lemma LastSignStep(flags: string, c: char)
    ensures LastSign(flags + [c]) == if c in {'+', ' '} then c else LastSign(flags)
  {
  }

  /** The digit loop of the field width; atoi does the same for the precision. */
  method ReadDigits(t: string, i: nat) returns (n: int, f: nat)
    requires i <= |t|
    ensures f == DigitsEnd(t, i, 10) && n == Value(t[i..f], 10)
  {
    f, n := i, 0;
    while '0' <= At(t, f) <= '9'
      invariant i <= f <= |t| && DigitsEnd(t, f, 10) == DigitsEnd(t, i, 10)
      invariant n == Value(t[i..f], 10)
      decreases |t| - f
    {
      ValueStep(t, i, f, 10);
      n := n * 10 + t[f] as int - '0' as int;
      f := f + 1;
    }
  }

  /** A width or a precision. */
  method ReadNumber(t: string, i: nat, args: seq<Arg>, k: nat) returns (n: Number)
    requires i <= |t|
    ensures n == NumberAt(t, i, args, k)
  {
    hide Value, DigitsEnd;
    if At(t, i) == '*' {
      n := Number(ArgAt(args, k), i + 1, k + 1);
    } else {
      var v, f := ReadDigits(t, i);
      n := Number(v, f, k);
    }
  }

  method ReadPrecision(t: string, i: nat, args: seq<Arg>, k: nat) returns (n: Number)
    requires i <= |t|
    ensures n == PrecisionAt(t, i, args, k)
  {
    hide Value, DigitsEnd;
    n := Number(-1, i, k);
    if At(t, i) == '.' {
      n := Number(-1, i + 1, k);
      FirstDigit(t, i + 1);
      if At(t, i + 1) == '*' || '0' <= At(t, i + 1) <= '9' {
        n := ReadNumber(t, i + 1, args, k);
      }
    }
  }

  method ReadDirective(t: string, i: nat, args: seq<Arg>, k: nat) returns (d: Directive)
    requires i <= |t|
    ensures d == DirectiveAt(t, i, args, k)
  {
    hide LastSign, NumberAt, PrecisionAt, FlagsEnd;
    var f, left, zero, hash, sign := ReadFlags(t, i);
    var w := ReadNumber(t, f, args, k);
    var width := w.value;
    if width < 0 {
      left := true;
      width := -width;
    }
    var p := ReadPrecision(t, w.next, args, w.used);
    f := p.next;
    if At(t, f) == 'l' {
      f := f + 1;
      if At(t, f) == 'l' { f := f + 1; }
    }
    var letter := Fold(At(t, f));
    if letter == 'p' {
      letter := 'x';
      hash := true;
    }
    d := Directive(Conv(letter, left, zero, hash, sign, width, p.value), f, p.used);
  }

  lemma FirstDigit(t: string, i: nat)
    requires i <= |t|
    ensures DigitsEnd(t, i, 10) == i <==> !('0' <= At(t, i) <= '9')
  {
  }

  // ---- doprnt and vsnprintf ----

  lemma FormatEnd(t: string, args: seq<Arg>)
    ensures forall k: nat :: Accepted(t, |t|, args, k)
    ensures forall k: nat :: Format(t, |t|, args, k) == ""
  {
  }

  /** One character or one directive of an accepted format. */
  lemma FormatStep(t: string, i: nat, args: seq<Arg>, k: nat)
    requires i < |t| && Accepted(t, i, args, k)
    ensures t[i] != '%' ==>
      Accepted(t, i + 1, args, k) && Format(t, i, args, k) == [t[i]] + Format(t, i + 1, args, k)
    ensures var d := DirectiveAt(t, i + 1, args, k);
      t[i] == '%' ==>
        && d.letterAt < |t| && Supplied(d, args, k)
        && Accepted(t, d.letterAt + 1, args, d.arg + Taken(d.conv))
        && Format(t, i, args, k) ==
           Output(d.conv, args, d.arg) + Format(t, d.letterAt + 1, args, d.arg + Taken(d.conv))
  {
  }

  method ConvertArg(d: Directive, args: seq<Arg>, ghost k: nat, out: Stream, sofar: long) returns (count: long)
    requires out.Valid() && k <= d.arg && Supplied(d, args, k)
    modifies out, out.str
    ensures out.Valid() && out.emitted == old(out.emitted) + Output(d.conv, args, d.arg)
    ensures count == Wrap32(sofar + |Output(d.conv, args, d.arg)|)
  {
    hide Body, Standard, Wrap32, CharOut, TextOut;
    count := sofar;
    if IsInteger(d.conv) {
      count := Convert(d.conv, args[d.arg].v, out, count);
    } else if d.conv.letter == 'c' {
      count := ConvertChar(d.conv, args[d.arg].v, out, count);
    } else if IsText(d.conv) {
      count := ConvertText(d.conv, if args[d.arg].Text? then args[d.arg].s else "(nil)", out, count);
    } else {
      WrapInRange(sofar);
      if d.conv.letter == '%' {
        var r := out.AddChar('%');
        count := Wrap32(count + r);
      }
    }
  }

  /** The count is an int. */
  method DoPrint(t: string, args: seq<Arg>, out: Stream) returns (count: long)
    requires '\0' !in t && Accepted(t, 0, args, 0)
    requires out.Valid()
    modifies out, out.str
    ensures out.Valid()
    ensures out.emitted == old(out.emitted) + Format(t, 0, args, 0)
    ensures count == Wrap32(|Format(t, 0, args, 0)|)
    ensures count == |Format(t, 0, args, 0)| <==> |Format(t, 0, args, 0)| <= LONG_MAX
  {
    hide Supplied, Output, DirectiveAt, Format, Accepted, Wrap32;
    FormatEnd(t, args);
    var f: nat, ap: nat := 0, 0;
    count := 0;
    ghost var n := 0;
    WrapInRange(0);
    while At(t, f) != '\0'
      invariant f <= |t| && out.Valid() && Accepted(t, f, args, ap)
      invariant out.emitted + Format(t, f, args, ap) == old(out.emitted) + Format(t, 0, args, 0)
      invariant n + |Format(t, f, args, ap)| == |Format(t, 0, args, 0)| && count == Wrap32(n)
      decreases |t| - f
    {
      ghost var sofar := out.emitted;
      ghost var rest := Format(t, f, args, ap);
      FormatStep(t, f, args, ap);
      if t[f] != '%' {
        var r := out.AddChar(t[f]);
        WrapAdd(n, r);
        count := Wrap32(count + r);
      } else {
        var d := ReadDirective(t, f + 1, args, ap);
        WrapAdd(n, |Output(d.conv, args, d.arg)|);
        count := ConvertArg(d, args, ap, out, count);
        f := d.letterAt;
        ap := d.arg + Taken(d.conv);
      }
      n := n + |out.emitted| - |sofar|;
      f := f + 1;
      assert sofar + rest == out.emitted + Format(t, f, args, ap);
    }
    WrapInRange(n);
  }

  /** The result is the whole length exactly if an int holds it. The string at
      `base` holds the longest part that fits below `size`, and a terminator, and
      nothing else is written, exactly if the cursor stays in the address space. */
  method Vsnprintf(str: array<char>, base: nat, size: nat, t: string, args: seq<Arg>)
    returns (length: long, ghost strayed: bool)
    requires base < TWO_32 && size <= str.Length && (size > 0 ==> 0 < base && base + size <= TWO_32)
    requires '\0' !in t && Accepted(t, 0, args, 0)
    modifies str
    ensures var s := Format(t, 0, args, 0);
      && length == Wrap32(|s|) && (length == |s| <==> |s| <= LONG_MAX)
      && (strayed <==> size > 0 && base + |s| >= TWO_32)
      && (size == 0 ==> str[..] == old(str[..]))
      && (size > 0 && !strayed ==> var n := Least(|s|, size - 1);
            str[..n] == s[..n] && str[n] == '\0' && str[n + 1..] == old(str[n + 1..]))
  {
    hide Format, Accepted, Wrap32;
    var stream := new Stream(str, base, size);
    var count := DoPrint(t, args, stream);
    length := stream.Terminate();
    strayed := stream.strayed;
    WrapInRange(|Format(t, 0, args, 0)|);
  }
}
