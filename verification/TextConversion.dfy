/** The conversions of characters and strings in doprnt, and when they are what
    section 7.21.6.1 of ISO/IEC 9899:2011 asks for. The zero flag has no meaning
    there. */
module TextConversion {

  import opened CInt
  import opened Numerals
  import opened PrintfSpec
  import opened MemStream
  import opened Printf

  predicate IsText(c: Conv) { c.letter in {'s', 'S'} }

  /** An int as an unsigned char. */
  function CharOf(v: long): char {
    (v % 256) as char
  }

  // ---- the standard ----

  function StandardChar(c: Conv, v: long): string {
    Field([CharOf(v)], c.width, c.left)
  }

  /** A negative precision is none. */
  function StandardText(c: Conv, s: string): string {
    Field(if 0 <= c.precision < |s| then s[..c.precision] else s, c.width, c.left)
  }

  // ---- doprnt ----

  function FillBefore(c: Conv, fill: int): string {
    if c.left then "" else Repeat(if c.zero then '0' else ' ', fill)
  }

  function FillBehind(c: Conv, fill: int): string {
    if c.left then Repeat(' ', fill) else ""
  }

  function Padded(c: Conv, body: string, fill: int): string {
    FillBefore(c, fill) + body + FillBehind(c, fill)
  }

  /** A null character takes no place in its field. */
  function CharOut(c: Conv, v: long): string {
    Padded(c, [CharOf(v)], if v == 0 then c.width else c.width - 1)
  }

  /** Only -1 is no precision. */
  function Shown(c: Conv, s: string): string {
    if c.precision == -1 || |s| <= c.precision then s else if c.precision < 0 then "" else s[..c.precision]
  }

  /** The whole string takes its place in the field, shown or not. */
  function TextOut(c: Conv, s: string): string {
    Padded(c, Shown(c, s), c.width - |s|)
  }

  // ---- when the two agree ----

  lemma CharMeetsStandard(c: Conv, v: long)
    requires !c.zero
    ensures CharOut(c, v) == StandardChar(c, v) <==> v != 0 || c.width == 0
  {
    if v == 0 && c.width > 0 { assert |CharOut(c, v)| == c.width + 1; }
  }

  /** "%3c" of 0 writes four characters. */
  lemma CharFails()
    ensures |CharOut(Conv('c', false, false, false, '\0', 3, -1), 0)| == 4
  {
  }

  lemma TextMeetsStandard(c: Conv, s: string)
    requires !c.zero
    ensures TextOut(c, s) == StandardText(c, s) <==>
            if c.precision < -1 then s == "" else c.precision < |s| ==> c.precision == -1 || c.width <= c.precision
  {
    hide Repeat;
    var p := c.precision;
    if 0 <= p < |s| {
      if c.width > p { assert |TextOut(c, s)| < |StandardText(c, s)|; }
    } else if p < -1 && s != "" {
      assert |TextOut(c, s)| < |StandardText(c, s)|;
    }
    assert Repeat(' ', c.width - |s|) == Repeat(' ', c.width - |Shown(c, s)|) || |Shown(c, s)| < |s|;
    FillNone(c.width - |s|);
    FillNone(c.width - p);
  }

  lemma FillNone(n: int)
    ensures n <= 0 ==> Repeat(' ', n) == ""
  {
  }

  /** "%5.2s" of "abc" is one blank short, and a precision of -2 hides it all. */
  lemma TextFails()
    ensures TextOut(Conv('s', false, false, false, '\0', 5, 2), "abc") == "  ab"
    ensures StandardText(Conv('s', false, false, false, '\0', 5, 2), "abc") == "   ab"
    ensures TextOut(Conv('s', false, false, false, '\0', 0, -2), "abc") == ""
  {
    assert Repeat(' ', 2) == "  " && Repeat(' ', 3) == "   ";
  }

  // ---- output ----

  /** As many characters of a string as the precision says. */
  method EmitShown(c: Conv, s: string, out: Stream, sofar: long) returns (count: long)
    requires out.Valid()
    modifies out, out.str
    ensures out.Valid() && out.emitted == old(out.emitted) + Shown(c, s)
    ensures count == Wrap32(sofar + |Shown(c, s)|)
  {
    hide Wrap32;
    var i := 0;
    count := sofar;
    WrapInRange(sofar);
    while i < |s| && (c.precision == -1 || i < c.precision)
      invariant i <= |s| && (c.precision == -1 || i <= c.precision || i == 0)
      invariant out.Valid() && out.emitted == old(out.emitted) + s[..i]
      invariant count == Wrap32(sofar + i)
    {
      var r := out.AddChar(s[i]);
      WrapAdd(sofar + i, r);
      count := Wrap32(count + r);
      i := i + 1;
      assert s[..i] == s[..i - 1] + [s[i - 1]];
    }
    assert s[..i] == Shown(c, s);
  }

  method EmitBefore(c: Conv, fill: int, out: Stream, sofar: long) returns (count: long)
    requires out.Valid()
    modifies out, out.str
    ensures out.Valid() && out.emitted == old(out.emitted) + FillBefore(c, fill)
    ensures count == Wrap32(sofar + |FillBefore(c, fill)|)
  {
    count := sofar;
    WrapInRange(sofar);
    if !c.left {
      count := Emit(if c.zero then '0' else ' ', fill, out, sofar);
    }
  }

  method EmitBehind(c: Conv, fill: int, out: Stream, sofar: long) returns (count: long)
    requires out.Valid()
    modifies out, out.str
    ensures out.Valid() && out.emitted == old(out.emitted) + FillBehind(c, fill)
    ensures count == Wrap32(sofar + |FillBehind(c, fill)|)
  {
    count := sofar;
    WrapInRange(sofar);
    if c.left {
      count := Emit(' ', fill, out, sofar);
    }
  }

  method ConvertChar(c: Conv, v: long, out: Stream, sofar: long) returns (count: long)
    requires out.Valid()
    modifies out, out.str
    ensures out.Valid() && out.emitted == old(out.emitted) + CharOut(c, v)
    ensures count == Wrap32(sofar + |CharOut(c, v)|)
  {
    hide Wrap32, FillBefore, FillBehind;
    var fieldWidth: int := c.width;
    if v != 0 { fieldWidth := fieldWidth - 1; }
    count := EmitBefore(c, fieldWidth, out, sofar);
    ghost var n := |FillBefore(c, fieldWidth)|;
    var r := out.AddChar(CharOf(v));
    WrapAdd(sofar + n, r);
    count := Wrap32(count + r);
    count := EmitBehind(c, fieldWidth, out, count);
    WrapAdd(sofar + n + 1, |FillBehind(c, fieldWidth)|);
  }

  method ConvertText(c: Conv, s: string, out: Stream, sofar: long) returns (count: long)
    requires out.Valid()
    modifies out, out.str
    ensures out.Valid() && out.emitted == old(out.emitted) + TextOut(c, s)
    ensures count == Wrap32(sofar + |TextOut(c, s)|)
  {
    hide Wrap32, FillBefore, FillBehind, Shown;
    var fieldWidth := c.width - |s|;
    count := EmitBefore(c, fieldWidth, out, sofar);
    ghost var n := |FillBefore(c, fieldWidth)|;
    count := EmitShown(c, s, out, count);
    WrapAdd(sofar + n, |Shown(c, s)|);
    count := EmitBehind(c, fieldWidth, out, count);
    WrapAdd(sofar + n + |Shown(c, s)|, |FillBehind(c, fieldWidth)|);
  }
}
