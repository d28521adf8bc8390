/** The integer conversions of doprnt, and vsnprintf over them. */
module Printf {

  import opened CInt
  import opened Numerals
  import opened PrintfSpec
  import opened MemStream

  const BUFFER_SIZE := 128

  /** Zeros in front of what has been built. */
  method PutZeros(buf: array<char>, n: nat, zeros: nat) returns (m: nat)
    requires n + zeros <= buf.Length
    modifies buf
    ensures m == n + zeros
    ensures Reversed(buf[..m]) == Zeros(zeros) + Reversed(old(buf[..n]))
  {
    hide Reversed, Zeros;
    m := n;
    var left: int := zeros;
    ghost var built := buf[..n];
    NoZeros();
    while left > 0
      invariant 0 <= left <= zeros && m == n + zeros - left
      invariant Reversed(buf[..m]) == Zeros(zeros - left) + Reversed(built)
    {
      ghost var t := buf[..m];
      buf[m] := '0';
      m := m + 1;
      assert buf[..m] == t + ['0'];
      ReversedSnoc(t, '0');
      MoreZeros(zeros - left);
      left := left - 1;
    }
  }

  lemma NoZeros()
    ensures Zeros(0) == ""
  {
  }

  lemma MoreZeros(n: nat)
    ensures Zeros(n + 1) == ['0'] + Zeros(n) == Zeros(n) + ['0']
  {
  }

  method PutChar(buf: array<char>, n: nat, c: char) returns (m: nat)
    requires n < buf.Length
    modifies buf
    ensures m == n + 1
    ensures Reversed(buf[..m]) == [c] + Reversed(old(buf[..n]))
  {
    hide Reversed;
    buf[n] := c;
    m := n + 1;
    assert buf[..m] == old(buf[..n]) + [c];
    ReversedSnoc(old(buf[..n]), c);
  }

  /** The sign, if there is one. */
  method PutSign(c: Conv, v: long, buf: array<char>, n: nat) returns (m: nat)
    requires IsSigned(c) && n + |Lead(c, v)| <= buf.Length
    modifies buf
    ensures m == n + |Lead(c, v)|
    ensures Reversed(buf[..m]) == Lead(c, v) + Reversed(old(buf[..n]))
    ensures m == n ==> buf[..] == old(buf[..])
  {
    m := n;
    if v < 0 {
      m := PutChar(buf, n, '-');
    } else if c.sign != '\0' {
      m := PutChar(buf, n, c.sign);
    }
  }

  /** The parts that do not depend on whether precision zero means none. */
  lemma EffectiveParts(c: Conv, v: long)
    ensures Plain(Effective(c), v) == Plain(c, v) && Lead(Effective(c), v) == Lead(c, v)
  {
  }

  lemma SignAtMostOne(c: Conv, v: long)
    requires IsSigned(c)
    ensures |Lead(c, v)| <= 1
  {
  }

  /** A signed number whose precision says how many digits it has. */
  lemma SignedPrecise(c: Conv, v: long)
    requires IsSigned(c) && c.precision > 0
    ensures Body(Effective(c), v) == Lead(c, v) + (Zeros(c.precision - |Plain(c, v)|) + Plain(c, v))
  {
  }

  /** One without a precision: with zeros up to the width, or with none. */
  lemma SignedFilled(c: Conv, v: long)
    requires IsSigned(c) && c.precision <= 0 && c.zero && !c.left && c.width > |Plain(c, v)|
    ensures Body(Effective(c), v) == Lead(c, v) + (Zeros(c.width - |Plain(c, v)| - |Lead(c, v)|) + Plain(c, v))
  {
    hide Plain, Lead, Repeat;
    EffectiveParts(c, v);
    assert Digits(Effective(c), v) == Plain(c, v);
  }

  lemma SignedBare(c: Conv, v: long)
    requires IsSigned(c) && c.precision <= 0 && (!c.zero || c.left || c.width <= |Plain(c, v)|)
    ensures Body(Effective(c), v) == Lead(c, v) + Plain(c, v)
  {
    hide Plain, Lead;
    EffectiveParts(c, v);
    assert Digits(Effective(c), v) == Plain(c, v);
  }

  /** The last character that was put. */
  lemma Unput(s: string)
    requires s != ""
    ensures Reversed(s) == [s[|s| - 1]] + Reversed(s[..|s| - 1])
  {
  }

  /** Zeros and sign. Without a precision the sign takes the place of the last
      zero. */
  method PutZerosAndSign(c: Conv, v: long, buf: array<char>, n0: nat, numZeros: nat, signExtra: bool) returns (n: nat)
    requires IsSigned(c) && 0 < numZeros
    requires n0 + numZeros + (if signExtra then |Lead(c, v)| else 0) <= buf.Length
    modifies buf
    ensures n == n0 + numZeros + if signExtra then |Lead(c, v)| else 0
    ensures var zeros := if signExtra then numZeros else numZeros - |Lead(c, v)|;
      Reversed(buf[..n]) == Lead(c, v) + (Zeros(zeros) + Reversed(old(buf[..n0])))
  {
    hide Reversed, Zeros, Lead;
    n := PutZeros(buf, n0, numZeros);
    SignAtMostOne(c, v);
    if signExtra {
      n := PutSign(c, v, buf, n);
    } else {
      Unput(buf[..n]);
      MoreZeros(numZeros - 1);
      assert buf[..n][..n - 1] == buf[..n - 1];
      assert Reversed(buf[..n])[1..] == Zeros(numZeros - 1) + Reversed(old(buf[..n0]));
      var signptr := PutSign(c, v, buf, n - 1);
    }
  }

  /** The d and i case up to the output: the number backwards in the buffer, and
      how much of the field is left to fill. */
  method BuildSigned(c: Conv, v: long, buf: array<char>) returns (n: nat, fieldWidth: int, pad: char)
    requires IsSigned(c) && |Body(Effective(c), v)| <= buf.Length
    modifies buf
    ensures n <= buf.Length && Reversed(buf[..n]) == Body(Effective(c), v)
    ensures fieldWidth <= 0 ==> c.width <= n
    ensures fieldWidth > 0 ==> c.width - n == fieldWidth && (c.left || pad == ' ')
  {
    hide Body, Numeral, Reversed, Lead, Zeros;
    SignAtMostOne(c, v);
    if c.precision > 0 { SignedPrecise(c, v); }
    else if c.zero && !c.left && c.width > |Plain(c, v)| { SignedFilled(c, v); }
    else { SignedBare(c, v); }
    pad := if c.zero then '0' else ' ';
    var longval: int := v;
    var ulongval: nat := if longval < 0 then -longval else longval;
    n := PutDigits(ulongval, 10, LOWER, buf, 0);
    assert buf[0..n] == buf[..n];
    var numZeros: int, numBlanks: int, signExtra: bool;
    if c.precision > 0 {
      numZeros := c.precision;
      numBlanks := c.width - numZeros;
      signExtra := true;
      pad := ' ';
      if numBlanks < 0 { numBlanks := 0; }
    } else {
      if pad == '0' {
        numZeros := c.width;
        numBlanks := 0;
      } else {
        numZeros := 0;
        numBlanks := c.width;
      }
      signExtra := false;
    }
    fieldWidth := numZeros + numBlanks;
    numZeros := numZeros - n;
    if numZeros > 0 { pad := '0'; }
    if (c.left && c.precision <= 0) || numZeros <= 0 {
      assert Zeros(numZeros) == "" || numZeros > 0;
      n := PutSign(c, v, buf, n);
    } else {
      n := PutZerosAndSign(c, v, buf, n, numZeros, signExtra);
      pad := ' ';
    }
    fieldWidth := fieldWidth - n;
  }

  /** What doprnt puts in front for the # flag: nothing for zero. */
  function Prefix(c: Conv, v: long): string {
    if !c.hash || v == 0 then "" else if c.letter == 'o' then "0" else if c.letter == 'u' then "" else ['0', c.letter]
  }

  predicate IsUnsigned(c: Conv) { c.letter in {'u', 'o', 'x', 'X'} }

  /** The zeros of an unsigned conversion, apart from the prefix of octal. */
  function FillZeros(c: Conv, v: long): int {
    var k := |Plain(c, v)|;
    if c.precision > 0 then c.precision - k - (if c.letter == 'o' then |Prefix(c, v)| else 0)
    else if c.zero && !c.left then c.width - k - |Prefix(c, v)|
    else 0
  }

  lemma UnsignedShape(c: Conv, v: long)
    requires IsUnsigned(c)
    ensures Body(Effective(c), v) == Prefix(c, v) + (Zeros(FillZeros(c, v)) + Plain(c, v))
  {
    if c.letter == 'o' {
      OctalShape(c, v);
    } else {
      OtherShape(c, v);
    }
  }

  lemma OtherShape(c: Conv, v: long)
    requires IsUnsigned(c) && c.letter != 'o'
    ensures Body(Effective(c), v) == Prefix(c, v) + (Zeros(FillZeros(c, v)) + Plain(c, v))
  {
    hide Plain, Repeat;
    var e := Effective(c);
    EffectiveParts(c, v);
    assert Lead(e, v) == Prefix(c, v);
    assert Digits(e, v) == Zeros(e.precision - |Plain(c, v)|) + Plain(c, v);
  }

  lemma OctalShape(c: Conv, v: long)
    requires c.letter == 'o'
    ensures Body(Effective(c), v) == Prefix(c, v) + (Zeros(FillZeros(c, v)) + Plain(c, v))
  {
    hide Repeat;
    var e := Effective(c);
    EffectiveParts(c, v);
    assert Plain(c, v)[0] == '0' <==> v == 0 by { PlainStart(c, v); }
    var more := Zeros(e.precision - |Plain(c, v)|);
    assert more + Plain(c, v) != "";
    if |more| > 0 {
      assert more[0] == '0';
      MoreZeros(|more| - 1);
    }
    if c.hash && v != 0 && c.precision <= 0 && c.zero && !c.left {
      OctalFill(c, v);
    }
  }

  lemma PlainStart(c: Conv, v: long)
    requires IsUnsigned(c)
    ensures Plain(c, v)[0] == '0' <==> v == 0
  {
    Alphabets();
    NumeralDenotes(Magnitude(c, v), Radix(c), Table(c));
  }

  lemma OctalFill(c: Conv, v: long)
    requires c.letter == 'o' && c.hash && v != 0 && c.precision <= 0 && c.zero && !c.left
    ensures Body(Effective(c), v) == Prefix(c, v) + (Zeros(FillZeros(c, v)) + Plain(c, v))
  {
    hide Plain, Repeat;
    var z := FillZeros(c, v);
    EffectiveParts(c, v);
    PlainStart(c, v);
    assert Digits(Effective(c), v) == "0" + Plain(c, v);
    assert Body(Effective(c), v) == Zeros(z) + ("0" + Plain(c, v));
    if z > 0 {
      assert Zeros(z) + "0" == "0" + Zeros(z) by { MoreZeros(z); }
    }
  }

  /** The prefix, last character first. */
  method PutPrefix(c: Conv, v: long, buf: array<char>, n: nat) returns (m: nat)
    requires IsUnsigned(c) && n + |Prefix(c, v)| <= buf.Length
    modifies buf
    ensures m == n + |Prefix(c, v)|
    ensures Reversed(buf[..m]) == Prefix(c, v) + Reversed(old(buf[..n]))
  {
    hide Reversed;
    m := n;
    if c.hash && v != 0 {
      if c.letter in {'x', 'X'} {
        m := PutChar(buf, m, c.letter);
        m := PutChar(buf, m, '0');
      } else if c.letter == 'o' {
        m := PutChar(buf, m, '0');
      }
    }
  }

  /** The same for the o, u, x and X cases. */
  method BuildUnsigned(c: Conv, v: long, buf: array<char>) returns (n: nat, fieldWidth: int, pad: char)
    requires IsUnsigned(c) && |Body(Effective(c), v)| <= buf.Length
    modifies buf
    ensures n <= buf.Length && Reversed(buf[..n]) == Body(Effective(c), v)
    ensures fieldWidth <= 0 ==> c.width <= n
    ensures fieldWidth > 0 ==> c.width - n == fieldWidth && (c.left || pad == ' ')
  {
    hide Body, Numeral, Reversed, Zeros;
    UnsignedShape(c, v);
    pad := if c.zero then '0' else ' ';
    var ulongval: nat := v % TWO_32;
    assert Numeral(ulongval, Radix(c), Table(c)) == Plain(c, v);
    n := PutDigits(ulongval, Radix(c), Table(c), buf, 0);
    assert buf[0..n] == buf[..n];
    var lenPrefix := |Prefix(c, v)|;
    var numZeros: int, numBlanks: int;
    if c.precision > 0 {
      numZeros := c.precision;
      numBlanks := c.width - numZeros;
      pad := ' ';
      if numBlanks < 0 { numBlanks := 0; }
    } else if pad == '0' && !c.left {
      numZeros := c.width;
      numBlanks := 0;
    } else {
      numZeros := 0;
      numBlanks := c.width;
    }
    fieldWidth := numZeros + numBlanks;
    numZeros := numZeros - n;
    if lenPrefix > 0 && (c.letter == 'o' || pad == '0') {
      if numZeros > 0 {
        numZeros := numZeros - lenPrefix;
        if numBlanks > 0 { numBlanks := numBlanks + 1; }
      }
    }
    assert Zeros(numZeros) == Zeros(FillZeros(c, v)) by { NegativeZeros(numZeros, FillZeros(c, v)); }
    if numZeros > 0 {
      n := PutZeros(buf, n, numZeros);
      pad := ' ';
    } else {
      NegativeZeros(numZeros, 0);
      NoZeros();
    }
    n := PutPrefix(c, v, buf, n);
    fieldWidth := fieldWidth - n;
  }

  lemma NegativeZeros(a: int, b: int)
    requires a == b || (a <= 0 && b <= 0)
    ensures Zeros(a) == Zeros(b)
  {
  }

  // ---- output ----

  lemma MoreOf(c: char, n: nat)
    ensures Repeat(c, n + 1) == Repeat(c, n) + [c]
  {
  }

  method Emit(c: char, n: int, out: Stream, sofar: long) returns (count: long)
    requires out.Valid()
    modifies out, out.str
    ensures out.Valid() && out.emitted == old(out.emitted) + Repeat(c, n)
    ensures count == Wrap32(sofar + |Repeat(c, n)|)
  {
    hide Repeat, Wrap32;
    var i := 0;
    count := sofar;
    WrapInRange(sofar);
    assert Repeat(c, 0) == "";
    while i < n
      invariant 0 <= i && (i <= n || i == 0) && count == Wrap32(sofar + i)
      invariant out.Valid() && out.emitted == old(out.emitted) + Repeat(c, i)
    {
      var r := out.AddChar(c);
      WrapAdd(sofar + i, r);
      count := Wrap32(count + r);
      MoreOf(c, i);
      i := i + 1;
    }
    assert n <= 0 ==> Repeat(c, n) == "";
  }

  /** The buffer from its end. */
  method EmitBackwards(buf: array<char>, n: nat, out: Stream, sofar: long) returns (count: long)
    requires out.Valid() && n <= buf.Length && buf != out.str
    modifies out, out.str
    ensures out.Valid() && out.emitted == old(out.emitted) + Reversed(buf[..n])
    ensures count == Wrap32(sofar + n)
  {
    hide Reversed, Wrap32;
    var i := n;
    count := sofar;
    WrapInRange(sofar);
    while i > 0
      invariant 0 <= i <= n && count == Wrap32(sofar + (n - i))
      invariant out.Valid() && out.emitted + Reversed(buf[..i]) == old(out.emitted) + Reversed(buf[..n])
    {
      Unput(buf[..i]);
      assert buf[..i][..i - 1] == buf[..i - 1];
      i := i - 1;
      ghost var before := out.emitted;
      var r := out.AddChar(buf[i]);
      WrapAdd(sofar + n - i - 1, r);
      count := Wrap32(count + r);
      assert out.emitted + Reversed(buf[..i]) == before + ([buf[i]] + Reversed(buf[..i]));
    }
    assert buf[..0] == "";
    EmptyReversed();
  }

  /** What was built, with the rest of the field before or behind it. */
  method EmitField(buf: array<char>, n: nat, fieldWidth: int, pad: char, ghost width: nat, left: bool, out: Stream,
                   sofar: long)
    returns (count: long)
    requires out.Valid() && n <= buf.Length && buf != out.str
    requires fieldWidth <= 0 ==> width <= n
    requires fieldWidth > 0 ==> width - n == fieldWidth && (left || pad == ' ')
    modifies out, out.str
    ensures out.Valid()
    ensures out.emitted == old(out.emitted) + Field(Reversed(buf[..n]), width, left)
    ensures count == Wrap32(sofar + |Field(Reversed(buf[..n]), width, left)|)
  {
    hide Repeat, Reversed, Wrap32;
    count := sofar;
    if !left { count := Emit(pad, fieldWidth, out, count); }
    WrapAdd(sofar + (if left then 0 else |Repeat(pad, fieldWidth)|), n);
    WrapInRange(sofar);
    count := EmitBackwards(buf, n, out, count);
    if left {
      WrapAdd(sofar + n, |Repeat(' ', fieldWidth)|);
      count := Emit(' ', fieldWidth, out, count);
    }
    assert fieldWidth <= 0 ==> Repeat(' ', width - n) == Repeat(pad, fieldWidth) == Repeat(' ', fieldWidth) == "";
  }

  /** One integer conversion. */
  method Convert(c: Conv, v: long, out: Stream, sofar: long) returns (count: long)
    requires IsInteger(c) && out.Valid()
    requires |Body(Effective(c), v)| <= BUFFER_SIZE
    modifies out, out.str
    ensures out.Valid()
    ensures out.emitted == old(out.emitted) + Standard(Effective(c), v)
    ensures count == Wrap32(sofar + |Standard(Effective(c), v)|)
  {
    hide Body, Reversed, Field, Wrap32;
    var buf := new char[BUFFER_SIZE];
    var n, fieldWidth, pad;
    if IsSigned(c) {
      n, fieldWidth, pad := BuildSigned(c, v, buf);
    } else {
      n, fieldWidth, pad := BuildUnsigned(c, v, buf);
    }
    count := EmitField(buf, n, fieldWidth, pad, c.width, c.left, out, sofar);
  }
}
