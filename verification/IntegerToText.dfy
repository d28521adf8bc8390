/** itoa and ultoa. */
module IntegerToText {

  import opened CInt
  import opened Numerals

  /** What itoa writes. */
  function SignedNumeral(v: int, radix: nat): string
    requires 2 <= radix <= 16
  {
    if v < 0 then "-" + Numeral(-v, radix, LOWER) else Numeral(v, radix, LOWER)
  }

  /** Copies what was built backwards, and ends it. */
  method ReverseOut(tmpbuf: array<char>, n: nat, buffer: array<char>)
    requires n <= tmpbuf.Length && n < buffer.Length && tmpbuf != buffer
    modifies buffer
    ensures buffer[..n] == Reversed(tmpbuf[..n]) && buffer[n] == '\0'
    ensures buffer[n + 1..] == old(buffer[n + 1..])
  {
    hide Reversed;
    var i, p := n, 0;
    while i > 0
      invariant 0 <= i <= n && p == n - i
      invariant buffer[..p] + Reversed(tmpbuf[..i]) == Reversed(tmpbuf[..n])
      invariant buffer[n + 1..] == old(buffer[n + 1..])
    {
      i := i - 1;
      ReversedSnoc(tmpbuf[..i], tmpbuf[i]);
      assert tmpbuf[..i + 1] == tmpbuf[..i] + [tmpbuf[i]];
      ghost var before := buffer[..p];
      buffer[p] := tmpbuf[i];
      p := p + 1;
      assert buffer[..p] == before + [tmpbuf[i]];
    }
    assert Reversed(tmpbuf[..0]) == "" by { EmptyReversed(); }
    buffer[p] := '\0';
  }

  lemma NatStep(x: nat, radix: nat)
    requires 2 <= radix
    ensures 0 <= x / radix && 0 <= x % radix && if x < radix then x / radix == 0 && x % radix == x else x / radix < x
  {
    Divided(x, radix);
    if x >= radix { AtLeastBase(x, radix); }
  }

  lemma TruncStep(v: int, radix: nat)
    requires 2 <= radix
    ensures var q := TruncDiv(v, radix);
      && (v >= 0 ==> q >= 0 && TruncMod(v, radix) >= 0)
      && (v < 0 ==> q <= 0 && TruncMod(v, radix) <= 0 && (q == 0 ==> TruncMod(v, radix) < 0))
      && (q != 0 ==> Abs(q) < Abs(v))
  {
    NatStep(Abs(v), radix);
  }

  /** The digit loop on `v`, with division towards zero, looks for a digit in
      front of the digit table. */
  predicate LeavesTable(v: int, radix: nat)
    requires 2 <= radix
    decreases Abs(v)
  {
    TruncStep(v, radix);
    TruncMod(v, radix) < 0 || (TruncDiv(v, radix) != 0 && LeavesTable(TruncDiv(v, radix), radix))
  }

  /** It does so for every negative number, and for no other. */
  lemma {:induction false} LeavesTableIf(v: int, radix: nat)
    requires 2 <= radix
    ensures LeavesTable(v, radix) <==> v < 0
    decreases Abs(v)
  {
    hide TruncDiv, TruncMod;
    TruncStep(v, radix);
    if TruncDiv(v, radix) != 0 {
      LeavesTableIf(TruncDiv(v, radix), radix);
    }
  }

  /** The caller's buffer must hold the text; the inner one always does. The
      result says whether only digits of the table have been used; the least int
      stays negative when it is negated. */
  method Itoa(value: long, buffer: array<char>, radix: nat) returns (ok: bool)
    requires 2 <= radix <= 16
    requires |SignedNumeral(value, radix)| < buffer.Length
    modifies buffer
    ensures ok <==> value != LONG_MIN
    ensures ok ==> var n := |SignedNumeral(value, radix)|;
      buffer[..n] == SignedNumeral(value, radix) && buffer[n] == '\0' && buffer[n + 1..] == old(buffer[n + 1..])
  {
    hide Numeral, Reversed, LeavesTable;
    var neg := false;
    var tmpbuf := new char[34];
    var v: int := value;
    if v < 0 {
      neg := true;
      v := Wrap32(-v);
    }
    LeavesTableIf(v, radix);
    if LeavesTable(v, radix) {
      return false;
    }
    LongLength(v, radix, LOWER);
    var i := PutDigits(v, radix, LOWER, tmpbuf, 0);
    ghost var digits := tmpbuf[..i];
    if neg {
      tmpbuf[i] := '-';
      i := i + 1;
      assert tmpbuf[..i] == digits + ['-'];
      ReversedSnoc(digits, '-');
    }
    ReverseOut(tmpbuf, i, buffer);
    ok := true;
  }

  method Ultoa(value: nat, buffer: array<char>, radix: nat)
    requires 2 <= radix <= 16 && value <= ULONG_MAX
    requires |Numeral(value, radix, LOWER)| < buffer.Length
    modifies buffer
    ensures var n := |Numeral(value, radix, LOWER)|;
      buffer[..n] == Numeral(value, radix, LOWER) && buffer[n] == '\0' && buffer[n + 1..] == old(buffer[n + 1..])
  {
    var tmpbuf := new char[34];
    LongLength(value, radix, LOWER);
    var i := PutDigits(value, radix, LOWER, tmpbuf, 0);
    ReverseOut(tmpbuf, i, buffer);
  }
}
