/** The sink of vsnprintf: a string that keeps what fits and counts the rest. */
module MemStream {
  import opened CInt

  /** Where a cursor is after `n` steps from address 0. */
  function Address(n: nat): nat {
    n % TWO_32
  }

  lemma AddressStep(n: nat)
    ensures Address(n) < TWO_32 && Address(n + 1) == (if Address(n) == TWO_32 - 1 then 0 else Address(n) + 1)
    ensures n < TWO_32 ==> Address(n) == n
    ensures n == TWO_32 ==> Address(n) == 0
  {
  }

  /** The string `s` holds the first `n` characters of `emitted`; behind them it
      is what it was before. */
  ghost predicate Holds(s: seq<char>, emitted: string, before: seq<char>, n: nat) {
    && n <= |emitted| && n <= |s| == |before|
    && s[..n] == emitted[..n] && s[n..] == before[n..]
  }

  lemma HoldsMore(s: seq<char>, emitted: string, before: seq<char>, n: nat, c: char)
    requires Holds(s, emitted, before, n)
    ensures Holds(s, emitted + [c], before, n)
    ensures n == |emitted| < |s| ==> Holds(s[n := c], emitted + [c], before, n + 1)
  {
    if n == |emitted| < |s| {
      assert s[n := c][..n + 1] == s[..n] + [c];
      assert s[n := c][n + 1..] == s[n..][1..] == before[n..][1..] == before[n + 1..];
    }
  }

  lemma HoldsNothing(s: seq<char>)
    ensures Holds(s, "", s, 0)
  {
  }

  class Stream {
    const str: array<char>
    const size: nat
    /** The address of the string. */
    const base: nat
    /** The cursor, an address of 32 bits. */
    var xstring: nat
    /** Where the cursor stops storing; 0 stands for nowhere. */
    const xestring: nat
    ghost var emitted: string
    ghost const before: seq<char>
    /** Whether something was stored outside of the string. */
    ghost var strayed: bool

    /** The characters that fit: one place is kept for the terminator. */
    ghost function Room(): nat
      reads this
    {
      if size == 0 then 0 else Least(|emitted|, size - 1)
    }

    ghost predicate Placed()
      reads this
    {
      && base < TWO_32 && size <= str.Length && (size > 0 ==> 0 < base && base + size <= TWO_32)
      && xestring == if size == 0 then 0 else base + size - 1
    }

    /** The cursor runs on through the address space; behind its end it is below
        `xestring` again, and characters go astray. */
    ghost predicate Valid()
      reads this, str
    {
      && Placed() && |before| == str.Length
      && xstring == Address(base + |emitted|)
      && (strayed <==> size > 0 && base + |emitted| > TWO_32)
      && (!strayed ==> Holds(str[..], emitted, before, Room()))
    }

    constructor (s: array<char>, at: nat, n: nat)
      requires at < TWO_32 && n <= s.Length && (n > 0 ==> 0 < at && at + n <= TWO_32)
      ensures Valid() && emitted == "" && str == s && base == at && size == n && before == s[..]
    {
      str, base, size := s, at, n;
      xstring := at;
      xestring := if n == 0 then 0 else at + n - 1;
      emitted := "";
      before := s[..];
      strayed := false;
      new;
      HoldsNothing(str[..]);
    }

    method AddChar(c: char) returns (r: nat)
      requires Valid()
      modifies this, str
      ensures Valid() && emitted == old(emitted) + [c] && r == 1
    {
      hide Holds, Address;
      AddressStep(base + |emitted|);
      AddressStep(xstring);
      AddressStep(xstring + 1);
      ghost var s := str[..];
      if !strayed { HoldsMore(s, emitted, before, Room(), c); }
      if xestring != 0 && xstring < xestring {
        if base <= xstring {
          str[xstring - base] := c;
          assert str[..] == s[xstring - base := c];
        } else {
          strayed := true;
        }
      }
      xstring := Address(xstring + 1);
      emitted := emitted + [c];
      r := 1;
    }

    /** The end of vsnprintf: the longest part that fits, then a terminator; the
        rest of the string is not touched. The result counts everything, in an
        int. Something goes astray exactly if the cursor has reached the end of
        the address space. */
    method Terminate() returns (length: long)
      requires Valid()
      modifies this`strayed, str
      ensures length == Wrap32(|emitted|)
      ensures strayed <==> size > 0 && base + |emitted| >= TWO_32
      ensures size == 0 ==> str[..] == before
      ensures size > 0 && !strayed ==> var n := Least(|emitted|, size - 1);
        str[..n] == emitted[..n] && str[n] == '\0' && str[n + 1..] == before[n + 1..]
    {
      AddressStep(base + |emitted|);
      hide Wrap32;
      WrapWhole(xstring - base, |emitted|);
      if size != 0 {
        if xstring > xestring {
          str[xestring - base] := '\0';
        } else if base <= xstring {
          str[xstring - base] := '\0';
        } else {
          strayed := true;
        }
      }
      length := Wrap32(xstring - base);
    }
  }
}
