/** strchrnul: finding a character or the end of a string four bytes at a time. */
module Strchrnul {

  const MAGIC: bv32 := 0x7efe_feff

  /** A long in memory: the first byte is the most significant one. */
  function Word(b0: bv8, b1: bv8, b2: bv8, b3: bv8): bv32 {
    ((b0 as bv32) << 24) | ((b1 as bv32) << 16) | ((b2 as bv32) << 8) | (b3 as bv32)
  }

  /** Does adding the magic number leave one of the hole bits as it was? */
  predicate HoleUnchanged(w: bv32) {
    ((w + MAGIC) ^ !w) & !MAGIC != 0
  }

  /** The bytes of a long, in place. */
  function Lane0(w: bv32): bv32 { w & 0xff00_0000 }
  function Lane1(w: bv32): bv32 { w & 0x00ff_0000 }
  function Lane2(w: bv32): bv32 { w & 0x0000_ff00 }
  function Lane3(w: bv32): bv32 { w & 0x0000_00ff }

  /** A byte is zero, or the first one is 0x80. */
  predicate Covered(w: bv32) {
    Lane0(w) == 0 || Lane1(w) == 0 || Lane2(w) == 0 || Lane3(w) == 0 || Lane0(w) == 0x8000_0000
  }

  /** The test fires on a zero byte, and misfires on 0x80 in the first byte only. */
  lemma HoleTestExact(w: bv32)
    ensures HoleUnchanged(w) <==> Covered(w)
  {
    hide HoleUnchanged, Lane0, Lane1, Lane2, Lane3;
    if HoleUnchanged(w) { FewFalsePositives(w); } else if Covered(w) { NoFalseNegative(w); }
  }

  lemma NoFalseNegative(w: bv32)
    requires Covered(w)
    ensures HoleUnchanged(w)
  {
  }

  lemma FewFalsePositives(w: bv32)
    requires HoleUnchanged(w)
    ensures Covered(w)
  {
  }

  /** Every byte of the mask is the character. */
  function CharMask(c: bv8): bv32 {
    var low: bv32 := (c as bv32) | ((c as bv32) << 8);
    low | (low << 16)
  }

  lemma MaskIsWord(c: bv8)
    ensures CharMask(c) == Word(c, c, c, c)
  {
  }

  /** Two longs and where they differ. */
  lemma XorLanes(v: bv32, w: bv32)
    ensures Lane0(v ^ w) == 0 <==> Lane0(v) == Lane0(w)
    ensures Lane1(v ^ w) == 0 <==> Lane1(v) == Lane1(w)
    ensures Lane2(v ^ w) == 0 <==> Lane2(v) == Lane2(w)
    ensures Lane3(v ^ w) == 0 <==> Lane3(v) == Lane3(w)
  {
  }

  /** The lanes of a long depend on its bytes only, and a zero byte is a zero lane. */
  lemma WordLanes(b0: bv8, b1: bv8, b2: bv8, b3: bv8)
    ensures Lane0(Word(b0, b1, b2, b3)) == Lane0(Word(b0, 0, 0, 0)) && (b0 == 0 ==> Lane0(Word(b0, b1, b2, b3)) == 0)
    ensures Lane1(Word(b0, b1, b2, b3)) == Lane1(Word(0, b1, 0, 0)) && (b1 == 0 ==> Lane1(Word(b0, b1, b2, b3)) == 0)
    ensures Lane2(Word(b0, b1, b2, b3)) == Lane2(Word(0, 0, b2, 0)) && (b2 == 0 ==> Lane2(Word(b0, b1, b2, b3)) == 0)
    ensures Lane3(Word(b0, b1, b2, b3)) == Lane3(Word(0, 0, 0, b3)) && (b3 == 0 ==> Lane3(Word(b0, b1, b2, b3)) == 0)
  {
  }

  predicate Stops(m: seq<bv8>, c: bv8, i: int)
    requires 0 <= i < |m|
  {
    m[i] == c || m[i] == 0
  }

  /** If both tests are silent, none of the four bytes is the character or NUL. */
  lemma SilentWord(b0: bv8, b1: bv8, b2: bv8, b3: bv8, c: bv8)
    requires !HoleUnchanged(Word(b0, b1, b2, b3)) && !HoleUnchanged(Word(b0, b1, b2, b3) ^ CharMask(c))
    ensures b0 != 0 && b1 != 0 && b2 != 0 && b3 != 0 && b0 != c && b1 != c && b2 != c && b3 != c
  {
    hide Word, HoleUnchanged, CharMask, Lane0, Lane1, Lane2, Lane3;
    var w := Word(b0, b1, b2, b3);
    MaskIsWord(c);
    HoleTestExact(w);
    HoleTestExact(w ^ CharMask(c));
    WordLanes(b0, b1, b2, b3);
    WordLanes(c, c, c, c);
    XorLanes(w, CharMask(c));
  }

  /** The first place from `s` on that holds `c` or NUL. Memory begins at a
      multiple of four and is readable up to the end of a long; the string ends
      somewhere in it. */
  method Strchrnul(m: seq<bv8>, s: nat, c: bv8) returns (r: nat)
    requires |m| % 4 == 0 && exists i :: s <= i < |m| && m[i] == 0
    ensures s <= r < |m| && Stops(m, c, r)
    ensures forall i :: s <= i < r ==> !Stops(m, c, i)
  {
    hide HoleUnchanged, Word, CharMask;
    ghost var end :| s <= end < |m| && m[end] == 0;
    var charPtr := s;
    while charPtr % 4 != 0
      invariant s <= charPtr <= end
      invariant forall i :: s <= i < charPtr ==> !Stops(m, c, i)
      decreases |m| - charPtr
    {
      if m[charPtr] == c || m[charPtr] == 0 {
        return charPtr;
      }
      charPtr := charPtr + 1;
    }
    var longwordPtr := charPtr;
    var charmask := CharMask(c);
    while true
      invariant s <= longwordPtr <= end && longwordPtr % 4 == 0
      invariant forall i :: s <= i < longwordPtr ==> !Stops(m, c, i)
      decreases |m| - longwordPtr
    {
      var cp := longwordPtr;
      var longword := Word(m[cp], m[cp + 1], m[cp + 2], m[cp + 3]);
      longwordPtr := longwordPtr + 4;
      if HoleUnchanged(longword) || HoleUnchanged(longword ^ charmask) {
        if m[cp] == c || m[cp] == 0 { return cp; }
        cp := cp + 1;
        if m[cp] == c || m[cp] == 0 { return cp; }
        cp := cp + 1;
        if m[cp] == c || m[cp] == 0 { return cp; }
        cp := cp + 1;
        if m[cp] == c || m[cp] == 0 { return cp; }
      } else {
        SilentWord(m[cp], m[cp + 1], m[cp + 2], m[cp + 3], c);
      }
    }
  }
}
