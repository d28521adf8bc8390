/** rand: the multiplicative generator s -> 16807 s mod 2^31 - 1, stepped by
    Schrage's method in signed 32-bit arithmetic. */
module Rand {

  import opened CInt

  const A := 16807
  const M := 0x7fff_ffff
  const Q := 127773
  const R := 2836

  /** The inverse of A modulo M. */
  const A_INVERSE := 1407677000

  /** The step the generator is meant to take. */
  function Next(s: int): int {
    A * s % M
  }

  lemma ModUnique(r: int, x: int, k: int)
    requires 0 <= r < M && x == r + k * M
    ensures x % M == r
  {
  }

  /** Splitting off multiples of Q subtracts a multiple of M. */
  lemma Schrage(s: long)
    ensures -M < A * TruncMod(s, Q) - R * TruncDiv(s, Q) < M
    ensures A * s == A * TruncMod(s, Q) - R * TruncDiv(s, Q) + TruncDiv(s, Q) * M
  {
  }

  class Generator {
    var lseed: long

    constructor ()
      ensures lseed == 1
    {
      lseed := 1;
    }

    method Srand(seed: int)
      requires 0 <= seed < TWO_32
      modifies this
      ensures lseed % TWO_32 == seed
    {
      lseed := if seed < 0x8000_0000 then seed else seed - TWO_32;
    }

    /** For every seed a long can hold, zero and negative ones included. */
    method Rand() returns (r: long)
      modifies this
      ensures lseed == r == Next(old(lseed))
      ensures r == 0 <==> old(lseed) % M == 0
    {
      Schrage(lseed);
      StaysAway(lseed);
      var kept: long := A * TruncMod(lseed, Q);
      var dropped: long := R * TruncDiv(lseed, Q);
      var t := TruncDiv(lseed, Q);
      ghost var was := lseed;
      lseed := kept - dropped;
      if lseed < 0 {
        lseed := lseed + M;
        t := t - 1;
      }
      ModUnique(lseed, A * was, t);
      r := lseed;
    }
  }

  /** Next undone. */
  lemma NextInverse(s: int)
    requires 0 <= s < M
    ensures A_INVERSE * Next(s) % M == s
  {
    var k := A * s / M;
    assert Next(s) == A * s - k * M;
    var c := A_INVERSE * A / M;
    assert A_INVERSE * A == c * M + 1;
    assert A_INVERSE * Next(s) == s + (c * s - A_INVERSE * k) * M;
    ModUnique(s, A_INVERSE * Next(s), c * s - A_INVERSE * k);
  }

  lemma NextInjective(s: int, u: int)
    requires 0 <= s < M && 0 <= u < M
    requires Next(s) == Next(u)
    ensures s == u
  {
    NextInverse(s);
    NextInverse(u);
  }

  /** Zero is reached only from multiples of M, so a good seed never dies out. */
  lemma StaysAway(s: int)
    ensures Next(s) == 0 <==> s % M == 0
  {
    var k := s / M;
    assert s == k * M + s % M;
    assert A * s == A * (s % M) + (A * k) * M;
    var n := Next(s % M);
    assert A * (s % M) == n + (A * (s % M) / M) * M;
    ModUnique(n, A * s, A * (s % M) / M + A * k);
    assert Next(s) == n;
    NextInverse(s % M);
    assert s % M == 0 ==> Next(s % M) == 0;
  }

  // ---- runs ----

  function Nth(s: int, n: nat): int {
    if n == 0 then s else Next(Nth(s, n - 1))
  }

  function Power(b: int, n: nat): int {
    if n == 0 then 1 else b * Power(b, n - 1)
  }

  lemma {:induction false} NthIsPower(s: int, n: nat)
    requires 0 <= s < M
    ensures Nth(s, n) == Power(A, n) * s % M
  {
    if n == 0 {
    } else {
      NthIsPower(s, n - 1);
      var x := Power(A, n - 1) * s;
      var k := x / M;
      assert Nth(s, n - 1) == x - k * M;
      var y := A * Nth(s, n - 1);
      assert Power(A, n) * s == A * x;
      assert A * x == y % M + (y / M + A * k) * M;
      ModUnique(y % M, A * x, y / M + A * k);
    }
  }

  lemma {:induction false} NthInRange(s: int, n: nat)
    requires 1 <= s < M
    ensures 1 <= Nth(s, n) < M
  {
    if n == 0 {
    } else {
      NthInRange(s, n - 1);
      StaysAway(Nth(s, n - 1));
    }
  }

  /** The first value to come back is the seed: a run is a pure cycle. */
  lemma {:induction false} PureCycle(s: int, i: nat, j: nat)
    requires 1 <= s < M && i <= j && Nth(s, i) == Nth(s, j)
    ensures Nth(s, j - i) == s
  {
    if i == 0 {
    } else {
      NthInRange(s, i - 1);
      NthInRange(s, j - 1);
      NextInjective(Nth(s, i - 1), Nth(s, j - 1));
      PureCycle(s, i - 1, j - 1);
    }
  }
}
