/** What qsort compares are addresses and differences of addresses, in 32 bits:
    for which tables that is comparing places and sizes. */
module QsortBounds {
  import opened CInt
  import opened QsortLemmas

  /** The table is in memory, and there is an address behind it. */
  predicate InMemory(base: nat, n: nat, w: nat) {
    0 < w && base + n * w < TWO_32
  }

  lemma ElementInMemory(base: nat, n: nat, w: nat, k: nat)
    requires InMemory(base, n, w) && k <= n
    ensures 0 <= k * w && base + k * w < TWO_32
  {
    TimesMono(k, n, w);
  }

  lemma InWord(x: nat)
    ensures x % TWO_32 == x <==> x < TWO_32
  {
  }

  // ---- the threshold in the partition phase ----

  /** A part is skipped by its length in bytes, an unsigned number. */
  predicate IsSmall(w: nat, length: nat) {
    length * w % TWO_32 <= MAX_THRESH * w % TWO_32
  }

  lemma SmallExact(n: nat, w: nat, length: nat)
    requires InMemory(0, n, w) && MAX_THRESH < n && length < n
    ensures IsSmall(w, length) <==> length <= MAX_THRESH
  {
    assert 0 < w;
    hide InMemory;
    ElementInMemory(0, n, w, length);
    ElementInMemory(0, n, w, MAX_THRESH);
    InWord(length * w);
    InWord(MAX_THRESH * w);
    if length <= MAX_THRESH { TimesMono(length, MAX_THRESH, w); } else { TimesMono(MAX_THRESH + 1, length, w); }
  }

  // ---- which part is larger ----

  /** The lengths of both parts are compared as signed numbers of bytes. */
  predicate LeftIsLarger(w: nat, lo: int, right: int, left: int, hi: int) {
    Wrap32((right - lo) * w) > Wrap32((hi - left) * w)
  }

  ghost predicate ComparesWell(w: nat, lo: int, right: int, left: int, hi: int) {
    LeftIsLarger(w, lo, right, left, hi) <==> right - lo > hi - left
  }

  ghost predicate BothLarge(n: nat, lo: int, right: int, left: int, hi: int) {
    0 <= lo && lo + MAX_THRESH < right < left && left + MAX_THRESH < hi < n
  }

  /** The comparison is right for all parts that qsort compares exactly up to
      this size of the table. */
  lemma ComparisonWraps(n: nat, w: nat)
    requires InMemory(0, n, w)
    ensures (forall lo, right, left, hi :: BothLarge(n, lo, right, left, hi) ==> ComparesWell(w, lo, right, left, hi))
            <==> (n - 7) * w <= LONG_MAX
  {
    if (n - 7) * w <= LONG_MAX {
      forall lo, right, left, hi | BothLarge(n, lo, right, left, hi) ensures ComparesWell(w, lo, right, left, hi) {
        ComparisonExact(n, w, right - lo, hi - left);
      }
    } else {
      ComparisonFails(n, w);
      assert BothLarge(n, 0, n - 7, n - 6, n - 1) && !ComparesWell(w, 0, n - 7, n - 6, n - 1);
    }
  }

  lemma ComparisonExact(n: nat, w: nat, l: nat, r: nat)
    requires (n - 7) * w <= LONG_MAX && l <= n - 7 && r <= n - 7 && 0 < w
    ensures Wrap32(l * w) > Wrap32(r * w) <==> l > r
  {
    TimesMono(l, n - 7, w);
    TimesMono(r, n - 7, w);
    if l > r { TimesMono(r + 1, l, w); } else { TimesMono(l, r, w); }
  }

  lemma ComparisonFails(n: nat, w: nat)
    requires InMemory(0, n, w) && (n - 7) * w > LONG_MAX
    ensures 14 <= n && Wrap32((n - 7) * w) < 0 < Wrap32(5 * w)
  {
    if n < 14 { TimesMono(2 * (n - 7), n, w); }
    TimesMono(14, n, w);
    TimesMono(n - 7, n, w);
  }

  /** A table of 2^31 + 200 bytes: as long as the part to do has more than 2^31
      bytes, cutting six elements off its end leaves the large part to go on
      with and the small one on the stack, so 32 cuts of that kind fill it. */
  lemma StackFillsUp(k: nat)
    requires k < 32
    ensures var hi := 0x8000_0000 + 199 - 6 * k;
      BothLarge(0x8000_0000 + 200, 0, hi - 6, hi - 5, hi) && !LeftIsLarger(1, 0, hi - 6, hi - 5, hi)
  {
  }

  // ---- the threshold in the insertion phase ----

  /** The threshold of the search for the least element, an address. */
  function Threshold(base: nat, w: nat): nat {
    (base + MAX_THRESH * w % TWO_32) % TWO_32
  }

  /** The search comes to the fifth element, or to the end of the table. */
  predicate Reaches(base: nat, n: nat, w: nat) {
    Threshold(base, w) >= base + Least(n - 1, MAX_THRESH) * w
  }

  /** Whether element `k`, or the place behind the table, is searched. */
  predicate IsSearched(base: nat, n: nat, w: nat, k: nat) {
    base + k * w <= Least(base + (n - 1) * w, Threshold(base, w))
  }

  lemma SearchExact(base: nat, n: nat, w: nat, k: nat)
    requires InMemory(base, n, w) && 0 < n && 1 <= k
    ensures IsSearched(base, n, w, k) ==> k < n
    ensures Reaches(base, n, w) && k <= Least(n - 1, MAX_THRESH) ==> IsSearched(base, n, w, k)
    ensures !Reaches(base, n, w) ==> !IsSearched(base, n, w, k)
  {
    if n <= k { TimesMono(n, k, w); }
    if k <= Least(n - 1, MAX_THRESH) {
      TimesMono(k, Least(n - 1, MAX_THRESH), w);
      TimesMono(k, n - 1, w);
    }
    if !Reaches(base, n, w) {
      NoSearch(base, n, w);
      TimesMono(1, k, w);
    }
  }

  lemma NoSearch(base: nat, n: nat, w: nat)
    requires InMemory(base, n, w) && 0 < n && !Reaches(base, n, w)
    ensures n < 5 && Threshold(base, w) < base + w
  {
    hide Threshold;
    ThresholdCases(base, w);
    if n >= 5 {
      TimesMono(5, n, w);
    } else {
      assert Least(n - 1, MAX_THRESH) * w == (n - 1) * w == n * w - w;
      assert n == 1 || n * w == if n == 2 then 2 * w else if n == 3 then 3 * w else 4 * w;
    }
  }

  lemma ThresholdCases(base: nat, w: nat)
    requires base + w < TWO_32
    ensures exists k :: 0 <= k <= 4 && Threshold(base, w) == base + 4 * w - k * TWO_32
    ensures Threshold(base, w) < TWO_32
  {
    var m := MAX_THRESH * w % TWO_32;
    var q := MAX_THRESH * w / TWO_32;
    assert 4 * w == q * TWO_32 + m && 0 <= q < 4;
    assert Threshold(base, w) == base + m - (base + m) / TWO_32 * TWO_32;
    assert Threshold(base, w) == base + 4 * w - (q + (base + m) / TWO_32) * TWO_32;
  }

  /** Two elements of 2^30 bytes, anywhere: they are not compared. */
  lemma ThresholdWraps(base: nat)
    requires InMemory(base, 2, 0x4000_0000)
    ensures !Reaches(base, 2, 0x4000_0000)
  {
  }

  // ---- the start of the insertion sort ----

  /** The third element is compared with the last by its address. */
  predicate IsBehind(base: nat, n: nat, w: nat, k: nat) {
    (base + k * w) % TWO_32 > base + (n - 1) * w
  }

  lemma BehindExact(base: nat, n: nat, w: nat, k: nat)
    requires InMemory(base, n, w) && 0 < n && k <= n
    ensures IsBehind(base, n, w, k) <==> k == n
  {
    ElementInMemory(base, n, w, k);
    if k < n { TimesMono(k, n - 1, w); }
  }

  /** A table of one element that is not seen to end before its third. */
  lemma SecondWraps()
    ensures InMemory(0x4000_0000, 1, 0x6000_0000) && !IsBehind(0x4000_0000, 1, 0x6000_0000, 2)
  {
  }

  // ---- the tables that qsort sorts ----

  /** Whatever the elements are. */
  predicate Sortable(base: nat, n: nat, w: nat) {
    if n == 0 then true
    else if n == 1 then IsBehind(base, 1, w, 2)
    else if n <= MAX_THRESH then Reaches(base, n, w)
    else (n - 7) * w <= LONG_MAX
  }

  lemma LargeReaches(base: nat, n: nat, w: nat)
    requires InMemory(base, n, w) && MAX_THRESH < n
    ensures Reaches(base, n, w)
  {
    if !Reaches(base, n, w) { NoSearch(base, n, w); }
  }

  /** Tables up to a quarter of the address space that end below its end by as
      much as their threshold are all sorted. */
  lemma Small(base: nat, n: nat, w: nat)
    requires InMemory(base, n, w) && base + n * w + MAX_THRESH * w < TWO_32 && n * w <= LONG_MAX
    ensures Sortable(base, n, w)
  {
    if MAX_THRESH < n { TimesMono(n - 7, n, w); }
  }
}
