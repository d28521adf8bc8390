/** Why the two phases of qsort sort: what partitioning a segment leaves true
    of the whole table, and how deep the stack of segments can get. */
module QsortLemmas {
  import opened CInt
  import opened Ordering

  const MAX_THRESH := 4
  const STACK_SIZE := 32

  /** A part of the table that is still to be partitioned. */
  datatype Seg = Seg(lo: int, hi: int)

  /** Nothing before place `c` is greater than anything from `c` on. */
  ghost predicate Cut(cmp: Comparator, v: seq<Elem>, c: int) {
    forall i, j :: 0 <= i < c <= j < |v| ==> cmp(v[i], v[j]) <= 0
  }

  /** In the segment lo..hi only pairs inside lo..right or inside left..hi may be out of order. */
  ghost predicate Parted(cmp: Comparator, v: seq<Elem>, lo: int, hi: int, right: int, left: int)
    requires 0 <= lo && hi < |v|
  {
    forall i, j :: lo <= i < j <= hi && right < j && i < left ==> cmp(v[i], v[j]) <= 0
  }

  ghost predicate Pending(cmp: Comparator, v: seq<Elem>, s: Seg) {
    0 <= s.lo && s.lo + MAX_THRESH <= s.hi < |v| && Cut(cmp, v, s.lo) && Cut(cmp, v, s.hi + 1)
  }

  ghost predicate Apart(a: Seg, b: Seg) {
    a.hi < b.lo || b.hi < a.lo
  }

  ghost predicate Excused(segs: seq<Seg>, i: int) {
    exists k :: 0 <= k < |segs| && segs[k].lo <= i <= segs[k].hi
  }

  /** A cut not more than five places on. */
  ghost predicate CutSoon(cmp: Comparator, v: seq<Elem>, i: int) {
    exists c :: i < c <= i + MAX_THRESH + 1 && Cut(cmp, v, c)
  }

  /** Outside of the pending segments the table falls into parts of at most five
      elements, with a cut between each two. */
  ghost predicate NearlySorted(cmp: Comparator, v: seq<Elem>, segs: seq<Seg>) {
    forall i {:trigger CutSoon(cmp, v, i)} :: 0 <= i < |v| ==> CutSoon(cmp, v, i) || Excused(segs, i)
  }

  ghost predicate State(cmp: Comparator, v: seq<Elem>, segs: seq<Seg>) {
    && (forall k :: 0 <= k < |segs| ==> Pending(cmp, v, segs[k]))
    && (forall a, b :: 0 <= a < b < |segs| ==> Apart(segs[a], segs[b]))
    && NearlySorted(cmp, v, segs)
  }

  lemma CutKept(cmp: Comparator, v: seq<Elem>, v': seq<Elem>, lo: int, hi: int, c: int)
    requires Shuffled(v, v', lo, hi) && 0 <= lo <= hi < |v| && Cut(cmp, v, c) && (c <= lo || hi < c)
    ensures Cut(cmp, v', c)
  {
    forall i, j | 0 <= i < c <= j < |v| ensures cmp(v'[i], v'[j]) <= 0 {
      var i0, j0 := i, j;
      if lo <= i <= hi { i0 := ShuffledSource(v, v', lo, hi, i); }
      if lo <= j <= hi { j0 := ShuffledSource(v, v', lo, hi, j); }
      assert cmp(v[i0], v[j0]) <= 0;
    }
  }

  lemma NewCut(cmp: Comparator, v: seq<Elem>, lo: int, hi: int, right: int, left: int, c: int)
    requires 0 <= lo <= right < c <= left <= hi < |v|
    requires Cut(cmp, v, lo) && Cut(cmp, v, hi + 1) && Parted(cmp, v, lo, hi, right, left)
    ensures Cut(cmp, v, c)
  {
  }

  /** The segments that partitioning lo..hi into lo..right and left..hi leaves to be done. */
  ghost predicate Leaves(parts: seq<Seg>, lo: int, hi: int, right: int, left: int) {
    && |parts| <= 2
    && (forall k :: 0 <= k < |parts| ==>
      (parts[k] == Seg(lo, right) && lo + MAX_THRESH <= right) ||
      (parts[k] == Seg(left, hi) && left + MAX_THRESH <= hi))
    && (|parts| == 2 ==> parts[0] != parts[1])
    && (right - lo > MAX_THRESH ==> Seg(lo, right) in parts)
    && (hi - left > MAX_THRESH ==> Seg(left, hi) in parts)
  }

  lemma ShuffledLength(v: seq<Elem>, v': seq<Elem>, lo: int, hi: int)
    requires Shuffled(v, v', lo, hi)
    ensures |v'| == |v| && 0 <= lo <= hi < |v|
  {
  }

  /** One partitioning keeps the state. */
  lemma PartitionStep(cmp: Comparator, v: seq<Elem>, v': seq<Elem>, segs: seq<Seg>, s: Seg, right: int, left: int,
                      parts: seq<Seg>)
    requires State(cmp, v, segs + [s]) && Shuffled(v, v', s.lo, s.hi)
    requires s.lo <= right < left <= s.hi < |v| && 0 <= s.lo && Parted(cmp, v', s.lo, s.hi, right, left)
    requires Leaves(parts, s.lo, s.hi, right, left)
    ensures State(cmp, v', segs + parts)
  {
    hide Cut, Parted, Excused, Shuffled;
    ShuffledLength(v, v', s.lo, s.hi);
    var old', new' := segs + [s], segs + parts;
    assert old'[|segs|] == s;
    assert forall k :: 0 <= k < |segs| ==> old'[k] == segs[k] == new'[k];
    CutKept(cmp, v, v', s.lo, s.hi, s.lo);
    CutKept(cmp, v, v', s.lo, s.hi, s.hi + 1);
    NewCut(cmp, v', s.lo, s.hi, right, left, left);
    NewCut(cmp, v', s.lo, s.hi, right, left, right + 1);
    forall k | 0 <= k < |new'| ensures Pending(cmp, v', new'[k]) {
      if k < |segs| {
        assert Apart(old'[k], old'[|segs|]) && Pending(cmp, v, old'[k]);
        CutKept(cmp, v, v', s.lo, s.hi, segs[k].lo);
        CutKept(cmp, v, v', s.lo, s.hi, segs[k].hi + 1);
      }
    }
    forall a, b | 0 <= a < b < |new'| ensures Apart(new'[a], new'[b]) {
      if b < |segs| { assert Apart(old'[a], old'[b]); }
      else if a < |segs| { assert Apart(old'[a], old'[|segs|]); }
    }
    forall i | 0 <= i < |v'| ensures CutSoon(cmp, v', i) || Excused(new', i) {
      PlaceOk(cmp, v, v', segs, s, right, left, parts, i);
    }
  }

  lemma PlaceOk(cmp: Comparator, v: seq<Elem>, v': seq<Elem>, segs: seq<Seg>, s: Seg, right: int, left: int,
                parts: seq<Seg>, i: int)
    requires NearlySorted(cmp, v, segs + [s]) && Shuffled(v, v', s.lo, s.hi)
    requires s.lo <= right < left <= s.hi < |v| && 0 <= s.lo && Parted(cmp, v', s.lo, s.hi, right, left)
    requires Leaves(parts, s.lo, s.hi, right, left) && Cut(cmp, v', s.lo) && Cut(cmp, v', s.hi + 1)
    requires 0 <= i < |v'|
    ensures CutSoon(cmp, v', i) || Excused(segs + parts, i)
  {
    hide Cut, Parted, Shuffled;
    ShuffledLength(v, v', s.lo, s.hi);
    var old', new' := segs + [s], segs + parts;
    if s.lo <= i <= right {
      if right - s.lo > MAX_THRESH {
        var k :| 0 <= k < |parts| && parts[k] == Seg(s.lo, right);
        assert new'[|segs| + k] == parts[k];
      } else {
        NewCut(cmp, v', s.lo, s.hi, right, left, right + 1);
      }
    } else if right < i < left {
      NewCut(cmp, v', s.lo, s.hi, right, left, i + 1);
    } else if left <= i <= s.hi {
      if s.hi - left > MAX_THRESH {
        var k :| 0 <= k < |parts| && parts[k] == Seg(left, s.hi);
        assert new'[|segs| + k] == parts[k];
      }
    } else if CutSoon(cmp, v, i) {
      var c :| i < c <= i + MAX_THRESH + 1 && Cut(cmp, v, c);
      if c <= s.lo || s.hi < c { CutKept(cmp, v, v', s.lo, s.hi, c); }
    } else {
      var k :| 0 <= k < |old'| && old'[k].lo <= i <= old'[k].hi;
      assert k < |segs| ==> new'[k] == old'[k];
    }
  }

  // ---- the depth of the stack ----

  /** The segment at depth `k` has at most 1/2^k of the elements. */
  ghost predicate Halving(segs: seq<Seg>, n: int) {
    forall k {:trigger HalvedAt(segs, n, k)} :: 0 <= k < |segs| ==> HalvedAt(segs, n, k)
  }

  ghost predicate HalvedAt(segs: seq<Seg>, n: int, k: nat)
    requires k < |segs|
  {
    (segs[k].hi - segs[k].lo + 1) * Pow2(k) <= n
  }

  /** Replacing the segment at the top by a part of it, or by both parts with
      the smaller one on top. */
  lemma HalvingStep(segs: seq<Seg>, s: Seg, parts: seq<Seg>, n: int)
    requires Halving(segs + [s], n) && |parts| <= 2
    requires forall k :: 0 <= k < |parts| ==> parts[k].hi - parts[k].lo <= s.hi - s.lo
    requires |parts| == 2 ==> 2 * (parts[1].hi - parts[1].lo + 1) <= s.hi - s.lo + 1
    ensures Halving(segs + parts, n)
  {
    var top := |segs|;
    assert HalvedAt(segs + [s], n, top);
    forall k | 0 <= k < |segs + parts| ensures HalvedAt(segs + parts, n, k) {
      if k < top {
        assert HalvedAt(segs + [s], n, k);
      } else if k == top {
        TimesMono(parts[0].hi - parts[0].lo + 1, s.hi - s.lo + 1, Pow2(top));
      } else {
        TimesMono(2 * (parts[1].hi - parts[1].lo + 1), s.hi - s.lo + 1, Pow2(top));
      }
    }
  }

  lemma Pow2Of30()
    ensures Pow2(30) == 0x4000_0000
  {
    assert Pow2(6) == 64;
    assert Pow2(12) == 0x1000;
    assert Pow2(18) == 0x4_0000;
    assert Pow2(24) == 0x100_0000;
  }

  lemma Pow2Grows(j: nat, k: nat)
    requires j <= k
    ensures Pow2(j) <= Pow2(k)
  {
  }

  /** Segments of five elements or more: the stack never fills up. */
  lemma DepthBound(cmp: Comparator, v: seq<Elem>, segs: seq<Seg>, n: int)
    requires State(cmp, v, segs) && Halving(segs, n) && n <= ULONG_MAX && |segs| > 0
    ensures |segs| <= 30
  {
    var k := |segs| - 1;
    assert Pending(cmp, v, segs[k]);
    TimesMono(5, segs[k].hi - segs[k].lo + 1, Pow2(k));
    assert HalvedAt(segs, n, k);
    if |segs| > 30 {
      Pow2Grows(30, k);
      Pow2Of30();
    }
  }

  /** How much is left to partition. */
  ghost function Weight(segs: seq<Seg>): int {
    if segs == [] then 0
    else Weight(segs[..|segs| - 1]) + 2 * (segs[|segs| - 1].hi - segs[|segs| - 1].lo) + 1
  }

  lemma WeightPush(segs: seq<Seg>, s: Seg)
    ensures Weight(segs + [s]) == Weight(segs) + 2 * (s.hi - s.lo) + 1
  {
  }

  lemma WeightStep(segs: seq<Seg>, s: Seg, parts: seq<Seg>, right: int, left: int)
    requires s.lo <= right < left <= s.hi && Leaves(parts, s.lo, s.hi, right, left)
    ensures Weight(segs + parts) < Weight(segs + [s])
  {
    hide Weight;
    WeightPush(segs, s);
    if |parts| == 0 {
      assert segs + parts == segs;
    } else if |parts| == 1 {
      assert parts == [parts[0]];
      WeightPush(segs, parts[0]);
    } else {
      assert segs + parts == segs + [parts[0]] + [parts[1]];
      WeightPush(segs, parts[0]);
      WeightPush(segs + [parts[0]], parts[1]);
    }
  }

  /** What the loop needs of the state when it takes the top segment. */
  lemma TopSegment(cmp: Comparator, v: seq<Elem>, segs: seq<Seg>)
    requires State(cmp, v, segs) && segs != []
    ensures 0 <= segs[|segs| - 1].lo && segs[|segs| - 1].lo + MAX_THRESH <= segs[|segs| - 1].hi < |v|
    ensures Weight(segs) >= 0
  {
    assert Pending(cmp, v, segs[|segs| - 1]);
    WeightPositive(cmp, v, segs);
  }

  lemma WeightPositive(cmp: Comparator, v: seq<Elem>, segs: seq<Seg>)
    requires forall k :: 0 <= k < |segs| ==> Pending(cmp, v, segs[k])
    ensures Weight(segs) >= 0
  {
  }

  // ---- the insertion phase ----

  /** With everything partitioned the least element is among the first five. */
  lemma LeastIsEarly(cmp: Comparator, w: nat, v: seq<Elem>, t: int, j: int)
    requires TotalPreorder(cmp, w) && Elems(v, w) && NearlySorted(cmp, v, [])
    requires 0 <= t < |v| && forall k :: 0 <= k <= MAX_THRESH && k < |v| ==> cmp(v[t], v[k]) <= 0
    requires 0 <= j < |v|
    ensures cmp(v[t], v[j]) <= 0
  {
    if j > MAX_THRESH {
      assert CutSoon(cmp, v, 0);
      assert cmp(v[0], v[j]) <= 0;
      Trans(cmp, w, v[t], v[0], v[j]);
    }
  }

  ghost predicate SortedUpTo(cmp: Comparator, v: seq<Elem>, r: int) {
    forall i, j :: 0 <= i < j < r && j < |v| ==> cmp(v[i], v[j]) <= 0
  }

  lemma InsertSorted(cmp: Comparator, w: nat, v: seq<Elem>, t: int, r: int)
    requires TotalPreorder(cmp, w) && Elems(v, w) && 0 <= t <= r < |v| && SortedUpTo(cmp, v, r)
    requires t > 0 ==> cmp(v[t - 1], v[r]) <= 0
    requires forall k :: t <= k < r ==> cmp(v[r], v[k]) <= 0
    ensures SortedUpTo(cmp, Rotated(v, t, r), r + 1)
  {
    hide TotalPreorder;
    var v' := Rotated(v, t, r);
    forall i, j | 0 <= i < j < r + 1 ensures cmp(v'[i], v'[j]) <= 0 {
      var i0 := if i < t then i else if i == t then r else i - 1;
      var j0 := if j < t then j else if j == t then r else j - 1;
      assert v'[i] == v[i0] && v'[j] == v[j0];
      if j == t && i < t - 1 {
        Trans(cmp, w, v[i], v[t - 1], v[r]);
      }
    }
  }
}
