/** qsort: quicksort with an explicit stack down to small segments, then one
    insertion sort over the whole table; and bsearch on its result. */
module Qsort {
  import opened CInt
  import opened Ordering
  import opened Bytes
  import opened QsortLemmas
  import opened QsortBounds

  method Compare(a: Table, cmp: Comparator, i: int, j: int) returns (c: int)
    requires a.Valid() && 0 <= i < a.n && 0 <= j < a.n
    ensures c == cmp(a.Contents()[i], a.Contents()[j])
  {
    var x := a.Get(i);
    var y := a.Get(j);
    c := cmp(x, y);
  }

  /** Median of three: the first, middle and last element get into order. */
  method MedianOfThree(a: Table, cmp: Comparator, lo: int, mid: int, hi: int)
    requires a.Valid() && TotalPreorder(cmp, a.w) && 0 <= lo < mid < hi < a.n
    modifies a.data
    ensures Shuffled(old(a.Contents()), a.Contents(), lo, hi)
    ensures cmp(a.Contents()[lo], a.Contents()[mid]) <= 0 && cmp(a.Contents()[mid], a.Contents()[hi]) <= 0
  {
    hide View, Shuffled, TotalPreorder;
    ghost var v0 := a.Contents();
    ShuffledSelf(v0, lo, hi);
    ShuffledSwap(v0, v0, lo, hi, mid, lo);
    Flip(cmp, a.w, v0[mid], v0[lo]);
    var c := Compare(a, cmp, mid, lo);
    if c < 0 {
      a.Swap(mid, lo);
    }
    ghost var v1 := a.Contents();
    ShuffledSwap(v0, v1, lo, hi, mid, hi);
    Flip(cmp, a.w, v1[hi], v1[mid]);
    c := Compare(a, cmp, hi, mid);
    if c < 0 {
      a.Swap(mid, hi);
      ghost var v2 := a.Contents();
      ShuffledSwap(v0, v2, lo, hi, mid, lo);
      Flip(cmp, a.w, v2[mid], v2[lo]);
      c := Compare(a, cmp, mid, lo);
      if c < 0 {
        a.Swap(mid, lo);
      }
    }
  }

  /** What the walls-collapsing loop keeps: left of the left pointer nothing is
      greater than the pivot, right of the right pointer nothing is less. */
  ghost predicate Walls(cmp: Comparator, v: seq<Elem>, pivot: Elem, lo: int, hi: int, left: int, right: int)
    requires 0 <= lo && hi < |v|
  {
    && (forall k :: lo <= k < left && k <= hi ==> cmp(v[k], pivot) <= 0)
    && (forall k :: right < k <= hi && lo <= k ==> cmp(pivot, v[k]) <= 0)
  }

  lemma WallsStart(cmp: Comparator, v: seq<Elem>, lo: int, mid: int, hi: int)
    requires 0 <= lo < mid < hi < |v| && cmp(v[lo], v[mid]) <= 0 && cmp(v[mid], v[hi]) <= 0
    ensures Walls(cmp, v, v[mid], lo, hi, lo + 1, hi - 1)
  {
  }

  lemma WallsSwap(cmp: Comparator, v: seq<Elem>, pivot: Elem, lo: int, hi: int, left: int, right: int)
    requires 0 <= lo <= left < right <= hi < |v| && Walls(cmp, v, pivot, lo, hi, left, right)
    requires cmp(pivot, v[left]) <= 0 && cmp(v[right], pivot) <= 0
    ensures Walls(cmp, Swapped(v, left, right), pivot, lo, hi, left + 1, right - 1)
  {
  }

  lemma WallsMeet(cmp: Comparator, v: seq<Elem>, pivot: Elem, lo: int, hi: int, p: int)
    requires 0 <= lo <= p <= hi < |v| && Walls(cmp, v, pivot, lo, hi, p, p)
    requires cmp(pivot, v[p]) <= 0 && cmp(v[p], pivot) <= 0
    ensures Walls(cmp, v, pivot, lo, hi, p + 1, p - 1)
  {
  }

  /** Moves the left pointer to an element that is not less than the pivot; an
      element at or before `hi` stops it. */
  method ScanUp(a: Table, cmp: Comparator, pivot: Elem, lo: int, hi: int, left0: int, right: int) returns (left: int)
    requires a.Valid() && TotalPreorder(cmp, a.w) && |pivot| == a.w && 0 <= lo < left0 <= hi < a.n && right < hi
    requires Walls(cmp, a.Contents(), pivot, lo, hi, left0, right)
    ensures left0 <= left <= hi && cmp(pivot, a.Contents()[left]) <= 0
    ensures left <= right + 1 || left == left0
    ensures Walls(cmp, a.Contents(), pivot, lo, hi, left, right)
  {
    hide View, TotalPreorder;
    left := left0;
    var x := a.Get(left);
    while cmp(x, pivot) < 0
      invariant left0 <= left <= hi && x == a.Contents()[left]
      invariant left <= right + 1 || left == left0
      invariant Walls(cmp, a.Contents(), pivot, lo, hi, left, right)
      decreases hi - left
    {
      Flip(cmp, a.w, x, pivot);
      left := left + 1;
      x := a.Get(left);
    }
    Flip(cmp, a.w, x, pivot);
  }

  method ScanDown(a: Table, cmp: Comparator, pivot: Elem, lo: int, hi: int, left: int, right0: int) returns (right: int)
    requires a.Valid() && TotalPreorder(cmp, a.w) && |pivot| == a.w && 0 <= lo <= right0 < hi < a.n && lo < left
    requires Walls(cmp, a.Contents(), pivot, lo, hi, left, right0)
    ensures lo <= right <= right0 && cmp(a.Contents()[right], pivot) <= 0
    ensures left - 1 <= right || right == right0
    ensures Walls(cmp, a.Contents(), pivot, lo, hi, left, right)
  {
    hide View, TotalPreorder;
    right := right0;
    var x := a.Get(right);
    while cmp(pivot, x) < 0
      invariant lo <= right <= right0 && x == a.Contents()[right]
      invariant left - 1 <= right || right == right0
      invariant Walls(cmp, a.Contents(), pivot, lo, hi, left, right)
      decreases right
    {
      Flip(cmp, a.w, pivot, x);
      right := right - 1;
      x := a.Get(right);
    }
    Flip(cmp, a.w, pivot, x);
  }

  /** Partitions the segment lo..hi around the median of three of its elements. */
  method Partition(a: Table, cmp: Comparator, lo: int, hi: int) returns (right: int, left: int)
    requires a.Valid() && TotalPreorder(cmp, a.w) && 0 <= lo && lo + 2 <= hi < a.n
    modifies a.data
    ensures lo <= right < left <= hi
    ensures Shuffled(old(a.Contents()), a.Contents(), lo, hi)
    ensures Parted(cmp, a.Contents(), lo, hi, right, left)
  {
    hide View, TotalPreorder, Walls, Shuffled, Parted, Swapped;
    ghost var v0 := a.Contents();
    var mid := lo + (hi - lo) / 2;
    MedianOfThree(a, cmp, lo, mid, hi);
    var pivot := a.Get(mid);
    left := lo + 1;
    right := hi - 1;
    WallsStart(cmp, a.Contents(), lo, mid, hi);
    while left <= right
      invariant lo < left <= hi && lo <= right < hi && left <= right + 2
      invariant Shuffled(v0, a.Contents(), lo, hi)
      invariant Walls(cmp, a.Contents(), pivot, lo, hi, left, right)
      decreases right - left + 2
    {
      left := ScanUp(a, cmp, pivot, lo, hi, left, right);
      right := ScanDown(a, cmp, pivot, lo, hi, left, right);
      if left < right {
        ShuffledSwap(v0, a.Contents(), lo, hi, left, right);
        WallsSwap(cmp, a.Contents(), pivot, lo, hi, left, right);
        a.Swap(left, right);
        left := left + 1;
        right := right - 1;
      } else if left == right {
        WallsMeet(cmp, a.Contents(), pivot, lo, hi, left);
        left := left + 1;
        right := right - 1;
        break;
      }
    }
    WallsPart(cmp, a.w, a.Contents(), pivot, lo, hi, left, right);
  }

  /** Once the pointers have crossed the segment is partitioned. */
  lemma WallsPart(cmp: Comparator, w: nat, v: seq<Elem>, pivot: Elem, lo: int, hi: int, left: int, right: int)
    requires TotalPreorder(cmp, w) && Elems(v, w) && |pivot| == w && 0 <= lo <= right < left <= hi < |v|
    requires left <= right + 2 && Walls(cmp, v, pivot, lo, hi, left, right)
    ensures Parted(cmp, v, lo, hi, right, left)
  {
  }

  lemma StartState(cmp: Comparator, v: seq<Elem>)
    requires |v| > MAX_THRESH
    ensures State(cmp, v, [Seg(0, |v| - 1)]) && Halving([Seg(0, |v| - 1)], |v|)
  {
    assert HalvedAt([Seg(0, |v| - 1)], |v|, 0);
    assert [Seg(0, |v| - 1)][0].hi == |v| - 1;
  }

  /** The parts of a segment of the table are compared as their sizes. */
  lemma PartsExact(a: Table, s: Seg, right: int, left: int)
    requires InMemory(0, a.n, a.w) && MAX_THRESH < a.n
    requires 0 <= s.lo <= right < left <= s.hi < a.n
    ensures IsSmall(a.w, right - s.lo) <==> right - s.lo <= MAX_THRESH
    ensures IsSmall(a.w, s.hi - left) <==> s.hi - left <= MAX_THRESH
    ensures (a.n - 7) * a.w <= LONG_MAX && right - s.lo > MAX_THRESH && s.hi - left > MAX_THRESH ==>
      (LeftIsLarger(a.w, s.lo, right, left, s.hi) <==> right - s.lo > s.hi - left)
  {
    SmallExact(a.n, a.w, right - s.lo);
    SmallExact(a.n, a.w, s.hi - left);
    ComparisonWraps(a.n, a.w);
    assert BothLarge(a.n, s.lo, right, left, s.hi) && (a.n - 7) * a.w <= LONG_MAX ==>
      ComparesWell(a.w, s.lo, right, left, s.hi);
  }

  /** The quicksort phase. The segments to do are on the stack, whose slot 0 is
      a dummy, and in `lo` and `hi`. The result says whether the stack was big
      enough; if not, there are 33 segments to do, for 31 slots and one in hand. */
  method PartitionAll(a: Table, cmp: Comparator) returns (ok: bool, ghost segs: seq<Seg>)
    requires a.Valid() && TotalPreorder(cmp, a.w) && InMemory(0, a.n, a.w) && MAX_THRESH < a.n
    modifies a.data
    ensures multiset(a.Contents()) == multiset(old(a.Contents()))
    ensures ok ==> NearlySorted(cmp, a.Contents(), [])
    ensures !ok ==> |segs| == 33 && State(cmp, a.Contents(), segs)
    ensures (a.n - 7) * a.w <= LONG_MAX ==> ok
  {
    hide View, TotalPreorder, State, Halving, Leaves, Weight, Parted, Shuffled, Excused, InMemory, NearlySorted;
    hide IsSmall, LeftIsLarger;
    var stack := new Seg[STACK_SIZE];
    var lo, hi, top := 0, a.n - 1, 1;
    segs := [Seg(lo, hi)];
    ghost var bounded := (a.n - 7) * a.w <= LONG_MAX;
    StartState(cmp, a.Contents());
    CountBelow(a.n, a.w);
    while top > 0
      invariant 0 <= top == |segs| <= STACK_SIZE
      invariant forall k :: 0 <= k < top - 1 ==> stack[k + 1] == segs[k]
      invariant top > 0 ==> segs[top - 1] == Seg(lo, hi)
      invariant State(cmp, a.Contents(), segs) && (bounded ==> Halving(segs, a.n))
      invariant multiset(a.Contents()) == multiset(old(a.Contents()))
      decreases Weight(segs)
    {
      ghost var v, s, rest := a.Contents(), Seg(lo, hi), segs[..top - 1];
      assert segs == rest + [s];
      TopSegment(cmp, v, segs);
      if bounded { DepthBound(cmp, v, segs, a.n); }
      var right, left := Partition(a, cmp, lo, hi);
      PartsExact(a, s, right, left);
      ShuffledMultiset(v, a.Contents(), s.lo, s.hi);
      ghost var parts: seq<Seg>;
      if IsSmall(a.w, right - lo) {
        if IsSmall(a.w, hi - left) {
          parts := [];
          top := top - 1;
          lo, hi := stack[top].lo, stack[top].hi;
        } else {
          parts := [Seg(left, hi)];
          lo := left;
        }
      } else if IsSmall(a.w, hi - left) {
        parts := [Seg(lo, right)];
        hi := right;
      } else if top == STACK_SIZE {
        parts := [Seg(lo, right), Seg(left, hi)];
        LeavesOk(s.lo, s.hi, right, left, parts);
        PartitionStep(cmp, v, a.Contents(), rest, s, right, left, parts);
        return false, rest + parts;
      } else if LeftIsLarger(a.w, lo, right, left, hi) {
        parts := [Seg(lo, right), Seg(left, hi)];
        stack[top] := Seg(lo, right);
        top := top + 1;
        lo := left;
      } else {
        parts := [Seg(left, hi), Seg(lo, right)];
        stack[top] := Seg(left, hi);
        top := top + 1;
        hi := right;
      }
      LeavesOk(s.lo, s.hi, right, left, parts);
      PartitionStep(cmp, v, a.Contents(), rest, s, right, left, parts);
      if bounded { HalvingStep(rest, s, parts, a.n); }
      WeightStep(rest, s, parts, right, left);
      segs := rest + parts;
    }
    StateDone(cmp, a.Contents());
    ok := true;
  }

  lemma CountBelow(n: nat, w: nat)
    requires InMemory(0, n, w)
    ensures n <= ULONG_MAX
  {
    TimesMono(1, w, n);
  }

  lemma LeavesOk(lo: int, hi: int, right: int, left: int, parts: seq<Seg>)
    requires lo <= right < left <= hi
    requires
      var l, r := right - lo > MAX_THRESH, hi - left > MAX_THRESH;
      if l && r then parts == [Seg(lo, right), Seg(left, hi)] || parts == [Seg(left, hi), Seg(lo, right)]
      else parts == (if l then [Seg(lo, right)] else if r then [Seg(left, hi)] else [])
    ensures Leaves(parts, lo, hi, right, left)
  {
  }

  lemma StateDone(cmp: Comparator, v: seq<Elem>)
    requires State(cmp, v, [])
    ensures NearlySorted(cmp, v, [])
  {
  }

  ghost predicate LeastFirst(cmp: Comparator, v: seq<Elem>) {
    forall j :: 0 <= j < |v| ==> cmp(v[0], v[j]) <= 0
  }

  /** Puts the least of the first five elements, which is the least of all, in
      front; unless the threshold wraps, and then it does nothing. */
  method LeastToFront(a: Table, base: nat, cmp: Comparator)
    requires a.Valid() && TotalPreorder(cmp, a.w) && InMemory(base, a.n, a.w)
    requires 0 < a.n && NearlySorted(cmp, a.Contents(), [])
    modifies a.data
    ensures multiset(a.Contents()) == multiset(old(a.Contents()))
    ensures LeastFirst(cmp, a.Contents()) <==> Reaches(base, a.n, a.w) || LeastFirst(cmp, old(a.Contents()))
  {
    hide View, TotalPreorder, NearlySorted, LeastFirst, InMemory, Reaches, IsSearched;
    ghost var v := a.Contents();
    var tmp, run := 0, 1;
    Flip(cmp, a.w, v[0], v[0]);
    SearchExact(base, a.n, a.w, 1);
    while IsSearched(base, a.n, a.w, run)
      invariant 0 <= tmp < run && a.Contents() == v
      invariant Reaches(base, a.n, a.w) || run == 1
      invariant IsSearched(base, a.n, a.w, run) ==> run < a.n
      invariant tmp < a.n && forall k :: 0 <= k < run && k < a.n ==> cmp(v[tmp], v[k]) <= 0
      decreases if IsSearched(base, a.n, a.w, run) then a.n - run else 0
    {
      var c := Compare(a, cmp, run, tmp);
      Flip(cmp, a.w, v[run], v[tmp]);
      Flip(cmp, a.w, v[run], v[run]);
      if c < 0 {
        forall k | 0 <= k < run ensures cmp(v[run], v[k]) <= 0 { Trans(cmp, a.w, v[run], v[tmp], v[k]); }
        tmp := run;
      }
      run := run + 1;
      SearchExact(base, a.n, a.w, run);
    }
    SearchExact(base, a.n, a.w, run);
    LeastSwapped(cmp, v, tmp);
    if Reaches(base, a.n, a.w) {
      forall j | 0 <= j < |v| ensures cmp(v[tmp], v[j]) <= 0 { LeastIsEarly(cmp, a.w, v, tmp, j); }
    }
    if tmp != 0 {
      a.Swap(tmp, 0);
    }
  }

  lemma LeastSwapped(cmp: Comparator, v: seq<Elem>, t: int)
    requires 0 <= t < |v|
    ensures (forall j :: 0 <= j < |v| ==> cmp(v[t], v[j]) <= 0) ==> LeastFirst(cmp, Swapped(v, t, 0))
    ensures multiset(Swapped(v, t, 0)) == multiset(v)
    ensures Swapped(v, 0, 0) == v
  {
  }

  /** Where the element `run` belongs in the sorted part before it. Nothing but
      the least element in front stops the search; 0 stands for a search that
      has left the table. */
  method FindPlace(a: Table, cmp: Comparator, run: int) returns (t: int)
    requires a.Valid() && TotalPreorder(cmp, a.w) && 1 < run < a.n
    ensures 0 <= t <= run && (t > 0 ==> cmp(a.Contents()[t - 1], a.Contents()[run]) <= 0)
    ensures forall k :: t <= k < run ==> cmp(a.Contents()[k], a.Contents()[run]) > 0
  {
    hide View, TotalPreorder;
    ghost var v := a.Contents();
    var tmp := run - 1;
    var c := Compare(a, cmp, run, tmp);
    Flip(cmp, a.w, v[run], v[tmp]);
    while c < 0
      invariant 0 <= tmp < run && c == cmp(v[run], v[tmp])
      invariant c < 0 <==> cmp(v[tmp], v[run]) > 0
      invariant forall k :: tmp < k < run ==> cmp(v[k], v[run]) > 0
      decreases tmp
    {
      tmp := tmp - 1;
      if tmp < 0 {
        return 0;
      }
      c := Compare(a, cmp, run, tmp);
      Flip(cmp, a.w, v[run], v[tmp]);
    }
    t := tmp + 1;
  }

  /** Whether the insertion sort works: no search leaves the table, the third
      place of a table of one element is seen to be behind it, and in the end
      the table is sorted. */
  ghost predicate Inserts(cmp: Comparator, v: seq<Elem>, base: nat, w: nat) {
    LeastFirst(cmp, v) && (|v| == 1 ==> IsBehind(base, 1, w, 2))
  }

  method InsertionSort(a: Table, base: nat, cmp: Comparator) returns (ok: bool)
    requires a.Valid() && TotalPreorder(cmp, a.w) && InMemory(base, a.n, a.w) && 0 < a.n
    modifies a.data
    ensures multiset(a.Contents()) == multiset(old(a.Contents()))
    ensures ok && Sorted(cmp, a.Contents()) <==> Inserts(cmp, old(a.Contents()), base, a.w)
  {
    hide View, TotalPreorder, LeastFirst, SortedUpTo, Sorted, Rotated, InMemory, IsBehind;
    ghost var v0 := a.Contents();
    var run := 2;
    if LeastFirst(cmp, v0) { TwoSorted(cmp, v0); }
    if a.n >= 2 { BehindExact(base, a.n, a.w, run); }
    while !IsBehind(base, a.n, a.w, run)
      invariant 2 <= run && (a.n >= 2 ==> run <= a.n && (IsBehind(base, a.n, a.w, run) <==> run == a.n))
      invariant a.n == 1 ==> run == 2
      invariant multiset(a.Contents()) == multiset(v0) && a.Contents()[0] == v0[0]
      invariant LeastFirst(cmp, v0) ==> LeastFirst(cmp, a.Contents()) && SortedUpTo(cmp, a.Contents(), run)
      decreases a.n - run
    {
      if run >= a.n {
        return false;
      }
      ghost var v := a.Contents();
      var t := FindPlace(a, cmp, run);
      if t == 0 {
        assert cmp(a.Contents()[0], a.Contents()[run]) > 0;
        NotLeast(cmp, v, run);
        return false;
      }
      forall k | t <= k < run ensures cmp(v[run], v[k]) <= 0 { Flip(cmp, a.w, v[run], v[k]); }
      if LeastFirst(cmp, v0) {
        InsertSorted(cmp, a.w, v, t, run);
        LeastStays(cmp, v, t, run);
      }
      RotatedMultiset(v, t, run);
      RotatedFirst(v, t, run);
      if t != run {
        a.Rotate(t, run);
      }
      run := run + 1;
      BehindExact(base, a.n, a.w, run);
    }
    if LeastFirst(cmp, v0) {
      AllSorted(cmp, a.Contents(), run);
    } else if Sorted(cmp, a.Contents()) {
      FirstOfSorted(cmp, a.w, a.Contents(), v0);
    }
    ok := true;
  }

  lemma NotLeast(cmp: Comparator, v: seq<Elem>, r: int)
    requires 0 < r < |v| && cmp(v[0], v[r]) > 0
    ensures !LeastFirst(cmp, v)
  {
  }

  lemma RotatedFirst(v: seq<Elem>, t: int, r: int)
    requires 0 < t <= r < |v|
    ensures Rotated(v, t, r)[0] == v[0] && Rotated(v, r, r) == v
  {
  }

  /** The first element of a sorted table is the least of its elements, in
      whatever order they have been. */
  lemma FirstOfSorted(cmp: Comparator, w: nat, v: seq<Elem>, v0: seq<Elem>)
    requires TotalPreorder(cmp, w) && Elems(v, w) && Sorted(cmp, v) && v != []
    requires multiset(v) == multiset(v0) && v0[0] == v[0]
    ensures LeastFirst(cmp, v0)
  {
    forall j | 0 <= j < |v0| ensures cmp(v0[0], v0[j]) <= 0 {
      assert v0[j] in multiset(v0);
      assert v0[j] in v;
      var i :| 0 <= i < |v| && v[i] == v0[j];
      Flip(cmp, w, v[0], v[0]);
    }
  }

  lemma TwoSorted(cmp: Comparator, v: seq<Elem>)
    requires LeastFirst(cmp, v)
    ensures SortedUpTo(cmp, v, 2)
  {
  }

  lemma AllSorted(cmp: Comparator, v: seq<Elem>, r: int)
    requires SortedUpTo(cmp, v, r) && |v| <= r
    ensures Sorted(cmp, v)
  {
  }

  lemma LeastStays(cmp: Comparator, v: seq<Elem>, t: int, r: int)
    requires LeastFirst(cmp, v) && 0 < t <= r < |v|
    ensures LeastFirst(cmp, Rotated(v, t, r))
  {
  }

  /** Sorts the table for any total preorder. The result says whether qsort has
      stayed within the table and its stack. It has, and has sorted the table,
      if the table is `Sortable`; up to four elements it has done so otherwise
      only if the least element was in front, and with more of them it has sorted
      whenever its stack was big enough. */
  method Qsort(a: Table, base: nat, cmp: Comparator) returns (ok: bool)
    requires a.Valid() && TotalPreorder(cmp, a.w) && InMemory(base, a.n, a.w)
    modifies a.data
    ensures multiset(a.Contents()) == multiset(old(a.Contents()))
    ensures Sortable(base, a.n, a.w) ==> ok && Sorted(cmp, a.Contents())
    ensures a.n > MAX_THRESH && ok ==> Sorted(cmp, a.Contents())
    ensures 2 <= a.n <= MAX_THRESH ==>
      (ok && Sorted(cmp, a.Contents()) <==> Sortable(base, a.n, a.w) || LeastFirst(cmp, old(a.Contents())))
    ensures a.n == 1 ==> (ok <==> Sortable(base, a.n, a.w))
  {
    assert InMemory(0, a.n, a.w);
    hide View, TotalPreorder, InMemory, NearlySorted, Reaches, IsBehind, LeastFirst, Sorted;
    ghost var v := a.Contents();
    ShortSorted(cmp, a.w, v);
    if a.n == 0 {
      return true;
    }
    if a.n > MAX_THRESH {
      LargeReaches(base, a.n, a.w);
      ghost var segs;
      ok, segs := PartitionAll(a, cmp);
      if !ok {
        return;
      }
    }
    LeastToFront(a, base, cmp);
    ShortSorted(cmp, a.w, a.Contents());
    ok := InsertionSort(a, base, cmp);
    ShortSorted(cmp, a.w, a.Contents());
  }

  lemma ShortSorted(cmp: Comparator, w: nat, v: seq<Elem>)
    requires TotalPreorder(cmp, w) && Elems(v, w)
    ensures |v| <= MAX_THRESH ==> NearlySorted(cmp, v, [])
    ensures |v| <= 1 ==> Sorted(cmp, v) && LeastFirst(cmp, v)
  {
    assert Cut(cmp, v, |v|);
    if |v| == 1 { Flip(cmp, w, v[0], v[0]); }
  }

  /** Half the sum, which is taken in 32 bits. */
  function Middle(a: int, b: int): int {
    (a + b) % TWO_32 / 2
  }

  ghost predicate MiddleOk(a: int, b: int) {
    Middle(a, b) == (a + b) / 2
  }

  /** The middle is right for all parts of a table exactly up to this size. */
  lemma MiddleWraps(n: int)
    requires 0 <= n < TWO_32
    ensures (forall a, b :: 0 <= a < b <= n ==> MiddleOk(a, b)) <==> n <= 0x8000_0000
  {
    if n > 0x8000_0000 { assert !MiddleOk(n - 1, n); }
  }

  /** The place of an element that compares equal to `key`, or -1. */
  method Bsearch(key: Elem, a: Table, cmp: Comparator) returns (r: int)
    requires a.Valid() && TotalPreorder(cmp, a.w) && |key| == a.w && a.n <= 0x8000_0000
    requires Sorted(cmp, a.Contents())
    ensures -1 <= r < a.n
    ensures r >= 0 ==> cmp(key, a.Contents()[r]) == 0
    ensures r < 0 <==> forall i :: 0 <= i < a.n ==> cmp(key, a.Contents()[i]) != 0
  {
    hide View, TotalPreorder;
    ghost var v := a.Contents();
    var lo, hi := 0, a.n;
    while lo < hi
      invariant 0 <= lo <= hi <= a.n
      invariant forall i :: 0 <= i < lo ==> cmp(key, v[i]) > 0
      invariant forall i :: hi <= i < a.n ==> cmp(key, v[i]) < 0
    {
      MiddleWraps(a.n);
      assert MiddleOk(lo, hi);
      var c := Middle(lo, hi);
      var p := a.Get(c);
      var dir := cmp(key, p);
      if dir < 0 {
        forall i | c <= i < a.n ensures cmp(key, v[i]) < 0 { BelowAll(cmp, a.w, v, key, c, i); }
        hi := c;
      } else if dir > 0 {
        forall i | 0 <= i <= c ensures cmp(key, v[i]) > 0 { AboveAll(cmp, a.w, v, key, c, i); }
        lo := c + 1;
      } else {
        return c;
      }
    }
    return -1;
  }

  lemma BelowAll(cmp: Comparator, w: nat, v: seq<Elem>, key: Elem, c: int, i: int)
    requires TotalPreorder(cmp, w) && Elems(v, w) && |key| == w && Sorted(cmp, v)
    requires 0 <= c <= i < |v| && cmp(key, v[c]) < 0
    ensures cmp(key, v[i]) < 0
  {
  }

  lemma AboveAll(cmp: Comparator, w: nat, v: seq<Elem>, key: Elem, c: int, i: int)
    requires TotalPreorder(cmp, w) && Elems(v, w) && |key| == w && Sorted(cmp, v)
    requires 0 <= i <= c < |v| && cmp(key, v[c]) > 0
    ensures cmp(key, v[i]) > 0
  {
  }
}
