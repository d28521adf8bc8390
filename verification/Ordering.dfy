/** Comparison functions over elements of `w` bytes, and sequences of elements. */
module Ordering {
  import opened Memory

  type Elem = seq<byte>
  type Comparator = (Elem, Elem) -> int

  /** The order that qsort and bsearch ask for. */
  ghost predicate TotalPreorder(cmp: Comparator, w: nat) {
    && (forall x, y :: |x| == w && |y| == w ==> (cmp(x, y) < 0 <==> cmp(y, x) > 0))
    && (forall x, y, z :: |x| == w && |y| == w && |z| == w && cmp(x, y) <= 0 && cmp(y, z) <= 0 ==> cmp(x, z) <= 0)
  }

  ghost predicate Elems(v: seq<Elem>, w: nat) {
    forall i :: 0 <= i < |v| ==> |v[i]| == w
  }

  ghost predicate Sorted(cmp: Comparator, v: seq<Elem>) {
    forall i, j :: 0 <= i < j < |v| ==> cmp(v[i], v[j]) <= 0
  }

  lemma Trans(cmp: Comparator, w: nat, x: Elem, y: Elem, z: Elem)
    requires TotalPreorder(cmp, w) && |x| == w && |y| == w && |z| == w && cmp(x, y) <= 0 && cmp(y, z) <= 0
    ensures cmp(x, z) <= 0
  {
  }

  /** x < y is the negation of y <= x. */
  lemma Flip(cmp: Comparator, w: nat, x: Elem, y: Elem)
    requires TotalPreorder(cmp, w) && |x| == w && |y| == w
    ensures cmp(x, y) < 0 <==> !(cmp(y, x) <= 0)
    ensures cmp(x, x) == 0
  {
  }

  // ---- exchanging and rotating elements ----

  function Swapped(v: seq<Elem>, i: int, j: int): seq<Elem>
    requires 0 <= i < |v| && 0 <= j < |v|
  {
    v[i := v[j]][j := v[i]]
  }

  lemma SwappedMultiset(v: seq<Elem>, i: int, j: int)
    requires 0 <= i < |v| && 0 <= j < |v|
    ensures multiset(Swapped(v, i, j)) == multiset(v)
  {
  }

  /** Element `r` moves down to `t`; the elements between move up by one place. */
  function Rotated(v: seq<Elem>, t: int, r: int): seq<Elem>
    requires 0 <= t <= r < |v|
  {
    v[..t] + [v[r]] + v[t..r] + v[r + 1..]
  }

  lemma RotatedMultiset(v: seq<Elem>, t: int, r: int)
    requires 0 <= t <= r < |v|
    ensures multiset(Rotated(v, t, r)) == multiset(v)
  {
    assert v == v[..t] + v[t..r] + [v[r]] + v[r + 1..];
  }

  /** `v'` is `v` with the elements of the segment lo..hi in another order. */
  ghost predicate Shuffled(v: seq<Elem>, v': seq<Elem>, lo: int, hi: int) {
    && 0 <= lo <= hi < |v| && |v'| == |v|
    && multiset(v'[lo..hi + 1]) == multiset(v[lo..hi + 1])
    && forall k :: 0 <= k < |v| && !(lo <= k <= hi) ==> v'[k] == v[k]
  }

  lemma ShuffledSelf(v: seq<Elem>, lo: int, hi: int)
    requires 0 <= lo <= hi < |v|
    ensures Shuffled(v, v, lo, hi)
  {
  }

  lemma ShuffledSwap(v0: seq<Elem>, v: seq<Elem>, lo: int, hi: int, i: int, j: int)
    requires Shuffled(v0, v, lo, hi) && lo <= i <= hi && lo <= j <= hi
    ensures Shuffled(v0, Swapped(v, i, j), lo, hi)
  {
    hide Swapped;
    SwappedMultiset(v[lo..hi + 1], i - lo, j - lo);
    SwappedSlice(v, lo, hi, i, j);
  }

  lemma SwappedSlice(v: seq<Elem>, lo: int, hi: int, i: int, j: int)
    requires 0 <= lo <= hi < |v| && lo <= i <= hi && lo <= j <= hi
    ensures |Swapped(v, i, j)| == |v| && forall k :: 0 <= k < |v| && !(lo <= k <= hi) ==> Swapped(v, i, j)[k] == v[k]
    ensures Swapped(v, i, j)[lo..hi + 1] == Swapped(v[lo..hi + 1], i - lo, j - lo)
  {
  }

  lemma ShuffledMultiset(v: seq<Elem>, v': seq<Elem>, lo: int, hi: int)
    requires Shuffled(v, v', lo, hi)
    ensures multiset(v') == multiset(v)
  {
    assert v == v[..lo] + v[lo..hi + 1] + v[hi + 1..];
    assert v' == v'[..lo] + v'[lo..hi + 1] + v'[hi + 1..];
    assert v'[..lo] == v[..lo] && v'[hi + 1..] == v[hi + 1..];
  }

  /** Each element of the shuffled segment comes from the segment. */
  lemma ShuffledSource(v: seq<Elem>, v': seq<Elem>, lo: int, hi: int, i: int) returns (j: int)
    requires Shuffled(v, v', lo, hi) && lo <= i <= hi
    ensures lo <= j <= hi && v[j] == v'[i]
  {
    var s, s' := v[lo..hi + 1], v'[lo..hi + 1];
    assert s'[i - lo] in multiset(s');
    assert s'[i - lo] in s;
    var k :| 0 <= k < |s| && s[k] == s'[i - lo];
    j := lo + k;
  }
}
