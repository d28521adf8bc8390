/** The circular, doubly linked list through the headers of a heap. The list
    is given by its sentinel and the addresses of its other nodes in order. */
module HeapList {
  import opened Memory
  import opened HeapLayout

  const NEXT := 4  // offsets in struct mem_chunk
  const PREV := 8

  /** Node `i` of the ring; one step before the first node and one step after
      the last one lies the sentinel. */
  function At(head: int, l: seq<int>, i: int): int {
    if 0 <= i < |l| then l[i] else head
  }

  function InsertAt(l: seq<int>, k: int, r: int): seq<int>
    requires 0 <= k <= |l|
  {
    l[..k] + [r] + l[k..]
  }

  function RemoveAt(l: seq<int>, k: int): seq<int>
    requires 0 <= k < |l|
  {
    l[..k] + l[k + 1..]
  }

  /** Node `i` and its successor point at each other. */
  ghost predicate LinkOk(m: Mem, head: int, l: seq<int>, i: int) {
    && WordIs(m, At(head, l, i) + NEXT, At(head, l, i + 1))
    && WordIs(m, At(head, l, i + 1) + PREV, At(head, l, i))
  }

  ghost predicate Ring(m: Mem, head: int, l: seq<int>) {
    forall i {:trigger LinkOk(m, head, l, i)} :: -1 <= i < |l| ==> LinkOk(m, head, l, i)
  }

  ghost predicate InOrder(l: seq<int>, i: int, j: int) {
    0 <= i < j < |l| ==> l[i] < l[j]
  }

  ghost predicate NodeOk(t: Tiles, l: seq<int>, i: int) {
    0 <= i < |l| ==> l[i] in t && t[l[i]].kind != Used
  }

  ghost predicate Found(t: Tiles, l: seq<int>, a: int) {
    a in t && t[a].kind != Used ==> exists i :: 0 <= i < |l| && l[i] == a
  }

  /** The nodes of the list are the region headers and the free chunks, in
      ascending order of address. */
  ghost predicate Listed(t: Tiles, l: seq<int>) {
    && (forall i, j {:trigger InOrder(l, i, j)} :: InOrder(l, i, j))
    && (forall i {:trigger NodeOk(t, l, i)} :: NodeOk(t, l, i))
    && (forall a {:trigger Found(t, l, a)} :: Found(t, l, a))
  }

  ghost predicate SameLink(m: Mem, m': Mem, a: int, offset: int) {
    WordAt(m, a + offset) ==> WordAt(m', a + offset) && Load32(m', a + offset) == Load32(m, a + offset)
  }

  /** Nodes `from` to `to` (exclusive) give way to the nodes `x`. */
  function Replace(l: seq<int>, from: int, to: int, x: seq<int>): seq<int>
    requires 0 <= from <= to <= |l|
  {
    l[..from] + x + l[to..]
  }

  lemma RingReplace(m: Mem, m': Mem, head: int, l: seq<int>, from: int, to: int, x: seq<int>)
    requires Ring(m, head, l) && 0 <= from <= to <= |l|
    requires forall i :: from - 1 <= i < from + |x| ==> LinkOk(m', head, Replace(l, from, to, x), i)
    requires forall i :: -1 <= i < |l| && !(from - 1 <= i < to) ==> SameLink(m, m', At(head, l, i), NEXT)
    requires forall i :: 0 <= i <= |l| && !(from <= i <= to) ==> SameLink(m, m', At(head, l, i), PREV)
    ensures Ring(m', head, Replace(l, from, to, x))
  {
    var l' := Replace(l, from, to, x);
    forall i | -1 <= i < |l'| ensures LinkOk(m', head, l', i) {
      if i < from - 1 { assert LinkOk(m, head, l, i); }
      if i >= from + |x| { assert LinkOk(m, head, l, i - |x| + to - from); }
    }
  }

  ghost predicate SameListed(t: Tiles, t': Tiles, a: int) {
    (a in t && t[a].kind != Used) <==> (a in t' && t'[a].kind != Used)
  }

  lemma ListedInsert(t: Tiles, t': Tiles, l: seq<int>, k: int, r: int)
    requires Listed(t, l) && 0 <= k <= |l|
    requires forall i :: 0 <= i < k ==> l[i] < r
    requires forall i :: k <= i < |l| ==> r < l[i]
    requires r in t' && t'[r].kind != Used
    requires forall a :: a != r ==> SameListed(t, t', a)
    ensures Listed(t', InsertAt(l, k, r))
  {
    var l' := InsertAt(l, k, r);
    forall i, j ensures InOrder(l', i, j) {
      assert InOrder(l, if i < k then i else i - 1, if j < k then j else j - 1);
    }
    forall i ensures NodeOk(t', l', i) {
      if 0 <= i < |l'| && i != k {
        assert l'[i] == l[if i < k then i else i - 1];
        assert NodeOk(t, l, if i < k then i else i - 1);
        assert SameListed(t, t', l'[i]);
      }
    }
    forall a ensures Found(t', l', a) {
      if a == r {
        assert l'[k] == a;
      } else if a in t' && t'[a].kind != Used {
        assert SameListed(t, t', a) && Found(t, l, a);
        var j :| 0 <= j < |l| && l[j] == a;
        assert l'[if j < k then j else j + 1] == a;
      }
    }
  }

  lemma ListedRemove(t: Tiles, t': Tiles, l: seq<int>, k: int)
    requires Listed(t, l) && 0 <= k < |l|
    requires !(l[k] in t' && t'[l[k]].kind != Used)
    requires forall a :: a != l[k] ==> SameListed(t, t', a)
    ensures Listed(t', RemoveAt(l, k))
  {
    var l' := RemoveAt(l, k);
    forall i, j ensures InOrder(l', i, j) {
      assert InOrder(l, if i < k then i else i + 1, if j < k then j else j + 1);
    }
    forall i ensures NodeOk(t', l', i) {
      if 0 <= i < |l'| {
        var i0 := if i < k then i else i + 1;
        assert NodeOk(t, l, i0) && InOrder(l, i0, k) && InOrder(l, k, i0);
        assert SameListed(t, t', l'[i]);
      }
    }
    forall a ensures Found(t', l', a) {
      if a in t' && t'[a].kind != Used {
        assert SameListed(t, t', a) && Found(t, l, a);
        var j :| 0 <= j < |l| && l[j] == a;
        assert l'[if j < k then j else j - 1] == a;
      }
    }
  }
}
