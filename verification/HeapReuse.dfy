/** What is freed can be had again, and what malloc gave need not move. */
module HeapReuse {
  import opened CInt
  import opened HeapLayout
  import opened HeapList
  import opened HeapWords
  import opened Heap

  /** Behind a free chunk there is a live block, or the end of the region. */
  lemma NextIsLive(t: Tiles, f: int)
    requires Tiled(t) && Settled(t) && f in t && t[f].kind == Kind.Free && f + t[f].size < t[f].end
    ensures f + t[f].size in Live(t) && Live(t)[f + t[f].size] > 0
  {
    var e := f + t[f].size;
    assert TileOk(t, f) && TileOk(t, e) && NoFreeAfter(t, f);
  }

  /** Bytes of a region in which there is no live block lie in one free chunk. */
  lemma FreedIsFree(t: Tiles, q: int, p: int, size: int) returns (f: int)
    requires Tiled(t) && Settled(t) && q in Regions(t)
    requires q + SBRK_EXTRA <= p && 0 < size && p + size <= q + Regions(t)[q]
    requires forall b :: b in Live(t) ==> b + Live(t)[b] <= p || p + size <= b
    ensures f in t && t[f].kind == Kind.Free && f <= p && p + size <= f + t[f].size
  {
    RegionExactlyTiled(t, q, p);
    f :| Covers(t, f, p) && t[f].base == q;
    assert TileOk(t, q) && TileOk(t, f) && NoFreeAfter(t, f);
    assert f !in Live(t);
    var e := f + t[f].size;
    if e < p + size {
      NextIsLive(t, f);
      assert false;
    }
  }

  /** The system gives nothing more, and the region of the freed block is still
      held for the sake of another: the next request that the block was big
      enough for is served. */
  method FreeThenMalloc(heap: Heap, p: int, ghost other: int, n: int) returns (r: int)
    requires heap.Valid() && p - ALLOC_EXTRA in Live(heap.t) && Sizable(n) && Need(n) <= Live(heap.t)[p - ALLOC_EXTRA]
    requires other in Live(heap.t) && other != p - ALLOC_EXTRA && heap.t[other].base == heap.t[p - ALLOC_EXTRA].base
    modifies heap
    ensures heap.Valid() && r != 0 && r - ALLOC_EXTRA in Live(heap.t)
  {
    hide MappedExactly, HeadersOk, Ring, Listed, Need;
    ghost var t, a := heap.t, p - ALLOC_EXTRA;
    ghost var q, size := t[a].base, t[a].size;
    assert TileOk(t, a) && TileOk(t, q) && TileOk(t, other) && Apart(t, q, a) && Apart(t, q, other);
    forall b | b in Live(t) && b != a ensures b + Live(t)[b] <= a || a + size <= b {
      assert Apart(t, a, b) && Apart(t, b, a);
    }
    heap.Free(p);
    assert other in Live(heap.t) && q <= other < t[q].end;
    assert HoldsLive(Live(heap.t), q, t[q].end - q);
    ghost var f := FreedIsFree(heap.t, q, a, size);
    assert Fits(heap.t, f, Need(n));
    r := heap.Malloc(n, Refuse);
  }

  /** realloc to the size that was asked for leaves the block alone. */
  method MallocThenRealloc(heap: Heap, n: int, os: Grant) returns (r: int, res: int)
    requires heap.Valid() && CanServe(heap.t, n, heap.minhunk) && heap.GrantOk(n, os) && 0 < n
    modifies heap
    ensures heap.Valid() && res == r
  {
    hide MappedExactly, HeadersOk, Ring, Listed, Need, Settled, Tiled;
    r := heap.Malloc(n, os);
    if r == 0 {
      return r, 0;
    }
    res := heap.Realloc(r, n, Refuse);
  }
}
