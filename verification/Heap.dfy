/** The allocator: malloc, free and realloc over the free list. */
module Heap {
  import opened CInt
  import opened Memory
  import opened HeapLayout
  import opened HeapList
  import opened HeapWords

  const PAGE_SIZE := 8192

  /** The size of the chunk that serves a request of `n` bytes. */
  function Need(n: int): (need: int)
    ensures need % 4 == 0 && n + 16 <= need < n + 20
  {
    ALLOC_EXTRA + (n + 3) / 4 * 4
  }

  /** What is asked from the operating system when no chunk of `need` bytes is free. */
  function AskSize(need: int, minhunk: int): (size: int)
    ensures size % 8192 == 0 && need + 20 <= size && minhunk <= size
    ensures size < need + 20 + 8192 || size < minhunk + 8192
  {
    var sz := if need + SBRK_EXTRA > minhunk then need + SBRK_EXTRA else minhunk;
    (sz + PAGE_SIZE - 1) / PAGE_SIZE * PAGE_SIZE
  }

  /** Both sizes as the code computes them, in 32 bits. */
  function Need32(n: int): int {
    (ALLOC_EXTRA + (n + 3) % TWO_32 / 4 * 4) % TWO_32
  }

  function Ask32(need: int, minhunk: int): int {
    var most := (need + SBRK_EXTRA) % TWO_32;
    var sz := if most > minhunk then most else minhunk;
    (sz + PAGE_SIZE - 1) % TWO_32 / PAGE_SIZE * PAGE_SIZE
  }

  /** The request is not so big that a size wraps. */
  predicate Sizable(n: int) {
    0 <= n && Need(n) + SBRK_EXTRA <= TWO_32 - PAGE_SIZE
  }

  /** Nor is the chunk size that is asked from the system. */
  predicate Servable(n: int, minhunk: int) {
    Sizable(n) && minhunk <= TWO_32 - PAGE_SIZE
  }

  /** The chunk holds the request and the region holds the chunk exactly for
      these requests; no size has wrapped then. */
  lemma RequestWraps(n: int, minhunk: int)
    requires 0 <= n < TWO_32 && 0 <= minhunk < TWO_32
    ensures Need32(n) >= n + ALLOC_EXTRA && Ask32(Need32(n), minhunk) >= Need32(n) + SBRK_EXTRA <==>
            Servable(n, minhunk)
    ensures Servable(n, minhunk) ==> Need32(n) == Need(n) && Ask32(Need32(n), minhunk) == AskSize(Need(n), minhunk)
    ensures Need32(n) == Need(n) <==> n <= TWO_32 - 20
  {
    hide Ask32, AskSize;
    var need := Need32(n);
    RegionWraps(need, minhunk);
  }

  lemma NeedExact(n: int)
    requires Sizable(n)
    ensures n < TWO_32 && Need32(n) == Need(n)
  {
  }

  lemma RegionWraps(need: int, minhunk: int)
    requires 0 <= need < TWO_32 && 0 <= minhunk < TWO_32
    ensures Ask32(need, minhunk) >= need + SBRK_EXTRA <==>
            need + SBRK_EXTRA <= TWO_32 - PAGE_SIZE && minhunk <= TWO_32 - PAGE_SIZE
    ensures Ask32(need, minhunk) >= need + SBRK_EXTRA ==> Ask32(need, minhunk) == AskSize(need, minhunk)
  {
  }

  /** Requests that fail: the chunk size wraps; the region size does; the rounding
      to pages does, and nothing is asked for. */
  lemma WrappingRequests()
    ensures Need32(TWO_32 - 1) == ALLOC_EXTRA
    ensures Need32(TWO_32 - 20) == TWO_32 - 4 && Ask32(TWO_32 - 4, PAGE_SIZE) == PAGE_SIZE
    ensures Need32(TWO_32 - 40) == TWO_32 - 24 && Ask32(TWO_32 - 24, PAGE_SIZE) == 0
  {
  }

  /** The answer that the operating system is going to give when it is asked:
      no memory, or a region with some contents. */
  datatype Grant = Refuse | Give(base: int, contents: Mem)

  ghost predicate Fits(t: Tiles, a: int, need: int) {
    a in t && t[a].kind == Kind.Free && t[a].size >= need
  }

  /** No size wraps on the way to a block for `n` bytes: the chunk size counts only
      when no free chunk is big enough. */
  ghost predicate CanServe(t: Tiles, n: int, minhunk: int) {
    Sizable(n) && (minhunk <= TWO_32 - PAGE_SIZE || exists f :: Fits(t, f, Need(n)))
  }

  ghost predicate FirstFit(t: Tiles, a: int, need: int) {
    Fits(t, a, need) && forall b :: Fits(t, b, need) ==> a <= b
  }

  /** Layout `t` has one live block more than `t0`: block `a`, big enough for
      `need` and at most one header bigger. */
  ghost predicate NewBlock(t0: Tiles, t: Tiles, a: int, need: int) {
    && a in t && a !in Live(t0) && Live(t) == Live(t0)[a := t[a].size]
    && need <= t[a].size <= need + ALLOC_EXTRA
  }

  /** A block of `need` bytes is taken from the free chunk `q`: its top end if what
      is left is more than a header, or all of it. */
  ghost function Carved(t: Tiles, q: int, need: int): Tiles
    requires q in t
  {
    if t[q].size > need + ALLOC_EXTRA then Split(t, q, need) else SetKind(t, q, Used)
  }

  /** The free chunk behind the block `p` makes it at least `sz` bytes long. */
  ghost predicate CanGrow(t: Tiles, p: int, sz: int) {
    && p in t && p + t[p].size in t && t[p + t[p].size].kind == Kind.Free
    && t[p].size + t[p + t[p].size].size >= sz
  }

  /** realloc keeps the block `p` where it is: it is big enough, but not so big
      that a smaller one is worth while, or it can grow. */
  ghost predicate Stays(t: Tiles, p: int, n: int) {
    p in t && t[p].size <= Need(n) + 2 * ALLOC_EXTRA && (t[p].size >= Need(n) || CanGrow(t, p, Need(n)))
  }

  /** No size wraps when the block `r` shall have `n` bytes. */
  ghost predicate CanResize(t: Tiles, r: int, n: int, minhunk: int) {
    if r == 0 then CanServe(t, n, minhunk)
    else
      || n == 0 || r - ALLOC_EXTRA !in Live(t)
      || (Sizable(n) && Stays(t, r - ALLOC_EXTRA, n)) || CanServe(t, n, minhunk)
  }

  ghost predicate NoneFits(t: Tiles, n: int) {
    forall f :: !Fits(t, f, Need(n))
  }

  /** The system is asked when the block `r` shall have `n` bytes, or a new one if
      there is none: it can not stay, and no free chunk is big enough. */
  ghost predicate Asks(t: Tiles, r: int, n: int) {
    && (r != 0 ==> n != 0 && r - ALLOC_EXTRA in Live(t) && !Stays(t, r - ALLOC_EXTRA, n))
    && NoneFits(t, n)
  }

  /** When realloc keeps a block where it is, and when it fails; `exhausted` says
      that malloc would fail. */
  ghost predicate Resized(t0: Tiles, t: Tiles, r: int, res: int, n: int, exhausted: bool)
    requires r - ALLOC_EXTRA in Live(t0)
  {
    var p := r - ALLOC_EXTRA;
    var size := t0[p].size;
    if size > Need(n) + 2 * ALLOC_EXTRA then (res == r <==> exhausted) && (exhausted ==> t == t0)
    else if size >= Need(n) then res == r && t == t0
    else if CanGrow(t0, p, Need(n)) then res == r && t == Absorb(t0, p)
    else res != r && (res == 0 <==> exhausted)
  }

  /** The byte at `k` in the block `newr` is the one in the same place of `r`. */
  ghost predicate MovedByte(m0: Mem, m: Mem, r: int, newr: int, k: int) {
    k in m && r + (k - newr) in m0 && m[k] == m0[r + (k - newr)]
  }

  /** The block `r` has become the block `newr` of at least `n` bytes, with the
      first `count` bytes of `r`; every other block is what it was. */
  ghost predicate Reallocated(m0: Mem, t0: Tiles, m: Mem, t: Tiles, r: int, newr: int, n: int, count: int) {
    var p, a := r - ALLOC_EXTRA, newr - ALLOC_EXTRA;
    && a in Live(t) && (a in Live(t0) ==> a == p) && Live(t) == (Live(t0) - {p})[a := Live(t)[a]]
    && Live(t)[a] >= Need(n)
    && (forall k {:trigger MovedByte(m0, m, r, newr, k)} :: newr <= k < newr + count ==> MovedByte(m0, m, r, newr, k))
    && (forall b, k {:trigger InPayload(t0, b, k)} ::
          b != p && InPayload(t0, b, k) ==> k in m0 && k in m && m[k] == m0[k])
  }

  /** The chunk `q` is taken out from between `p` and `n`, and marked. */
  ghost predicate TakenBy(m: Mem, m1: Mem, m': Mem, q: int, p: int, n: int) {
    && LinksMapped(m, p) && LinksMapped(m, n) && UnlinkStores(m, m1, p, n)
    && WordAt(m1, q + VALID) && m' == Store32(m1, q + VALID, VAL_ALLOC)
  }

  lemma AskSizeOk(need: int, minhunk: int)
    requires need % 4 == 0 && ALLOC_EXTRA <= need
    ensures AskSize(need, minhunk) % 4 == 0 && AskSize(need, minhunk) >= need + SBRK_EXTRA
  {
    hide AskSize;
    assert AskSize(need, minhunk) == 4 * (AskSize(need, minhunk) / PAGE_SIZE * 2048);
  }

  /** The chunk of a new region. */
  lemma NewChunk(t: Tiles, q: int, need: int, minhunk: int)
    requires need % 4 == 0 && ALLOC_EXTRA <= need
    ensures var n, s := AskSize(need, minhunk), q + SBRK_EXTRA;
      var t' := AddRegion(t, q, n);
      s in t' && t'[s].kind == Kind.Free && t'[s].size == n - SBRK_EXTRA >= need && t'[s].base == q
  {
    AskSizeOk(need, minhunk);
  }

  lemma PrevKept(m: Mem, m': Mem, q: int, n: int, p: int, p0: int)
    requires WordIs(m, p + PREV, p0) && Outside(q, n, p) && SBRK_EXTRA <= n && m'.Keys == m.Keys
    requires forall k :: k in m && !(q <= k < q + SBRK_EXTRA) ==> m'[k] == m[k]
    ensures WordIs(m', p + PREV, p0)
  {
  }

  lemma NodesLinked(m: Mem, head: int, t: Tiles, l: seq<int>, k: int)
    requires Tiled(t) && AllClear(head, t) && Listed(t, l) && Ring(m, head, l) && 0 <= k <= |l|
    ensures HeadersApart(At(head, l, k - 1), At(head, l, k)) && WordIs(m, At(head, l, k) + PREV, At(head, l, k - 1))
  {
    Apartness(head, t);
    NodesAreHeaders(head, t, l);
    assert LinkOk(m, head, l, k - 1);
  }

  lemma NeighboursApart(head: int, t: Tiles, l: seq<int>, i: int)
    requires Tiled(t) && AllClear(head, t) && Listed(t, l) && 0 <= i < |l|
    ensures HeadersApart(At(head, l, i - 1), l[i]) && HeadersApart(At(head, l, i + 1), l[i])
    ensures At(head, l, i - 1) != l[i] && At(head, l, i + 1) != l[i]
    ensures HeadersApart(At(head, l, i - 1), At(head, l, i + 1))
  {
    Apartness(head, t);
    HeadNotListed(head, t, l);
    NodesAreHeaders(head, t, l);
    DistinctNodes(t, l, head, i - 1, i);
    DistinctNodes(t, l, head, i + 1, i);
    assert HeadersApart(At(head, l, i - 1), At(head, l, i + 1));
  }

  lemma TileHeader(m: Mem, head: int, t: Tiles, a: int)
    requires HeadersOk(m, head, t) && a in t
    ensures HeaderOk(m, t, a)
  {
  }

  ghost predicate HoldsLive(live: map<int, int>, q: int, n: int) {
    exists b :: b in live && q <= b < q + n
  }

  /** The regions of `held` that have a block of `live` in them. */
  ghost function HeldAfter(held: map<int, int>, live: map<int, int>): map<int, int> {
    map q | q in held && HoldsLive(live, q, held[q]) :: held[q]
  }

  lemma EveryRegionHoldsLive(t: Tiles)
    requires Tiled(t) && Settled(t)
    ensures HeldAfter(Regions(t), Live(t)) == Regions(t)
  {
    forall q | q in Regions(t) ensures HoldsLive(Live(t), q, Regions(t)[q]) {
      HeldRegionHasLiveBlock(t, q);
      var b :| b in Live(t) && t[b].base == q;
      assert TileOk(t, b) && TileOk(t, q);
    }
  }

  lemma VacantHoldsNothing(t: Tiles, q: int)
    requires Tiled(t) && Vacant(t, q)
    ensures !HoldsLive(Live(t), q, Regions(t)[q])
  {
    DropRegionTiled(t, q);
    forall b | b in Live(t) ensures !(q <= b < t[q].end) {
      assert TileOk(t, b) && TileOk(t, q) && Apart(t, b, q) && Apart(t, q, b);
    }
  }

  /** The two nodes around the nodes `k - 1` and `k`. */
  lemma PairApart(head: int, t: Tiles, l: seq<int>, k: int)
    requires Tiled(t) && AllClear(head, t) && Listed(t, l) && 0 < k < |l|
    ensures HeadersApart(At(head, l, k - 2), l[k]) && At(head, l, k - 2) != l[k]
    ensures HeadersApart(At(head, l, k - 2), l[k - 1]) && At(head, l, k - 2) != l[k - 1]
  {
    Apartness(head, t);
    HeadNotListed(head, t, l);
    NodesAreHeaders(head, t, l);
    DistinctNodes(t, l, head, k - 2, k);
    DistinctNodes(t, l, head, k - 2, k - 1);
    assert At(head, l, k) == l[k] && At(head, l, k - 1) == l[k - 1];
  }

  /** A chunk never touches the sentinel. */
  lemma NotBelowHead(head: int, t: Tiles, a: int)
    requires Tiled(t) && AllClear(head, t) && a in t
    ensures a + t[a].size != head && 0 < a && 0 < t[a].size && a + t[a].size <= TWO_32
  {
    assert TileOk(t, a) && Clear(head, t, a);
  }

  lemma NextMerges(t: Tiles, l: seq<int>, k: int, r: int)
    requires Tiled(t) && Listed(t, l) && 0 <= k < |l| && l[k] == r && r in t && t[r].kind == Kind.Free
    requires !NoFreeAfter(t, r)
    ensures k + 1 < |l| && l[k + 1] == r + t[r].size && l[k + 1] in t && t[l[k + 1]].kind == Kind.Free
  {
    TouchingNodes(t, l, r, r + t[r].size);
    var i :| 0 <= i < |l| - 1 && l[i] == r && l[i + 1] == r + t[r].size;
    SameNode(t, l, i, k);
  }

  lemma PrevMerges(t: Tiles, l: seq<int>, k: int, r: int, a: int)
    requires Tiled(t) && Listed(t, l) && 0 <= k < |l| && l[k] == r && r in t && t[r].kind != Used
    requires a in t && t[a].kind != Used && a + t[a].size == r
    ensures 0 < k && l[k - 1] == a
  {
    TouchingNodes(t, l, a, r);
    var i :| 0 <= i < |l| - 1 && l[i] == a && l[i + 1] == r;
    SameNode(t, l, i + 1, k);
  }

  /** A region that holds the free chunk `r` only is found in front of it. */
  lemma VacantFound(t: Tiles, l: seq<int>, k: int, r: int)
    requires Tiled(t) && Listed(t, l) && 0 <= k < |l| && l[k] == r && r in t && t[r].kind == Kind.Free
    requires Vacant(t, t[r].base)
    ensures 0 < k && l[k - 1] == t[r].base && r == t[r].base + SBRK_EXTRA && t[r].size == t[r].end - r
  {
    var q := t[r].base;
    assert TileOk(t, r) && TileOk(t, q);
    assert Apart(t, r, q + SBRK_EXTRA) && Apart(t, q + SBRK_EXTRA, r) && Apart(t, q, r);
    PrevMerges(t, l, k, r, q);
  }

  /** If the header in front of `r` belongs to a region as big as `r`, then
      `r` is the only chunk of that region. */
  lemma FoundVacant(t: Tiles, l: seq<int>, k: int, r: int)
    requires Tiled(t) && Listed(t, l) && 0 < k < |l| && l[k] == r && r in t && t[r].kind == Kind.Free
    requires l[k - 1] in t && t[l[k - 1]].kind == Region && t[l[k - 1]].end - l[k - 1] - SBRK_EXTRA == t[r].size
    ensures Vacant(t, l[k - 1]) && r == l[k - 1] + SBRK_EXTRA && t[r].base == l[k - 1]
  {
    var q, p := t[r].base, l[k - 1];
    assert TileOk(t, r) && TileOk(t, q) && TileOk(t, p);
    assert Found(t, l, q);
    var j :| 0 <= j < |l| && l[j] == q;
    assert InOrder(l, k, j) && InOrder(l, k - 1, j) && InOrder(l, j, k - 1) && InOrder(l, k - 1, k);
    assert Apart(t, r, p) && Apart(t, p, r) && Apart(t, q, p) && Apart(t, p, q);
  }

  /** A free chunk right behind the block `p` is the first node not below `p`. */
  lemma NodeBehind(t: Tiles, l: seq<int>, p: int, k: int)
    requires Tiled(t) && Listed(t, l) && p in t && t[p].kind == Used && 0 <= k <= |l|
    requires (forall i :: 0 <= i < k ==> l[i] < p) && (k < |l| ==> p <= l[k])
    ensures p + t[p].size in t && t[p + t[p].size].kind == Kind.Free ==> k < |l| && l[k] == p + t[p].size
  {
    var s := p + t[p].size;
    if s in t && t[s].kind == Kind.Free {
      assert TileOk(t, p) && Found(t, l, s);
      var j :| 0 <= j < |l| && l[j] == s;
      assert NodeOk(t, l, k) && InOrder(l, k, j) && Apart(t, p, l[k]);
    }
  }

  /** The same in numbers: up to 32 bytes too many stay, more go if malloc serves;
      a free chunk behind is taken if both together are enough, and only else is
      a new block needed. */
  lemma ResizedIs(t0: Tiles, t: Tiles, r: int, res: int, n: int, exhausted: bool)
    requires r - 16 in Live(t0) && Resized(t0, t, r, res, n, exhausted)
    ensures var p := r - 16;
      var size, next := Live(t0)[p], p + Live(t0)[p];
      && (Need(n) <= size <= Need(n) + 32 ==> res == r && t == t0)
      && (size > Need(n) + 32 ==> (res == r <==> exhausted) && (exhausted ==> t == t0))
      && (size < Need(n) && next in t0 && t0[next].kind == Kind.Free && size + t0[next].size >= Need(n) ==>
            res == r && p in Live(t) && Live(t)[p] == size + t0[next].size)
      && (size < Need(n) && !(next in t0 && t0[next].kind == Kind.Free && size + t0[next].size >= Need(n)) ==>
            res != r && (res == 0 <==> exhausted))
  {
  }

  /** The chunk that malloc takes, in numbers: the lowest free one that is not too
      small. */
  lemma FirstFitIs(t: Tiles, f: int, need: int)
    ensures FirstFit(t, f, need) <==>
            f in t && t[f].kind == Kind.Free && need <= t[f].size &&
            forall g :: g in t && t[g].kind == Kind.Free && need <= t[g].size ==> f <= g
  {
    assert forall g :: Fits(t, g, need) <==> g in t && t[g].kind == Kind.Free && need <= t[g].size;
  }

  lemma TilesPositive(t: Tiles)
    requires Tiled(t)
    ensures forall a :: a in t ==> 0 < a
  {
    forall a | a in t ensures 0 < a { assert TileOk(t, a); }
  }

  lemma SamePayload(t: Tiles, t': Tiles)
    requires Live(t) == Live(t')
    ensures forall b, k :: InPayload(t, b, k) <==> InPayload(t', b, k)
  {
    forall b, k ensures InPayload(t, b, k) <==> InPayload(t', b, k) {
      assert b in Live(t) <==> b in Live(t');
      assert b in Live(t) ==> Live(t)[b] == Live(t')[b];
    }
  }

  lemma BlocksReady(m: Mem, head: int, t: Tiles, a: int, p: int, count: int)
    requires Tiled(t) && MappedExactly(m.Keys, head, Regions(t)) && a in Live(t) && p in Live(t) && a != p
    requires 0 <= count && count + ALLOC_EXTRA <= Live(t)[a] && count + ALLOC_EXTRA <= Live(t)[p]
    ensures Mapped(m, a + ALLOC_EXTRA, count) && Mapped(m, p + ALLOC_EXTRA, count)
    ensures a + ALLOC_EXTRA + count <= p + ALLOC_EXTRA || p + ALLOC_EXTRA + count <= a + ALLOC_EXTRA
    ensures forall k :: a + ALLOC_EXTRA <= k < a + ALLOC_EXTRA + count ==> InPayload(t, a, k)
  {
    TileMapped(m, head, t, a);
    TileMapped(m, head, t, p);
    LiveBlocksDisjoint(t, a, p);
  }

  lemma NeedHolds(n: int)
    ensures Need(n) >= n + ALLOC_EXTRA
  {
  }

  /** Allocating, copying and freeing put together. */
  lemma MovedOk(m0: Mem, m1: Mem, m2: Mem, m3: Mem, t0: Tiles, t1: Tiles, t3: Tiles, r: int, newr: int, n: int,
                count: int)
    requires r - ALLOC_EXTRA in Live(t0) && NewBlock(t0, t1, newr - ALLOC_EXTRA, Need(n)) && 0 <= count <= n
    requires count + ALLOC_EXTRA <= Live(t0)[r - ALLOC_EXTRA]
    requires PayloadKept(m0, m1, t0) && PayloadKept(m2, m3, t3)
    requires Live(t3) == Live(t1) - {r - ALLOC_EXTRA}
    requires m2.Keys == m1.Keys
    requires forall k :: newr <= k < newr + count ==> k in m2 && r + (k - newr) in m1 && m2[k] == m1[r + (k - newr)]
    requires forall b, k {:trigger InPayload(t1, b, k)} ::
      b != newr - ALLOC_EXTRA && InPayload(t1, b, k) ==> k in m1 && m2[k] == m1[k]
    ensures Reallocated(m0, t0, m3, t3, r, newr, n, count)
  {
    hide Need;
    var p, a := r - ALLOC_EXTRA, newr - ALLOC_EXTRA;
    assert a !in Live(t0) && a != p && Live(t1)[a] == t1[a].size >= Need(n);
    assert a in Live(t3) && Live(t3)[a] == Live(t1)[a];
    assert Live(t3) == (Live(t0) - {p})[a := Live(t3)[a]];
    NeedHolds(n);
    forall k | newr <= k < newr + count ensures MovedByte(m0, m3, r, newr, k) {
      assert a in Live(t3) && Live(t3)[a] >= Need(n);
      assert InPayload(t3, a, k) && InPayload(t0, p, r + (k - newr));
    }
    forall b, k | b != p && InPayload(t0, b, k) ensures k in m0 && k in m3 && m3[k] == m0[k] {
      assert b in Live(t0) && b in Live(t1) && b in Live(t3) && Live(t3)[b] == Live(t1)[b] == Live(t0)[b];
      assert InPayload(t1, b, k) && InPayload(t3, b, k);
    }
  }

  function ZeroBytes(a: int, n: nat): (m: Mem)
    ensures forall k :: k in m <==> a <= k < a + n
  {
    if n == 0 then map[] else ZeroBytes(a, n - 1)[a + n - 1 := 0]
  }

  /** The sentinel of an empty list at address `head`. */
  function EmptySentinel(head: int): Mem
    requires 0 < head && head + ALLOC_EXTRA <= TWO_32
  {
    hide Load32, Store32;
    var m := Store32(ZeroBytes(head, ALLOC_EXTRA), head + VALID, VAL_FREE);
    Store32(Store32(Store32(m, head + NEXT, head), head + PREV, head), head + SIZE, 0)
  }

  /** A free chunk of no size that is its own neighbour. */
  ghost predicate SentinelOnly(m: Mem, head: int) {
    WordIs(m, head, 0xf4ee0abc) && WordIs(m, head + 4, head) && WordIs(m, head + 8, head) && WordIs(m, head + 12, 0)
  }

  lemma SentinelIs(head: int)
    requires 0 < head && head + ALLOC_EXTRA <= TWO_32
    ensures var m := EmptySentinel(head);
      (forall k :: k in m <==> head <= k < head + ALLOC_EXTRA) && SentinelOnly(m, head)
  {
    hide Load32, Store32;
  }

  lemma EmptyHeap(m: Mem, head: int)
    requires 0 < head && head + ALLOC_EXTRA <= TWO_32
    requires forall k :: k in m <==> head <= k < head + ALLOC_EXTRA
    requires SentinelOnly(m, head)
    ensures Shape(m, head, map[], map[], []) && Settled(map[]) && Live(map[]) == map[]
  {
  }

  /** Once every block is freed, every region has gone back, no memory but the
      sentinel is mapped, and the list is empty. */
  lemma NothingLeaks(m: Mem, head: int, held: map<int, int>, t: Tiles, l: seq<int>)
    requires Shape(m, head, held, t, l) && Settled(t) && Live(t) == map[]
    ensures held == map[] && l == []
    ensures forall k :: k in m <==> head <= k < head + ALLOC_EXTRA
    ensures WordIs(m, head + NEXT, head) && WordIs(m, head + PREV, head)
  {
    NothingLiveNothingHeld(t);
    assert NodeOk(t, l, 0);
    assert LinkOk(m, head, l, -1);
  }

  lemma SameBlock(m: Mem, head: int, t: Tiles, r: int, n: int)
    requires Tiled(t) && MappedExactly(m.Keys, head, Regions(t)) && r - ALLOC_EXTRA in Live(t)
    ensures Live(t)[r - ALLOC_EXTRA] >= ALLOC_EXTRA && Live(t)[r - ALLOC_EXTRA] % 4 == 0
    ensures Live(t)[r - ALLOC_EXTRA] >= Need(n) ==> Reallocated(m, t, m, t, r, r, n, n)
  {
    var p := r - ALLOC_EXTRA;
    TileMapped(m, head, t, p);
    PayloadSelf(m, head, t);
    assert TileOk(t, p);
  }

  lemma GrownOk(m0: Mem, t0: Tiles, m: Mem, t: Tiles, r: int, n: int)
    requires PayloadKept(m0, m, t) && r - ALLOC_EXTRA in Live(t0) && r - ALLOC_EXTRA in Live(t)
    requires Live(t) == Live(t0)[r - ALLOC_EXTRA := Live(t)[r - ALLOC_EXTRA]]
    requires Live(t)[r - ALLOC_EXTRA] >= Need(n) && Live(t)[r - ALLOC_EXTRA] >= Live(t0)[r - ALLOC_EXTRA] >= ALLOC_EXTRA
    ensures Reallocated(m0, t0, m, t, r, r, n, Live(t0)[r - ALLOC_EXTRA] - ALLOC_EXTRA)
  {
    var p := r - ALLOC_EXTRA;
    forall k | r <= k < p + Live(t0)[p] ensures MovedByte(m0, m, r, r, k) {
      assert InPayload(t, p, k);
    }
    forall b, k | b != p && InPayload(t0, b, k) ensures k in m0 && k in m && m[k] == m0[k] {
      assert b in Live(t0) && b in Live(t) && Live(t)[b] == Live(t0)[b];
      assert InPayload(t, b, k);
    }
  }

  /** The live block in front of node `k` and the neighbours of that node. */
  lemma BlockApart(head: int, t: Tiles, l: seq<int>, p: int, k: int)
    requires Tiled(t) && AllClear(head, t) && Listed(t, l) && p in t && t[p].kind == Used && 0 <= k < |l|
    ensures HeadersApart(p, l[k]) && HeadersApart(p, At(head, l, k - 1)) && HeadersApart(p, At(head, l, k + 1))
  {
    Apartness(head, t);
    NodesAreHeaders(head, t, l);
    assert At(head, l, k) == l[k];
  }

  class Heap {
    const head: int              // address of the sentinel of the list
    var mem: Mem
    var held: map<int, int>      // the regions that the operating system has handed out
    var minhunk: int
    var maxhunk: int
    var errno: int
    ghost var t: Tiles
    ghost var l: seq<int>

    ghost predicate Valid()
      reads this
    {
      Shape(mem, head, held, t, l) && Settled(t) && HunksOk()
    }

    /** A program starts with an empty list and no region. */
    constructor (head: int)
      requires 0 < head && head + ALLOC_EXTRA <= TWO_32
      ensures Valid() && Live(t) == map[] && held == map[] && this.head == head
      ensures SentinelOnly(mem, head)
      ensures minhunk == 8192 && maxhunk == 32768 && errno == 0
    {
      hide EmptySentinel, Shape, SentinelOnly, Settled, Live, WordIs, Load32, WordAt;
      this.head := head;
      maxhunk := 32 * 1024;
      minhunk := PAGE_SIZE;
      errno := 0;
      held := map[];
      mem := EmptySentinel(head);
      t := map[];
      l := [];
      new;
      SentinelIs(head);
      EmptyHeap(mem, head);
    }

    /** __mallocChunkSize */
    method SetChunkSize(size: int)
      requires Valid() && 0 <= size < TWO_32
      modifies this`minhunk, this`maxhunk
      ensures Valid() && minhunk == size && maxhunk == size
    {
      maxhunk := size;
      minhunk := size;
    }

    ghost predicate HunksOk()
      reads this
    {
      0 <= minhunk < TWO_32 && (minhunk < maxhunk ==> 2 * maxhunk <= TWO_32 - PAGE_SIZE)
    }

    ghost predicate GrantOk(n: int, os: Grant)
      reads this
    {
      os.Give? ==> Acceptable(mem.Keys, head, os.base, AskSize(Need(n), minhunk), os.contents)
    }

    /** The first node of the list at or above address `r`. */
    method FirstNotBelow(r: int) returns (next: int, ghost k: int)
      requires Ring(mem, head, l) && head !in l
      ensures 0 <= k <= |l| && next == At(head, l, k)
      ensures forall i :: 0 <= i < k ==> l[i] < r
      ensures k < |l| ==> r <= l[k]
    {
      assert LinkOk(mem, head, l, -1);
      next := Load32(mem, head + NEXT);
      k := 0;
      while next != head && next < r
        invariant 0 <= k <= |l| && next == At(head, l, k)
        invariant forall i :: 0 <= i < k ==> l[i] < r
        decreases |l| - k
      {
        assert LinkOk(mem, head, l, k);
        next := Load32(mem, next + NEXT);
        k := k + 1;
      }
    }

    /** Links `r` in before `next`. */
    method LinkBefore(r: int, next: int, ghost p: int)
      requires LinksMapped(mem, p) && LinksMapped(mem, r) && LinksMapped(mem, next)
      requires HeadersApart(next, r) && HeadersApart(p, r) && p != r && next != r
      requires WordIs(mem, next + PREV, p)
      modifies this`mem
      ensures mem == LinkStores(old(mem), p, r, next)
    {
      hide Load32, Store32, WordAt;
      mem := Store32(mem, r + NEXT, next);
      mem := Store32(mem, r + PREV, Load32(mem, next + PREV));
      mem := Store32(mem, Load32(mem, r + PREV) + NEXT, r);
      mem := Store32(mem, Load32(mem, r + NEXT) + PREV, r);
    }

    /** Puts the block `r` into the list and marks it free. */
    method LinkFree(r: int) returns (next: int, ghost k: nat)
      requires Shape(mem, head, held, t, l)
      requires r in t && t[r].kind == Used
      modifies this`mem, this`t, this`l
      ensures t == SetKind(old(t), r, Kind.Free)
      ensures k <= |old(l)| && l == InsertAt(old(l), k, r) && next == At(head, l, k + 1)
      ensures Shape(mem, head, held, t, l)
      ensures PayloadKept(old(mem), mem, t)
    {
      hide Load32, Store32, WordAt, LinkStores, MappedExactly;
      HeaderMapped(mem, head, t, r);
      mem := Store32(mem, r + VALID, VAL_FREE);
      StoreKeepsRing(old(mem), mem, head, t, l, r, r + VALID, VAL_FREE);
      MarkHeader(old(mem), mem, head, t, r, Kind.Free);
      SetKindTiled(t, r, Kind.Free);
      SetKindRegions(t, r, Kind.Free);
      t := SetKind(t, r, Kind.Free);
      HeadNotListed(head, old(t), l);
      next, k := FirstNotBelow(r);
      LinkInReady(mem, head, old(t), t, l, k, r);
      LinkInShape(mem, head, old(t), t, l, k, r);
      ghost var m := mem;
      LinkBefore(r, next, At(head, l, k - 1));
      PayloadTrans(old(mem), m, mem, t, t);
      l := InsertAt(l, k, r);
    }

    /** GEMDOS Malloc. */
    method OsMalloc(size: int, os: Grant) returns (q: int)
      requires Shape(mem, head, held, t, l) && 0 < size
      requires os.Give? ==> Acceptable(mem.Keys, head, os.base, size, os.contents)
      modifies this`mem, this`held
      ensures q == (if os.Refuse? then 0 else os.base)
      ensures mem == (if os.Refuse? then old(mem) else old(mem) + os.contents)
      ensures held == (if os.Refuse? then old(held) else old(held)[q := size])
    {
      match os
      case Refuse =>
        q := 0;
      case Give(base, contents) =>
        q := base;
        mem := mem + contents;
        held := held[q := size];
    }

    /** Writes the header of the region `q` of `n` bytes. */
    method WriteRegionHeader(q: int, n: int)
      requires WordAt(mem, q + SIZE) && WordAt(mem, q + VALID) && WordAt(mem, q + SBRK_SIZE)
      requires SBRK_EXTRA <= n < TWO_32 + SBRK_EXTRA
      modifies this`mem
      ensures mem == RegionHeader(old(mem), q, n)
    {
      hide Load32, Store32, WordAt;
      mem := Store32(mem, q + SIZE, SBRK_EXTRA);
      mem := Store32(mem, q + VALID, VAL_SBRK);
      mem := Store32(mem, q + SBRK_SIZE, n - SBRK_EXTRA);
    }

    /** Links the region `q` and its chunk `s` in front of node `p`. */
    method LinkRegion(q: int, s: int, p: int, ghost p0: int)
      requires LinksMapped(mem, q) && LinksMapped(mem, s) && LinksMapped(mem, p0) && LinksMapped(mem, p)
      requires WordIs(mem, p + PREV, p0) && HeadersApart(p0, q) && HeadersApart(p, q) && p != q && p0 != q
      requires q + ALLOC_EXTRA <= s
      modifies this`mem
      ensures mem == RegionLinks(old(mem), p0, q, s)
    {
      hide Load32, Store32, WordAt;
      mem := Store32(mem, q + NEXT, s);
      mem := Store32(mem, q + PREV, Load32(mem, p + PREV));
      mem := Store32(mem, Load32(mem, q + PREV) + NEXT, q);
      mem := Store32(mem, Load32(mem, q + NEXT) + PREV, q);
    }

    /** Writes the header of the free chunk `s` and links it in front of node `p`. */
    method WriteChunkHeader(s: int, p: int, size: int)
      requires LinksMapped(mem, s) && LinksMapped(mem, p) && 0 <= size < TWO_32
      requires WordAt(mem, s + SIZE) && WordAt(mem, s + VALID)
      modifies this`mem
      ensures mem == ChunkHeader(old(mem), s, p, size)
    {
      hide Load32, Store32, WordAt;
      mem := Store32(mem, s + SIZE, size);
      mem := Store32(mem, s + VALID, VAL_FREE);
      mem := Store32(mem, s + NEXT, p);
      mem := Store32(mem, Load32(mem, s + NEXT) + PREV, s);
    }

    /** Lays out the region `q` of `n` bytes in front of node `p`. */
    method InitRegion(q: int, p: int, n: int, ghost p0: int) returns (s: int)
      requires RegionReady(mem, p0, q, p, n) && Outside(q, n, p0) && Outside(q, n, p) && HeadersApart(p0, p)
      requires WordIs(mem, p + PREV, p0)
      modifies this`mem
      ensures mem == RegionStores(old(mem), p0, q, p, n) && s == q + SBRK_EXTRA
    {
      hide Load32, WordAt, RegionHeader, RegionLinks, ChunkHeader;
      s := q + SBRK_EXTRA;
      RegionHeaderFrame(mem, q, n);
      WriteRegionHeader(q, n);
      PrevKept(old(mem), mem, q, n, p, p0);
      RegionLinksFrame(mem, p0, q, s);
      LinkRegion(q, s, p, p0);
      WriteChunkHeader(s, p, n - SBRK_EXTRA);
    }

    /** Puts a new region into the heap and returns its chunk. */
    method AddToHeap(q: int, n: int, os: Grant, ghost m0: Mem) returns (s: int, ghost i: nat)
      requires Shape(m0, head, Regions(t), t, l) && Settled(t) && os.Give?
      requires Acceptable(m0.Keys, head, q, n, os.contents) && mem == m0 + os.contents && held == Regions(t)[q := n]
      requires n % 4 == 0 && SBRK_EXTRA + ALLOC_EXTRA <= n
      modifies this`mem, this`t, this`l
      ensures s == q + SBRK_EXTRA && t == AddRegion(old(t), q, n) && i < |l| && l[i] == s
      ensures Shape(mem, head, held, t, l) && Coalesced(t) && NoVacantBut(t, q) && Live(t) == Live(old(t))
      ensures PayloadKept(m0, mem, old(t))
    {
      hide Load32, Store32, WordAt, RegionStores, MappedExactly;
      GrantKeeps(m0, head, t, l, q, n, os.contents);
      HeadNotListed(head, t, l);
      var p, k := FirstNotBelow(q);
      RegionReadyHere(m0, os.contents, head, t, l, k, q, n);
      RegionOutside(head, t, l, q, n);
      NodesLinked(mem, head, t, l, k);
      RegionShape(mem, head, t, l, k, q, n);
      ghost var m := mem;
      s := InitRegion(q, p, n, At(head, l, k - 1));
      PayloadTrans(m0, m, mem, t, t);
      AddRegionTiled(t, q, n);
      AddRegionSettles(t, q, n);
      l := Replace(l, k, k, [q, s]);
      t := AddRegion(t, q, n);
      i := k + 1;
    }

    /** How much to ask for. */
    method RegionSize(need: int) returns (sz: int)
      requires HunksOk() && 0 <= need
      requires need + SBRK_EXTRA <= TWO_32 - PAGE_SIZE && minhunk <= TWO_32 - PAGE_SIZE
      modifies this`minhunk
      ensures HunksOk() && sz == AskSize(need, old(minhunk))
      ensures minhunk == if need + SBRK_EXTRA <= old(minhunk) < maxhunk then 2 * old(minhunk) else old(minhunk)
    {
      if (need + SBRK_EXTRA) % TWO_32 > minhunk {
        sz := need;
        sz := (sz + SBRK_EXTRA) % TWO_32;
      } else {
        sz := minhunk;
        if minhunk < maxhunk {
          minhunk := 2 * minhunk % TWO_32;
        }
      }
      sz := (sz + PAGE_SIZE - 1) % TWO_32 / PAGE_SIZE * PAGE_SIZE;
    }

    /** Gets a new region and returns its only chunk. */
    method MoreCore(need: int, os: Grant) returns (s: int, ghost i: nat)
      requires Valid() && need % 4 == 0 && ALLOC_EXTRA <= need
      requires need + SBRK_EXTRA <= TWO_32 - PAGE_SIZE && minhunk <= TWO_32 - PAGE_SIZE
      requires os.Give? ==> Acceptable(mem.Keys, head, os.base, AskSize(need, minhunk), os.contents)
      modifies this`mem, this`held, this`t, this`l, this`minhunk, this`errno
      ensures HunksOk()
      ensures minhunk == if need + SBRK_EXTRA <= old(minhunk) < maxhunk then 2 * old(minhunk) else old(minhunk)
      ensures os.Refuse? ==>
        s == 0 && errno == ENOMEM && mem == old(mem) && held == old(held) && t == old(t) && l == old(l)
      ensures os.Give? ==>
        var n := AskSize(need, old(minhunk));
        && errno == old(errno) && s == os.base + SBRK_EXTRA
        && t == AddRegion(old(t), os.base, n) && held == old(held)[os.base := n]
        && i < |l| && l[i] == s
        && Shape(mem, head, held, t, l) && Coalesced(t) && NoVacantBut(t, os.base) && Live(t) == Live(old(t))
      ensures PayloadKept(old(mem), mem, old(t))
    {
      hide Load32, Store32, WordAt, MappedExactly, Settled, Tiled, Listed, Ring, HeadersOk, AddRegion, AskSize;
      AskSizeOk(need, minhunk);
      var sz := RegionSize(need);
      PayloadSelf(mem, head, t);
      var q := OsMalloc(sz, os);
      if q == 0 {
        errno := ENOMEM;
        return 0, 0;
      }
      s, i := AddToHeap(q, sz, os, old(mem));
    }

    /** Takes a block of `need` bytes from the free chunk `q`: its top end if the
        rest is worth keeping, or all of it. */
    method Carve(q: int, need: int, ghost i: nat) returns (a: int)
      requires Shape(mem, head, held, t, l) && Coalesced(t) && i < |l| && l[i] == q
      requires q in t && t[q].kind == Kind.Free && t[q].size >= need && NoVacantBut(t, t[q].base)
      requires need % 4 == 0 && ALLOC_EXTRA <= need
      modifies this`mem, this`t, this`l
      ensures Shape(mem, head, held, t, l) && Settled(t)
      ensures q <= a && a in t && need <= t[a].size <= need + ALLOC_EXTRA && a + t[a].size == q + old(t)[q].size
      ensures a !in Live(old(t)) && Live(t) == Live(old(t))[a := t[a].size] && Regions(t) == Regions(old(t))
      ensures t[a].size == if old(t)[q].size > need + 16 then need else old(t)[q].size
      ensures t == Carved(old(t), q, need) && PayloadKept(old(mem), mem, old(t))
    {
      hide Load32, Store32, WordAt, SplitStores, MappedExactly, Ring, Listed, Coalesced, NoVacantBut;
      NodeReady(mem, head, t, l, i);
      assert HeaderOk(mem, t, q) && TileOk(t, q);
      if Load32(mem, q + SIZE) > need + ALLOC_EXTRA {
        SplitMapped(mem, head, t, q, need);
        SplitShape(mem, SplitStores(mem, q, t[q].size, need), head, t, l, q, need);
        SplitSettles(t, q, need);
        SplitRegions(t, q, need);
        a := SplitTop(q, need);
        t := Split(t, q, need);
      } else {
        ghost var p, n := At(head, l, i - 1), At(head, l, i + 1);
        NodeReady(mem, head, t, l, i - 1);
        NodeReady(mem, head, t, l, i + 1);
        NeighboursApart(head, t, l, i);
        TakeSettles(t, q);
        SetKindRegions(t, q, Used);
        TakeWhole(q, p, n);
        ghost var m1 :| TakenBy(old(mem), m1, mem, q, p, n);
        TakeShape(old(mem), m1, mem, head, t, l, i);
        t := SetKind(t, q, Used);
        l := Replace(l, i, i + 1, []);
        a := q;
      }
    }

    method SplitTop(q: int, need: int) returns (a: int)
      requires WordAt(mem, q + SIZE) && 0 <= need <= Load32(mem, q + SIZE)
      requires WordAt(mem, q + Load32(mem, q + SIZE) - need + SIZE)
      requires WordAt(mem, q + Load32(mem, q + SIZE) - need + VALID)
      requires ALLOC_EXTRA <= need && need + ALLOC_EXTRA <= Load32(mem, q + SIZE)
      modifies this`mem
      ensures mem == SplitStores(old(mem), q, Load32(old(mem), q + SIZE), need)
      ensures a == q + Load32(old(mem), q + SIZE) - need
    {
      hide Load32, Store32, WordAt;
      mem := Store32(mem, q + SIZE, Load32(mem, q + SIZE) - need);
      a := q + Load32(mem, q + SIZE);
      mem := Store32(mem, a + SIZE, need);
      mem := Store32(mem, a + VALID, VAL_ALLOC);
    }

    /** Takes `q` out of the list and marks it used. */
    method TakeWhole(q: int, ghost p: int, ghost n: int)
      requires LinksMapped(mem, q) && LinksMapped(mem, p) && LinksMapped(mem, n) && WordAt(mem, q + VALID)
      requires WordIs(mem, q + NEXT, n) && WordIs(mem, q + PREV, p)
      requires HeadersApart(p, q) && HeadersApart(n, q) && p != q && n != q
      modifies this`mem
      ensures exists m1 :: TakenBy(old(mem), m1, mem, q, p, n)
    {
      hide Load32, Store32, WordAt;
      mem := Store32(mem, Load32(mem, q + NEXT) + PREV, Load32(mem, q + PREV));
      mem := Store32(mem, Load32(mem, q + PREV) + NEXT, Load32(mem, q + NEXT));
      ghost var m1 := mem;
      assert UnlinkStores(old(mem), m1, p, n);
      mem := Store32(mem, q + VALID, VAL_ALLOC);
      assert TakenBy(old(mem), m1, mem, q, p, n);
    }

    /** The first free chunk that is big enough, or the sentinel. */
    method FindFit(need: int) returns (q: int, ghost i: nat)
      requires Shape(mem, head, held, t, l)
      ensures i <= |l| && q == At(head, l, i) && (q == head <==> i == |l|)
      ensures q != head ==> FirstFit(t, q, need)
      ensures q == head <==> forall f :: !Fits(t, f, need)
    {
      hide Load32, WordAt, MappedExactly, Tiled;
      NodeReady(mem, head, t, l, -1);
      NodeReady(mem, head, t, l, 0);
      q := Load32(mem, head + NEXT);
      i := 0;
      while q != head && (Load32(mem, q + SIZE) < need || Load32(mem, q + VALID) == VAL_SBRK)
        invariant i <= |l| && q == At(head, l, i) && WordAt(mem, q + SIZE) && WordAt(mem, q + VALID)
        invariant forall j :: 0 <= j < i ==> !Fits(t, l[j], need)
        decreases |l| - i
      {
        NodeReady(mem, head, t, l, i);
        q := Load32(mem, q + NEXT);
        i := i + 1;
        NodeReady(mem, head, t, l, i);
      }
      if i < |l| { NodeReady(mem, head, t, l, i); }
      forall f | Fits(t, f, need) ensures i < |l| && q <= f {
        assert Found(t, l, f);
        var j :| 0 <= j < |l| && l[j] == f;
        assert InOrder(l, i, j);
      }
    }

    /** The chunk to take a block of `n` bytes from: the first fit, or else the
        chunk of a new region. */
    method Obtain(n: int, os: Grant) returns (q: int, ghost i: nat)
      requires Valid() && CanServe(t, n, minhunk) && GrantOk(n, os)
      modifies this
      ensures HunksOk() && maxhunk == old(maxhunk) && PayloadKept(old(mem), mem, old(t))
      ensures q == 0 <==> os.Refuse? && NoneFits(old(t), n)
      ensures q == 0 ==> mem == old(mem) && held == old(held) && t == old(t) && l == old(l) && errno == ENOMEM
      ensures q != 0 ==>
        && errno == old(errno) && Shape(mem, head, held, t, l) && Coalesced(t) && i < |l| && l[i] == q
        && q in t && t[q].kind == Kind.Free && t[q].size >= Need(n) && NoVacantBut(t, t[q].base)
        && Live(t) == Live(old(t))
      ensures q != 0 && !NoneFits(old(t), n) ==> FirstFit(old(t), q, Need(n)) && t == old(t) && mem == old(mem)
      ensures minhunk == if NoneFits(old(t), n) && Need(n) + SBRK_EXTRA <= old(minhunk) < maxhunk then 2 * old(minhunk)
                         else old(minhunk)
      ensures held == if NoneFits(old(t), n) && os.Give? then old(held)[os.base := AskSize(Need(n), old(minhunk))]
                      else old(held)
      ensures os.Give? && NoneFits(old(t), n) ==>
        var size := AskSize(Need(n), old(minhunk));
        && q == os.base + SBRK_EXTRA && t == AddRegion(old(t), os.base, size) && q in t
        && t[q].size == size - SBRK_EXTRA
    {
      hide Load32, WordAt, MappedExactly, Tiled, Ring, HeadersOk, AskSize, AddRegion, Need, Need32, Ask32;
      NeedExact(n);
      if Servable(n, minhunk) { RequestWraps(n, minhunk); }
      var need := Need32(n);
      q, i := FindFit(need);
      PayloadSelf(mem, head, t);
      TilesPositive(t);
      if q == head {
        q, i := MoreCore(need, os);
        if q == 0 {
          return;
        }
        NewChunk(old(t), os.base, need, old(minhunk));
      }
    }

    method Malloc(n: int, os: Grant) returns (r: int)
      requires Valid() && CanServe(t, n, minhunk) && GrantOk(n, os)
      modifies this
      ensures Valid() && PayloadKept(old(mem), mem, old(t))
      ensures r == 0 <==> os.Refuse? && NoneFits(old(t), n)
      ensures r == 0 ==> mem == old(mem) && held == old(held) && t == old(t) && l == old(l) && errno == ENOMEM
      ensures r != 0 ==> NewBlock(old(t), t, r - ALLOC_EXTRA, Need(n)) && errno == old(errno)
      ensures maxhunk == old(maxhunk)
      ensures forall f :: FirstFit(old(t), f, Need(n)) ==>
        && t == Carved(old(t), f, Need(n))
        && r - ALLOC_EXTRA + t[r - ALLOC_EXTRA].size == f + old(t)[f].size
        && t[r - ALLOC_EXTRA].size == if old(t)[f].size > Need(n) + 16 then Need(n) else old(t)[f].size
      ensures minhunk == if NoneFits(old(t), n) && Need(n) + SBRK_EXTRA <= old(minhunk) < maxhunk then 2 * old(minhunk)
                         else old(minhunk)
      ensures held == if NoneFits(old(t), n) && os.Give? then old(held)[os.base := AskSize(Need(n), old(minhunk))]
                      else old(held)
      ensures os.Give? && NoneFits(old(t), n) ==>
        var size := AskSize(Need(n), old(minhunk));
        && os.base < r - ALLOC_EXTRA < os.base + size
        && t == Carved(AddRegion(old(t), os.base, size), os.base + SBRK_EXTRA, Need(n))
    {
      hide Load32, WordAt, MappedExactly, Tiled, Ring, HeadersOk, AskSize, Carved, AddRegion, Need, Need32, Ask32;
      var q, i := Obtain(n, os);
      if q == 0 {
        return 0;
      }
      NeedExact(n);
      ghost var t1, m1 := t, mem;
      var a := Carve(q, Need32(n), i);
      SamePayload(old(t), t1);
      PayloadTrans(old(mem), m1, mem, t1, old(t));
      TilesPositive(t);
      r := a + ALLOC_EXTRA;
    }

    /** Lets the free chunk `r` swallow the free chunk that follows it, if there is one. */
    method MergeAfter(r: int, next: int, ghost k: nat)
      requires Shape(mem, head, held, t, l) && k < |l| && l[k] == r && next == At(head, l, k + 1)
      requires r in t && t[r].kind == Kind.Free && CoalescedBut(t, r) && NoVacantBut(t, t[r].base)
      modifies this`mem, this`t, this`l
      ensures Shape(mem, head, held, t, l) && k < |l| && l[k] == r
      ensures r in t && t[r].kind == Kind.Free && t[r].base == old(t)[r].base
      ensures CoalescedBut(t, r) && NoFreeAfter(t, r) && NoVacantBut(t, t[r].base)
      ensures Live(t) == Live(old(t)) && Regions(t) == Regions(old(t)) && PayloadKept(old(mem), mem, t)
    {
      hide Load32, Store32, WordAt, MappedExactly, Ring, Listed, CoalescedBut, NoVacantBut, NoFreeAfter;
      NodeReady(mem, head, t, l, k);
      NodeReady(mem, head, t, l, k + 1);
      NotBelowHead(head, t, r);
      PayloadSelf(mem, head, t);
      if !NoFreeAfter(t, r) { NextMerges(t, l, k, r); }
      if r + Load32(mem, r + SIZE) == next && Load32(mem, next + VALID) == VAL_FREE {
        AbsorbNextSettles(t, r);
        AbsorbRegions(t, r);
        AbsorbTiled(t, r);
        SwallowNode(r, next, k + 1);
      }
    }

    /** Node `b` is swallowed by the node before it, a free chunk that it touches. */
    method SwallowNode(a: int, b: int, ghost j: nat)
      requires Shape(mem, head, held, t, l) && 0 < j < |l| && l[j - 1] == a && l[j] == b
      requires a in t && t[a].kind == Kind.Free && b in t && t[b].kind == Kind.Free && b == a + t[a].size
      modifies this`mem, this`t, this`l
      ensures t == Absorb(old(t), a) && l == Replace(old(l), j, j + 1, [])
      ensures Shape(mem, head, Regions(old(t)), t, l) && PayloadKept(old(mem), mem, t)
    {
      hide Load32, Store32, WordAt, MappedExactly, Ring, Listed, Absorb;
      NodeReady(mem, head, t, l, j - 1);
      NodeReady(mem, head, t, l, j);
      NodeReady(mem, head, t, l, j + 1);
      NeighboursApart(head, t, l, j);
      NotBelowHead(head, t, a);
      NotBelowHead(head, t, b);
      ghost var m1 := Swallow(a, b, At(head, l, j + 1));
      AbsorbShape(old(mem), m1, mem, head, t, l, a, j);
      t := Absorb(t, a);
      l := Replace(l, j, j + 1, []);
    }

    /** Adds the chunk `b` to the chunk `a` before it, which is also the node before it. */
    method Swallow(a: int, b: int, ghost q: int) returns (ghost m1: Mem)
      requires LinksMapped(mem, a) && LinksMapped(mem, b) && LinksMapped(mem, q)
      requires WordAt(mem, a + SIZE) && WordAt(mem, b + SIZE) && Load32(mem, a + SIZE) + Load32(mem, b + SIZE) < TWO_32
      requires HeadersApart(a, b) && HeadersApart(q, b) && HeadersApart(a, q) && a != b && q != b
      requires WordIs(mem, b + NEXT, q)
      modifies this`mem
      ensures m1 == Store32(old(mem), a + SIZE, Load32(old(mem), a + SIZE) + Load32(old(mem), b + SIZE))
      ensures LinksMapped(m1, a) && LinksMapped(m1, q) && UnlinkStores(m1, mem, a, q)
    {
      hide Load32, Store32, WordAt;
      mem := Store32(mem, a + SIZE, Load32(mem, a + SIZE) + Load32(mem, b + SIZE));
      m1 := mem;
      mem := Store32(mem, a + NEXT, Load32(mem, b + NEXT));
      mem := Store32(mem, Load32(mem, b + NEXT) + PREV, a);
    }

    /** Lets the free chunk in front of `r`, if there is one, swallow `r`. */
    method MergeBefore(r0: int, ghost k0: nat) returns (r: int, ghost k: nat)
      requires Shape(mem, head, held, t, l) && k0 < |l| && l[k0] == r0
      requires r0 in t && t[r0].kind == Kind.Free && CoalescedBut(t, r0) && NoFreeAfter(t, r0)
      requires NoVacantBut(t, t[r0].base)
      modifies this`mem, this`t, this`l
      ensures Shape(mem, head, held, t, l) && k < |l| && l[k] == r && r in t && t[r].kind == Kind.Free
      ensures t[r].base == old(t)[r0].base && Coalesced(t) && NoVacantBut(t, t[r].base)
      ensures Live(t) == Live(old(t)) && Regions(t) == Regions(old(t)) && PayloadKept(old(mem), mem, t)
    {
      hide Load32, Store32, WordAt, MappedExactly, Ring, Listed, Coalesced, CoalescedBut, NoVacantBut, NoFreeAfter;
      r, k := r0, k0;
      NodeReady(mem, head, t, l, k);
      NodeReady(mem, head, t, l, k - 1);
      PayloadSelf(mem, head, t);
      forall a | a in t && t[a].kind == Kind.Free && a + t[a].size == r ensures 0 < k && l[k - 1] == a {
        PrevMerges(t, l, k, r, a);
      }
      var prev := Load32(mem, r + PREV);
      if prev != head && Load32(mem, prev + VALID) == VAL_FREE && prev + Load32(mem, prev + SIZE) == r {
        AbsorbPrevSettles(t, prev, r);
        AbsorbRegions(t, prev);
        SwallowNode(prev, r, k);
        r, k := prev, k - 1;
      } else {
        NothingToMerge(t, r);
      }
    }

    /** GEMDOS Mfree: the region must be held, so no region goes back twice. */
    method OsMfree(q: int)
      requires q in held
      modifies this`mem, this`held
      ensures Unmapped(old(mem), mem, q, old(held)[q]) && held == old(held) - {q}
    {
      mem := map k | k in mem && !(q <= k < q + held[q]) :: mem[k];
      held := held - {q};
    }

    /** Takes the neighbours `a` and `b` out of the list. */
    method UnlinkPair(a: int, b: int, ghost p: int, ghost q: int)
      requires LinksMapped(mem, a) && LinksMapped(mem, b) && LinksMapped(mem, p) && LinksMapped(mem, q)
      requires WordIs(mem, a + PREV, p) && WordIs(mem, b + NEXT, q)
      requires HeadersApart(p, a) && HeadersApart(p, b) && p != a && p != b
      modifies this`mem
      ensures UnlinkStores(old(mem), mem, p, q)
    {
      hide Load32, Store32, WordAt;
      mem := Store32(mem, Load32(mem, a + PREV) + NEXT, Load32(mem, b + NEXT));
      mem := Store32(mem, Load32(mem, b + NEXT) + PREV, Load32(mem, a + PREV));
    }

    /** Gives the region of the free chunk `r` back if nothing else is in it. */
    method ReturnRegion(r: int, ghost k: nat)
      requires Shape(mem, head, held, t, l) && k < |l| && l[k] == r && r in t && t[r].kind == Kind.Free
      requires Coalesced(t) && NoVacantBut(t, t[r].base)
      modifies this`mem, this`t, this`l, this`held
      ensures Shape(mem, head, held, t, l) && Settled(t)
      ensures Live(t) == Live(old(t)) && PayloadKept(old(mem), mem, t)
      ensures held == if Vacant(old(t), old(t)[r].base) then old(held) - {old(t)[r].base} else old(held)
    {
      hide Load32, Store32, WordAt, MappedExactly, Ring, Listed, Coalesced, DropRegion;
      NodeReady(mem, head, t, l, k);
      NodeReady(mem, head, t, l, k - 1);
      PayloadSelf(mem, head, t);
      HeadNotListed(head, t, l);
      if Vacant(t, t[r].base) { VacantFound(t, l, k, r); }
      var prev := Load32(mem, r + PREV);
      if prev != head && Load32(mem, prev + VALID) == VAL_SBRK
         && Load32(mem, prev + SBRK_SIZE) == Load32(mem, r + SIZE) {
        FoundVacant(t, l, k, r);
        NodeReady(mem, head, t, l, k - 2);
        NodeReady(mem, head, t, l, k + 1);
        DropSettles(t, prev);
        ghost var p, q := At(head, l, k - 2), At(head, l, k + 1);
        PairApart(head, t, l, k);
        UnlinkPair(prev, r, p, q);
        ghost var m1 := mem;
        OsMfree(prev);
        DropShape(old(mem), m1, mem, head, t, l, k);
        t := DropRegion(t, prev);
        l := Replace(l, k - 1, k + 1, []);
      }
    }

    /** A pointer behind a header, live or not, or one behind some word that does
        not say that a block is live. */
    ghost predicate Passable(r: int)
      reads this
    {
      || r - ALLOC_EXTRA in t
      || (WordAt(mem, r - ALLOC_EXTRA + VALID) && Load32(mem, r - ALLOC_EXTRA + VALID) != VAL_ALLOC)
    }

    method Free(param: int)
      requires Valid() && (param == 0 || Passable(param))
      modifies this
      ensures Valid() && errno == old(errno) && minhunk == old(minhunk) && maxhunk == old(maxhunk)
      ensures Live(t) == Live(old(t)) - {param - ALLOC_EXTRA} && PayloadKept(old(mem), mem, t)
      ensures param - ALLOC_EXTRA !in Live(old(t)) ==>
        mem == old(mem) && held == old(held) && t == old(t) && l == old(l)
      ensures held == HeldAfter(old(held), Live(t))
    {
      hide Load32, Store32, WordAt, MappedExactly, Ring, Listed, Coalesced, CoalescedBut, NoVacantBut, HeadersOk, Tiled;
      EveryRegionHoldsLive(t);
      if param == 0 {
        TilesPositive(t);
        PayloadSelf(mem, head, t);
        return;
      }
      var r := param - ALLOC_EXTRA;
      if r in t {
        HeaderMapped(mem, head, t, r);
        TileHeader(mem, head, t, r);
      }
      if Load32(mem, r + VALID) != VAL_ALLOC {
        PayloadSelf(mem, head, t);
        return;
      }
      FreeUnsettles(t, r);
      var next, k := LinkFree(r);
      ghost var m1, t1 := mem, t;
      MergeAfter(r, next, k);
      ghost var m2, t2 := mem, t;
      SamePayload(t1, t2);
      PayloadTrans(old(mem), m1, m2, t1, t2);
      var r', k' := MergeBefore(r, k);
      ghost var m3, t3 := mem, t;
      SamePayload(t2, t3);
      PayloadTrans(old(mem), m2, m3, t2, t3);
      SetKindRegions(old(t), r, Kind.Free);
      if Vacant(t, t[r'].base) { VacantHoldsNothing(t, t[r'].base); }
      ReturnRegion(r', k');
      SamePayload(t3, t);
      PayloadTrans(old(mem), m3, mem, t3, t);
      EveryRegionHoldsLive(t);
    }

    /** The program stores a byte into one of its blocks. */
    method Write(p: int, offset: int, value: byte)
      requires Valid() && p - ALLOC_EXTRA in Live(t) && 0 <= offset < Live(t)[p - ALLOC_EXTRA] - ALLOC_EXTRA
      modifies this`mem
      ensures Valid() && p + offset in old(mem) && mem == old(mem)[p + offset := value]
    {
      TileMapped(mem, head, t, p - ALLOC_EXTRA);
      mem := mem[p + offset := value];
      PayloadWrite(old(mem), mem, head, t, l, p - ALLOC_EXTRA);
    }

    /** memcpy between two blocks. */
    method Memcpy(dst: int, src: int, n: int)
      requires Mapped(mem, dst, n) && Mapped(mem, src, n) && (dst + n <= src || src + n <= dst)
      modifies this`mem
      ensures mem.Keys == old(mem).Keys
      ensures forall j :: dst <= j < dst + n ==> mem[j] == old(mem)[src + (j - dst)]
      ensures forall k :: k in mem && !(dst <= k < dst + n) ==> mem[k] == old(mem)[k]
    {
      var i := 0;
      while i < n
        invariant mem.Keys == old(mem).Keys && (0 <= i <= n || n < 0 == i)
        invariant forall j :: dst <= j < dst + i ==> mem[j] == old(mem)[src + (j - dst)]
        invariant forall k :: k in mem && !(dst <= k < dst + i) ==> mem[k] == old(mem)[k]
      {
        mem := mem[dst + i := mem[src + i]];
        i := i + 1;
      }
    }

    /** A bigger or smaller block for the bytes of the live block `r`: allocate,
        copy `count` bytes, free. */
    method Move(r: int, n: int, count: int, os: Grant) returns (newr: int)
      requires Valid() && CanServe(t, n, minhunk) && GrantOk(n, os)
      requires r - ALLOC_EXTRA in Live(t) && 0 <= count <= n && count <= Live(t)[r - ALLOC_EXTRA] - ALLOC_EXTRA
      modifies this
      ensures Valid()
      ensures newr == 0 <==> os.Refuse? && NoneFits(old(t), n)
      ensures newr == 0 ==> mem == old(mem) && held == old(held) && t == old(t) && l == old(l) && errno == ENOMEM
      ensures newr != 0 ==> newr != r && errno == old(errno)
      ensures newr != 0 ==> Reallocated(old(mem), old(t), mem, t, r, newr, n, count)
      ensures maxhunk == old(maxhunk)
      ensures minhunk == if NoneFits(old(t), n) && Need(n) + SBRK_EXTRA <= old(minhunk) < maxhunk then 2 * old(minhunk)
                         else old(minhunk)
      ensures NoneFits(old(t), n) && os.Give? ==>
        os.base in held && held[os.base] == AskSize(Need(n), old(minhunk))
    {
      hide Load32, Store32, WordAt, Tiled, MappedExactly, Ring, Listed, Settled, HeadersOk;
      ghost var t0, m0, p := t, mem, r - ALLOC_EXTRA;
      newr := Malloc(n, os);
      if newr != 0 {
        ghost var t1, m1, a := t, mem, newr - ALLOC_EXTRA;
        BlocksReady(mem, head, t, a, p, count);
        Memcpy(newr, r, count);
        PayloadWrite(m1, mem, head, t, l, a);
        ghost var m2 := mem;
        Free(r);
        assert newr - ALLOC_EXTRA in Live(t);
        MovedOk(m0, m1, m2, mem, t0, t1, t, r, newr, n, count);
      }
    }

    /** Whether the live block `p` and a free chunk behind it have `sz` bytes. */
    method HasRoom(p: int, sz: int) returns (ok: bool, next: int, ghost k: int)
      requires Valid() && p in Live(t)
      ensures ok <==> CanGrow(t, p, sz)
      ensures ok ==> 0 <= k < |l| && l[k] == next && p + t[p].size == next
    {
      hide Load32, Store32, WordAt, MappedExactly, Ring, Settled, Absorb;
      HeadNotListed(head, t, l);
      HeaderMapped(mem, head, t, p);
      TileHeader(mem, head, t, p);
      NotBelowHead(head, t, p);
      next, k := FirstNotBelow(p);
      NodeReady(mem, head, t, l, k);
      NodeBehind(t, l, p, k);
      var s := p + Load32(mem, p + SIZE);
      ok :=
        && s == next && Load32(mem, p + SIZE) + Load32(mem, next + SIZE) >= sz
        && Load32(mem, next + VALID) == VAL_FREE;
    }

    /** Lets the live block `p` grow into the free chunk behind it, if that
        makes it big enough. */
    method GrowInPlace(p: int, sz: int) returns (ok: bool)
      requires Valid() && p in Live(t)
      modifies this`mem, this`t, this`l
      ensures Valid() && PayloadKept(old(mem), mem, t) && Regions(t) == Regions(old(t))
      ensures !ok ==> mem == old(mem) && t == old(t) && l == old(l)
      ensures ok <==> CanGrow(old(t), p, sz)
      ensures ok ==> t == Absorb(old(t), p) && errno == old(errno) && held == old(held)
      ensures ok ==>
        p in Live(t) && Live(t) == Live(old(t))[p := Live(t)[p]] && Live(t)[p] >= sz && Live(t)[p] >= Live(old(t))[p]
    {
      hide Shape, Settled, Absorb;
      PayloadHere();
      var next;
      ghost var k;
      ok, next, k := HasRoom(p, sz);
      if ok {
        GrowInto(p, next, k);
      }
    }

    lemma PayloadHere()
      requires Valid()
      ensures PayloadKept(mem, mem, t)
    {
      PayloadSelf(mem, head, t);
    }

    method GrowInto(p: int, next: int, ghost k: nat)
      requires Valid() && p in Live(t) && k < |l| && l[k] == next && p + t[p].size == next && next in t
      requires t[next].kind == Kind.Free
      modifies this`mem, this`t, this`l
      ensures Valid() && PayloadKept(old(mem), mem, t) && Regions(t) == Regions(old(t))
      ensures t == Absorb(old(t), p)
      ensures Live(t) == Live(old(t))[p := old(t)[p].size + old(t)[next].size] && 0 < old(t)[next].size
    {
      hide Load32, Store32, WordAt, MappedExactly, Ring, Settled, Absorb;
      NodeReady(mem, head, t, l, k);
      NodeReady(mem, head, t, l, k - 1);
      NodeReady(mem, head, t, l, k + 1);
      HeaderMapped(mem, head, t, p);
      TileHeader(mem, head, t, p);
      NeighboursApart(head, t, l, k);
      NotBelowHead(head, t, next);
      NotBelowHead(head, t, p);
      BlockApart(head, t, l, p, k);
      GrowSettles(t, p);
      AbsorbRegions(t, p);
      ghost var m1 := Annex(p, next, At(head, l, k - 1), At(head, l, k + 1));
      AbsorbShape(old(mem), m1, mem, head, t, l, p, k);
      t := Absorb(t, p);
      l := Replace(l, k, k + 1, []);
    }

    /** Adds the size of the free chunk `b` to the block `a` and takes `b` out of the list. */
    method Annex(a: int, b: int, ghost p: int, ghost q: int) returns (ghost m1: Mem)
      requires LinksMapped(mem, b) && LinksMapped(mem, p) && LinksMapped(mem, q)
      requires WordAt(mem, a + SIZE) && WordAt(mem, b + SIZE)
      requires 0 <= Load32(mem, a + SIZE) + Load32(mem, b + SIZE) < TWO_32
      requires HeadersApart(a, b) && HeadersApart(a, p) && HeadersApart(a, q) && HeadersApart(p, b) && p != b
      requires WordIs(mem, b + NEXT, q) && WordIs(mem, b + PREV, p)
      modifies this`mem
      ensures m1 == Store32(old(mem), a + SIZE, Load32(old(mem), a + SIZE) + Load32(old(mem), b + SIZE))
      ensures LinksMapped(m1, p) && LinksMapped(m1, q) && UnlinkStores(m1, mem, p, q)
    {
      hide Load32, Store32, WordAt;
      mem := Store32(mem, a + SIZE, Load32(mem, a + SIZE) + Load32(mem, b + SIZE));
      m1 := mem;
      var prev := Load32(mem, b + PREV);
      mem := Store32(mem, prev + NEXT, Load32(mem, b + NEXT));
      mem := Store32(mem, Load32(mem, b + NEXT) + PREV, prev);
    }

    /** The live block `r` gets another size. */
    method Resize(r: int, n: int, os: Grant) returns (res: int)
      requires Valid() && GrantOk(n, os) && r - ALLOC_EXTRA in Live(t) && r != 0 && n != 0
      requires Sizable(n) && (Stays(t, r - ALLOC_EXTRA, n) || CanServe(t, n, minhunk))
      modifies this
      ensures Valid()
      ensures var size := Live(old(t))[r - ALLOC_EXTRA];
        if res == 0 then
          size < Need(n) && os.Refuse? && mem == old(mem) && held == old(held) && t == old(t) && l == old(l)
        else Reallocated(old(mem), old(t), mem, t, r, res, n, if size - ALLOC_EXTRA < n then size - ALLOC_EXTRA else n)
      ensures Resized(old(t), t, r, res, n, os.Refuse? && NoneFits(old(t), n))
      ensures errno == if Asks(old(t), r, n) && os.Refuse? then ENOMEM else old(errno)
      ensures maxhunk == old(maxhunk)
      ensures minhunk == if Asks(old(t), r, n) && Need(n) + SBRK_EXTRA <= old(minhunk) < maxhunk then 2 * old(minhunk)
                         else old(minhunk)
      ensures Asks(old(t), r, n) && os.Give? ==>
        os.base in held && held[os.base] == AskSize(Need(n), old(minhunk))
    {
      hide Load32, WordAt, Tiled, MappedExactly, Ring, Listed, Settled, HeadersOk, Need32, Ask32, AskSize, Absorb;
      hide Reallocated, CanGrow, NoneFits;
      var p := r - ALLOC_EXTRA;
      HeaderMapped(mem, head, t, p);
      TileHeader(mem, head, t, p);
      NeedExact(n);
      var sz := Need32(n);
      SameBlock(mem, head, t, r, n);
      res := r;
      if Load32(mem, p + SIZE) > sz + 2 * ALLOC_EXTRA {
        var newr := Move(r, n, n, os);
        if newr != 0 {
          res := newr;
        }
      } else if Load32(mem, p + SIZE) < sz {
        var ok := GrowInPlace(p, sz);
        if ok {
          GrownOk(old(mem), old(t), mem, t, r, n);
        } else {
          res := Move(r, n, Load32(mem, p + SIZE) - ALLOC_EXTRA, os);
        }
      }
    }

    method Realloc(r: int, n: int, os: Grant) returns (res: int)
      requires Valid() && CanResize(t, r, n, minhunk) && GrantOk(n, os)
      requires r == 0 || Passable(r)
      modifies this
      ensures Valid()
      ensures r == 0 && res != 0 ==>
        NewBlock(old(t), t, res - ALLOC_EXTRA, Need(n)) && PayloadKept(old(mem), mem, old(t))
      ensures r == 0 ==> (res == 0 <==> os.Refuse? && NoneFits(old(t), n))
      ensures r == 0 && res == 0 ==>
        mem == old(mem) && held == old(held) && t == old(t) && l == old(l) && errno == ENOMEM
      ensures r != 0 && n == 0 ==> res == 0 && errno == 0
      ensures r != 0 && n == 0 ==> Live(t) == Live(old(t)) - {r - ALLOC_EXTRA} && PayloadKept(old(mem), mem, t)
      ensures r != 0 && n != 0 && r - ALLOC_EXTRA !in Live(old(t)) ==>
        res == 0 && errno == EINVAL && mem == old(mem) && held == old(held) && t == old(t) && l == old(l)
      ensures r != 0 && n != 0 && r - ALLOC_EXTRA in Live(old(t)) ==>
        var size := Live(old(t))[r - ALLOC_EXTRA];
        if res == 0 then
          size < Need(n) && os.Refuse? && mem == old(mem) && held == old(held) && t == old(t) && l == old(l)
        else Reallocated(old(mem), old(t), mem, t, r, res, n, if size - ALLOC_EXTRA < n then size - ALLOC_EXTRA else n)
      ensures r != 0 && n != 0 && r - ALLOC_EXTRA in Live(old(t)) ==>
        Resized(old(t), t, r, res, n, os.Refuse? && NoneFits(old(t), n))
      ensures r == 0 || (n != 0 && r - ALLOC_EXTRA in Live(old(t))) ==>
        errno == if Asks(old(t), r, n) && os.Refuse? then ENOMEM else old(errno)
      ensures maxhunk == old(maxhunk)
      ensures minhunk == if Asks(old(t), r, n) && Need(n) + SBRK_EXTRA <= old(minhunk) < maxhunk then 2 * old(minhunk)
                         else old(minhunk)
      ensures Asks(old(t), r, n) && os.Give? ==>
        os.base in held && held[os.base] == AskSize(Need(n), old(minhunk))
    {
      hide Load32, WordAt, Tiled, MappedExactly, Ring, Listed, Settled, HeadersOk, Need32, Ask32, AskSize, Absorb;
      if r == 0 {
        TilesPositive(t);
        res := Malloc(n, os);
        return;
      }
      if n == 0 {
        Free(r);
        errno := 0;
        return 0;
      }
      var p := r - ALLOC_EXTRA;
      if p in t {
        HeaderMapped(mem, head, t, p);
        TileHeader(mem, head, t, p);
      }
      if Load32(mem, p + VALID) != VAL_ALLOC {
        errno := EINVAL;
        return 0;
      }
      res := Resize(r, n, os);
    }

    /** Whether `CanServe` holds, found out without changing anything. */
    method ServesNow(n: int) returns (ok: bool)
      requires Valid()
      ensures ok <==> CanServe(t, n, minhunk)
    {
      hide Load32, WordAt, Tiled, MappedExactly, Ring, Listed, Settled, HeadersOk;
      var q, i := FindFit(Need(n));
      ok := Sizable(n) && (minhunk <= TWO_32 - PAGE_SIZE || q != head);
    }

    method ResizesNow(r: int, n: int) returns (ok: bool)
      requires Valid() && (r == 0 || r - ALLOC_EXTRA in Live(t))
      ensures ok <==> CanResize(t, r, n, minhunk)
    {
      hide Load32, WordAt, Tiled, MappedExactly, Ring, Listed, Settled, HeadersOk, CanServe, CanGrow;
      ok := ServesNow(n);
      if r != 0 && !ok {
        var p := r - ALLOC_EXTRA;
        HeaderMapped(mem, head, t, p);
        TileHeader(mem, head, t, p);
        var size := Load32(mem, p + SIZE);
        var room, next, k := HasRoom(p, Need(n));
        ok := n == 0 || (Sizable(n) && size <= Need(n) + 2 * ALLOC_EXTRA && (size >= Need(n) || room));
      }
    }
  }
}
