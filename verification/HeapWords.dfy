/** How the layout and the list of a heap are stored in memory, and what a
    store into one header leaves alone. */
module HeapWords {
  import opened CInt
  import opened Memory
  import opened HeapLayout
  import opened HeapList

  const VAL_FREE := 0xf4ee_0abc
  const VAL_ALLOC := 0xa11c_0abc
  const VAL_SBRK := 0xb04d_0abc
  const VALID := 0  // further offsets in a header
  const SIZE := 12
  const SBRK_SIZE := 16

  function Tag(k: Kind): int {
    match k
    case Region => VAL_SBRK
    case Free => VAL_FREE
    case Used => VAL_ALLOC
  }

  ghost predicate HeaderOk(m: Mem, t: Tiles, a: int)
    requires a in t
  {
    && WordAt(m, a + VALID) && Load32(m, a + VALID) == Tag(t[a].kind)
    && WordAt(m, a + SIZE) && Load32(m, a + SIZE) == t[a].size
    && (t[a].kind == Region ==>
      WordAt(m, a + SBRK_SIZE) && Load32(m, a + SBRK_SIZE) == t[a].end - a - SBRK_EXTRA)
  }

  /** No region holds the sentinel or ends at it. */
  ghost predicate Clear(head: int, t: Tiles, a: int)
    requires a in t
  {
    t[a].end < head || head + ALLOC_EXTRA <= t[a].base
  }

  ghost predicate AllClear(head: int, t: Tiles) {
    forall a {:trigger Clear(head, t, a)} :: a in t ==> Clear(head, t, a)
  }

  ghost predicate HeadersOk(m: Mem, head: int, t: Tiles) {
    && (forall a {:trigger HeaderOk(m, t, a)} :: a in t ==> HeaderOk(m, t, a))
    && AllClear(head, t)
  }

  ghost predicate InHeld(held: map<int, int>, q: int, k: int) {
    q in held && q <= k < q + held[q]
  }

  /** The bytes that may be used are those of the sentinel and of the held regions. */
  ghost predicate MappedExactly(keys: set<int>, head: int, held: map<int, int>) {
    && (forall k :: head <= k < head + ALLOC_EXTRA ==> k in keys)
    && (forall k, q :: InHeld(held, q, k) ==> k in keys)
    && (forall k :: k in keys ==> head <= k < head + ALLOC_EXTRA || exists q :: InHeld(held, q, k))
  }

  /** Everything but the merging of free space. */
  ghost predicate Shape(m: Mem, head: int, held: map<int, int>, t: Tiles, l: seq<int>) {
    && 0 < head && head + ALLOC_EXTRA <= TWO_32
    && Tiled(t) && held == Regions(t) && MappedExactly(m.Keys, head, held)
    && HeadersOk(m, head, t) && Listed(t, l) && Ring(m, head, l)
  }

  /** The heap in memory, word by word: mark and size of every piece, and the size
      of a region behind its header. */
  lemma HeaderWords(m: Mem, head: int, held: map<int, int>, t: Tiles, l: seq<int>, a: int)
    requires Shape(m, head, held, t, l) && a in t
    ensures var k := t[a].kind;
      WordIs(m, a, if k == Region then 0xb04d0abc else if k == Free then 0xf4ee0abc else 0xa11c0abc)
    ensures WordIs(m, a + 12, t[a].size)
    ensures t[a].kind == Region ==> a in held && WordIs(m, a + 16, held[a] - 20)
  {
    hide Load32, WordAt, Ring, Listed, MappedExactly;
    assert HeaderOk(m, t, a) && TileOk(t, a);
  }

  /** ... and the links of the i-th node of the list. */
  lemma LinkWords(m: Mem, head: int, held: map<int, int>, t: Tiles, l: seq<int>, i: nat)
    requires Shape(m, head, held, t, l) && i < |l|
    ensures WordIs(m, l[i] + 4, if i + 1 < |l| then l[i + 1] else head)
    ensures WordIs(m, l[i] + 8, if i > 0 then l[i - 1] else head)
    ensures WordIs(m, head + 4, l[0]) && WordIs(m, head + 8, l[|l| - 1])
  {
    hide Load32, WordAt, Tiled, Listed, MappedExactly;
    assert LinkOk(m, head, l, i) && LinkOk(m, head, l, i - 1) && LinkOk(m, head, l, -1) && LinkOk(m, head, l, |l| - 1);
  }

  lemma TileMapped(m: Mem, head: int, t: Tiles, a: int)
    requires Tiled(t) && MappedExactly(m.Keys, head, Regions(t)) && a in t
    ensures Mapped(m, a, t[a].size)
  {
    assert TileOk(t, a) && TileOk(t, t[a].base);
    forall k | a <= k < a + t[a].size ensures k in m {
      assert InHeld(Regions(t), t[a].base, k);
    }
  }

  /** The sentinel and every tile begin with a header of 16 mapped bytes. */
  ghost predicate IsHeader(head: int, t: Tiles, x: int) {
    x == head || x in t
  }

  lemma HeaderMapped(m: Mem, head: int, t: Tiles, x: int)
    requires 0 < head && head + ALLOC_EXTRA <= TWO_32
    requires Tiled(t) && MappedExactly(m.Keys, head, Regions(t)) && IsHeader(head, t, x)
    ensures 0 < x < TWO_32
    ensures WordAt(m, x) && WordAt(m, x + NEXT) && WordAt(m, x + PREV) && WordAt(m, x + SIZE)
  {
    if x in t {
      TileMapped(m, head, t, x);
      assert TileOk(t, x);
    }
  }

  ghost predicate HeadersApart(x: int, y: int) {
    x == y || x + ALLOC_EXTRA <= y || y + ALLOC_EXTRA <= x
  }

  lemma Apartness(head: int, t: Tiles)
    requires Tiled(t) && AllClear(head, t)
    ensures head !in t
    ensures forall x, y {:trigger HeadersApart(x, y)} ::
      IsHeader(head, t, x) && IsHeader(head, t, y) ==> HeadersApart(x, y)
  {
    forall x, y | IsHeader(head, t, x) && IsHeader(head, t, y)
      ensures HeadersApart(x, y) && (x in t ==> x != head)
    {
      if x in t { assert TileOk(t, x) && Clear(head, t, x); }
      if y in t { assert TileOk(t, y) && Clear(head, t, y); }
      if x in t && y in t { assert Apart(t, x, y) && Apart(t, y, x); }
    }
    assert head in t ==> HeadersApart(head, head);
  }

  lemma NodesAreHeaders(head: int, t: Tiles, l: seq<int>)
    requires Listed(t, l)
    ensures forall i :: -1 <= i <= |l| ==> IsHeader(head, t, At(head, l, i))
  {
    forall i | -1 <= i <= |l| ensures IsHeader(head, t, At(head, l, i)) { assert NodeOk(t, l, i); }
  }

  lemma HeadNotListed(head: int, t: Tiles, l: seq<int>)
    requires Tiled(t) && AllClear(head, t) && Listed(t, l)
    ensures head !in l
  {
    Apartness(head, t);
    forall i | 0 <= i < |l| ensures l[i] != head { assert NodeOk(t, l, i); }
  }

  // ---- stores into link fields ----

  ghost predicate InPayload(t: Tiles, b: int, k: int) {
    b in t && t[b].kind == Used && b + ALLOC_EXTRA <= k < b + t[b].size
  }

  /** Every byte of every live block is what it was. */
  ghost predicate PayloadKept(m: Mem, m': Mem, t: Tiles) {
    forall b, k {:trigger InPayload(t, b, k)} :: InPayload(t, b, k) ==> k in m && k in m' && m'[k] == m[k]
  }

  lemma PayloadSelf(m: Mem, head: int, t: Tiles)
    requires Tiled(t) && MappedExactly(m.Keys, head, Regions(t))
    ensures PayloadKept(m, m, t)
  {
    forall b, k | InPayload(t, b, k) ensures k in m { TileMapped(m, head, t, b); }
  }

  ghost predicate InLinks(head: int, t: Tiles, x: int, k: int) {
    IsHeader(head, t, x) && x + NEXT <= k < x + SIZE
  }

  /** Only link fields of headers differ. */
  ghost predicate OnlyLinks(m: Mem, m': Mem, head: int, t: Tiles) {
    && m'.Keys == m.Keys
    && forall k :: k in m && m'[k] != m[k] ==> exists x :: InLinks(head, t, x, k)
  }

  lemma LinksKeepHeaders(m: Mem, m': Mem, head: int, t: Tiles)
    requires Tiled(t) && HeadersOk(m, head, t) && OnlyLinks(m, m', head, t)
    ensures HeadersOk(m', head, t)
  {
    Apartness(head, t);
    forall a | a in t ensures HeaderOk(m', t, a) {
      assert HeaderOk(m, t, a);
      forall k | a <= k < a + NEXT || a + SIZE <= k < a + ALLOC_EXTRA ensures k in m ==> m'[k] == m[k] {
        assert forall x :: InLinks(head, t, x, k) ==> HeadersApart(x, a);
      }
      if t[a].kind == Region {
        forall k | a + ALLOC_EXTRA <= k < a + SBRK_EXTRA ensures k in m ==> m'[k] == m[k] {
          assert TileOk(t, a) && Clear(head, t, a);
          assert forall x :: InLinks(head, t, x, k) ==> x == head || (Apart(t, a, x) && HeadersApart(x, a));
        }
      }
    }
  }

  lemma LinksKeepPayload(m: Mem, m': Mem, head: int, t: Tiles)
    requires Tiled(t) && AllClear(head, t) && OnlyLinks(m, m', head, t)
    requires MappedExactly(m.Keys, head, Regions(t))
    ensures PayloadKept(m, m', t)
  {
    forall b, k | InPayload(t, b, k) ensures k in m && m'[k] == m[k] {
      TileMapped(m, head, t, b);
      assert TileOk(t, b) && Clear(head, t, b);
      forall x ensures !InLinks(head, t, x, k) {
        assert x in t ==> Apart(t, b, x) && Apart(t, x, b) && TileOk(t, x);
      }
    }
  }

  lemma StoreLink(m: Mem, m': Mem, head: int, t: Tiles, x: int, at: int, w: int)
    requires IsHeader(head, t, x) && (at == x + NEXT || at == x + PREV)
    requires WordAt(m, at) && 0 <= w < TWO_32 && m' == Store32(m, at, w)
    ensures OnlyLinks(m, m', head, t)
  {
    forall k | k in m && m'[k] != m[k] ensures InLinks(head, t, x, k) {}
  }

  lemma OnlyLinksTrans(m: Mem, m': Mem, m'': Mem, head: int, t: Tiles)
    requires OnlyLinks(m, m', head, t) && OnlyLinks(m', m'', head, t)
    ensures OnlyLinks(m, m'', head, t)
  {
  }

  lemma PayloadTrans(m: Mem, m': Mem, m'': Mem, t: Tiles, t': Tiles)
    requires PayloadKept(m, m', t) && PayloadKept(m', m'', t')
    requires forall b, k :: InPayload(t', b, k) ==> InPayload(t, b, k)
    ensures PayloadKept(m, m'', t')
  {
  }

  /** Changing the mark of a chunk. */
  lemma MarkHeader(m: Mem, m': Mem, head: int, t: Tiles, r: int, kind: Kind)
    requires Tiled(t) && HeadersOk(m, head, t) && MappedExactly(m.Keys, head, Regions(t))
    requires r in t && t[r].kind != Region && kind != Region
    requires WordAt(m, r + VALID) && m' == Store32(m, r + VALID, Tag(kind))
    ensures HeadersOk(m', head, SetKind(t, r, kind))
    ensures PayloadKept(m, m', t) && PayloadKept(m, m', SetKind(t, r, kind))
  {
    hide Load32, Store32;
    var t' := SetKind(t, r, kind);
    forall a | a in t' ensures HeaderOk(m', t', a) {
      assert HeaderOk(m, t, a) && Apart(t, a, r) && Apart(t, r, a) && TileOk(t, a) && TileOk(t, r);
    }
    forall a | a in t' ensures Clear(head, t', a) { assert Clear(head, t, a); }
    forall b, k | InPayload(t, b, k) || InPayload(t', b, k) ensures k in m && m'[k] == m[k] {
      TileMapped(m, head, t, b);
      assert Apart(t, b, r) && Apart(t, r, b) && TileOk(t, r);
    }
  }

  /** The list is what it was while no byte of a link field changes. */
  lemma RingKept(m: Mem, m': Mem, head: int, t: Tiles, l: seq<int>)
    requires Listed(t, l) && Ring(m, head, l) && m'.Keys >= m.Keys
    requires forall x, k :: InLinks(head, t, x, k) && k in m ==> m'[k] == m[k]
    ensures Ring(m', head, l)
  {
    NodesAreHeaders(head, t, l);
    forall i | -1 <= i < |l| ensures LinkOk(m', head, l, i) {
      assert LinkOk(m, head, l, i);
      var a, b := At(head, l, i), At(head, l, i + 1);
      assert InLinks(head, t, a, a + 4) && InLinks(head, t, a, a + 5) && InLinks(head, t, a, a + 6);
      assert InLinks(head, t, a, a + 7);
      assert InLinks(head, t, b, b + 8) && InLinks(head, t, b, b + 9) && InLinks(head, t, b, b + 10);
      assert InLinks(head, t, b, b + 11);
    }
  }

  /** A store into the mark or the size of a header. */
  lemma StoreKeepsRing(m: Mem, m': Mem, head: int, t: Tiles, l: seq<int>, r: int, at: int, w: int)
    requires Tiled(t) && Listed(t, l) && Ring(m, head, l) && AllClear(head, t)
    requires r in t && (at == r + VALID || at == r + SIZE)
    requires WordAt(m, at) && 0 <= w < TWO_32 && m' == Store32(m, at, w)
    ensures Ring(m', head, l)
  {
    hide Load32, Store32;
    Apartness(head, t);
    forall x, k | InLinks(head, t, x, k) && k in m ensures m'[k] == m[k] {
      assert HeadersApart(x, r);
    }
    RingKept(m, m', head, t, l);
  }

  // ---- linking a chunk in ----

  ghost predicate LinksMapped(m: Mem, x: int) {
    0 <= x < TWO_32 && WordAt(m, x + NEXT) && WordAt(m, x + PREV)
  }

  /** The four stores that put node `r` between `p` and `q`. */
  ghost function LinkStores(m: Mem, p: int, r: int, q: int): Mem
    requires LinksMapped(m, p) && LinksMapped(m, r) && LinksMapped(m, q)
  {
    hide Store32;
    var m1 := Store32(m, r + NEXT, q);
    var m2 := Store32(m1, r + PREV, p);
    var m3 := Store32(m2, p + NEXT, r);
    Store32(m3, q + PREV, r)
  }

  /** What the stores mean for the links of the three nodes and of header `x`. */
  lemma LinkInWords(m: Mem, p: int, r: int, q: int, x: int)
    requires LinksMapped(m, p) && LinksMapped(m, r) && LinksMapped(m, q)
    requires HeadersApart(x, p) && HeadersApart(x, r) && HeadersApart(x, q)
    requires HeadersApart(p, q) && HeadersApart(p, r) && HeadersApart(q, r) && p != r && q != r
    ensures x != p && x != r ==> SameLink(m, LinkStores(m, p, r, q), x, NEXT)
    ensures x != q && x != r ==> SameLink(m, LinkStores(m, p, r, q), x, PREV)
    ensures WordIs(LinkStores(m, p, r, q), r + NEXT, q) && WordIs(LinkStores(m, p, r, q), r + PREV, p)
    ensures WordIs(LinkStores(m, p, r, q), p + NEXT, r) && WordIs(LinkStores(m, p, r, q), q + PREV, r)
  {
    hide Load32, Store32, WordAt;
  }

  lemma LinkInOnlyLinks(m: Mem, head: int, t: Tiles, p: int, r: int, q: int)
    requires IsHeader(head, t, p) && IsHeader(head, t, r) && IsHeader(head, t, q)
    requires LinksMapped(m, p) && LinksMapped(m, r) && LinksMapped(m, q)
    ensures OnlyLinks(m, LinkStores(m, p, r, q), head, t)
  {
    hide Load32, Store32, WordAt, OnlyLinks;
    var m1 := Store32(m, r + NEXT, q);
    var m2 := Store32(m1, r + PREV, p);
    var m3 := Store32(m2, p + NEXT, r);
    var m4 := Store32(m3, q + PREV, r);
    StoreLink(m, m1, head, t, r, r + NEXT, q);
    StoreLink(m1, m2, head, t, r, r + PREV, p);
    StoreLink(m2, m3, head, t, p, p + NEXT, r);
    StoreLink(m3, m4, head, t, q, q + PREV, r);
    OnlyLinksTrans(m, m1, m2, head, t);
    OnlyLinksTrans(m2, m3, m4, head, t);
    OnlyLinksTrans(m, m2, m4, head, t);
  }

  /** Nodes at different places of the ring have different addresses. */
  lemma DistinctNodes(t: Tiles, l: seq<int>, head: int, i: int, k: int)
    requires Listed(t, l) && head !in l && -1 <= i <= |l| && 0 <= k <= |l|
    ensures i != k - 1 && i < |l| ==> At(head, l, i) != At(head, l, k - 1)
    ensures i != k && 0 <= i ==> At(head, l, i) != At(head, l, k)
  {
    assert InOrder(l, i, k) && InOrder(l, k, i) && InOrder(l, i, k - 1) && InOrder(l, k - 1, i);
  }

  lemma InsertedNodes(head: int, l: seq<int>, k: int, r: int)
    requires 0 <= k <= |l|
    ensures At(head, InsertAt(l, k, r), k - 1) == At(head, l, k - 1)
    ensures At(head, InsertAt(l, k, r), k) == r
    ensures At(head, InsertAt(l, k, r), k + 1) == At(head, l, k)
  {
  }

  lemma LinkInRing(m: Mem, head: int, t0: Tiles, l: seq<int>, k: int, r: int)
    requires Listed(t0, l) && head !in l && Ring(m, head, l) && 0 <= k <= |l|
    requires forall i, j :: -1 <= i <= |l| && -1 <= j <= |l| ==> HeadersApart(At(head, l, i), At(head, l, j))
    requires forall i :: -1 <= i <= |l| ==> HeadersApart(At(head, l, i), r) && At(head, l, i) != r
    requires LinksMapped(m, At(head, l, k - 1)) && LinksMapped(m, r) && LinksMapped(m, At(head, l, k))
    ensures Ring(LinkStores(m, At(head, l, k - 1), r, At(head, l, k)), head, InsertAt(l, k, r))
  {
    hide Load32, Store32, WordAt, LinkStores;
    var p, q := At(head, l, k - 1), At(head, l, k);
    var l' := InsertAt(l, k, r);
    var m' := LinkStores(m, p, r, q);
    forall i | -1 <= i <= |l|
      ensures i != k - 1 && i < |l| ==> SameLink(m, m', At(head, l, i), NEXT)
      ensures i != k && 0 <= i ==> SameLink(m, m', At(head, l, i), PREV)
    {
      LinkInWords(m, p, r, q, At(head, l, i));
      DistinctNodes(t0, l, head, i, k);
    }
    LinkInWords(m, p, r, q, p);
    InsertedNodes(head, l, k, r);
    assert LinkOk(m', head, l', k - 1);
    assert LinkOk(m', head, l', k);
    assert l' == Replace(l, k, k, [r]);
    RingReplace(m, m', head, l, k, k, [r]);
  }

  /** Putting the chunk `r` of layout `t` between its neighbours in the list
      `l`, which does not have it yet. */
  lemma LinkInShape(m: Mem, head: int, t0: Tiles, t: Tiles, l: seq<int>, k: int, r: int)
    requires 0 < head && head + ALLOC_EXTRA <= TWO_32
    requires Tiled(t) && HeadersOk(m, head, t) && MappedExactly(m.Keys, head, Regions(t))
    requires Listed(t0, l) && Ring(m, head, l) && r in t && t[r].kind != Used && !(r in t0 && t0[r].kind != Used)
    requires (forall a :: a != r ==> SameListed(t0, t, a)) && 0 <= k <= |l|
    requires (forall i :: 0 <= i < k ==> l[i] < r) && (k < |l| ==> r <= l[k])
    requires LinksMapped(m, At(head, l, k - 1)) && LinksMapped(m, r) && LinksMapped(m, At(head, l, k))
    ensures Shape(LinkStores(m, At(head, l, k - 1), r, At(head, l, k)), head, Regions(t), t, InsertAt(l, k, r))
    ensures PayloadKept(m, LinkStores(m, At(head, l, k - 1), r, At(head, l, k)), t)
  {
    hide Load32, Store32, WordAt, LinkStores;
    var m' := LinkStores(m, At(head, l, k - 1), r, At(head, l, k));
    Apartness(head, t);
    forall i | 0 <= i < |l| ensures l[i] in t && t[l[i]].kind != Used && l[i] != r && (k <= i ==> r < l[i]) {
      assert NodeOk(t0, l, i) && SameListed(t0, t, l[i]) && InOrder(l, k, i);
    }
    LinkInOnlyLinks(m, head, t, At(head, l, k - 1), r, At(head, l, k));
    LinksKeepHeaders(m, m', head, t);
    LinksKeepPayload(m, m', head, t);
    ListedInsert(t0, t, l, k, r);
    assert forall i, j :: -1 <= i <= |l| && -1 <= j <= |l| ==> HeadersApart(At(head, l, i), At(head, l, j));
    assert forall i :: -1 <= i <= |l| ==> HeadersApart(At(head, l, i), r);
    LinkInRing(m, head, t0, l, k, r);
    assert m'.Keys == m.Keys;
  }

  /** The list as the code that links a chunk in reads it. */
  lemma LinkInReady(m: Mem, head: int, t0: Tiles, t: Tiles, l: seq<int>, k: int, r: int)
    requires 0 < head && head + ALLOC_EXTRA <= TWO_32 && 0 <= k <= |l|
    requires Tiled(t) && AllClear(head, t) && MappedExactly(m.Keys, head, Regions(t))
    requires Listed(t0, l) && Ring(m, head, l) && r in t && !(r in t0 && t0[r].kind != Used)
    requires forall a :: a != r ==> SameListed(t0, t, a)
    ensures LinksMapped(m, At(head, l, k - 1)) && LinksMapped(m, r) && LinksMapped(m, At(head, l, k))
    ensures WordIs(m, At(head, l, k) + PREV, At(head, l, k - 1))
    ensures HeadersApart(At(head, l, k), r) && HeadersApart(At(head, l, k - 1), r)
    ensures At(head, l, k) != r && At(head, l, k - 1) != r
  {
    hide Load32, Store32, WordAt;
    Apartness(head, t);
    assert LinkOk(m, head, l, k - 1);
    forall i | -1 <= i <= |l| ensures IsHeader(head, t, At(head, l, i)) && At(head, l, i) != r {
      assert NodeOk(t0, l, i) && (0 <= i < |l| ==> SameListed(t0, t, l[i]));
    }
    HeaderMapped(m, head, t, r);
    HeaderMapped(m, head, t, At(head, l, k));
    HeaderMapped(m, head, t, At(head, l, k - 1));
  }

  // ---- taking a chunk out ----

  /** The two stores that make `p` and `q` neighbours, in either order. */
  ghost predicate UnlinkStores(m: Mem, m': Mem, p: int, q: int)
    requires LinksMapped(m, p) && LinksMapped(m, q)
  {
    hide Store32;
    || m' == Store32(Store32(m, q + PREV, p), p + NEXT, q)
    || m' == Store32(Store32(m, p + NEXT, q), q + PREV, p)
  }

  lemma UnlinkWords(m: Mem, m': Mem, p: int, q: int, x: int)
    requires LinksMapped(m, p) && LinksMapped(m, q) && UnlinkStores(m, m', p, q)
    requires HeadersApart(x, p) && HeadersApart(x, q) && HeadersApart(p, q)
    ensures x != p ==> SameLink(m, m', x, NEXT)
    ensures x != q ==> SameLink(m, m', x, PREV)
    ensures WordIs(m', p + NEXT, q) && WordIs(m', q + PREV, p)
  {
    hide Load32, Store32, WordAt;
  }

  lemma UnlinkOnlyLinks(m: Mem, m': Mem, head: int, t: Tiles, p: int, q: int)
    requires IsHeader(head, t, p) && IsHeader(head, t, q)
    requires LinksMapped(m, p) && LinksMapped(m, q) && UnlinkStores(m, m', p, q)
    ensures OnlyLinks(m, m', head, t)
  {
    hide Load32, Store32, WordAt, OnlyLinks;
    var m1 := Store32(m, q + PREV, p);
    var m2 := Store32(m, p + NEXT, q);
    StoreLink(m, m1, head, t, q, q + PREV, p);
    StoreLink(m, m2, head, t, p, p + NEXT, q);
    StoreLink(m1, Store32(m1, p + NEXT, q), head, t, p, p + NEXT, q);
    StoreLink(m2, Store32(m2, q + PREV, p), head, t, q, q + PREV, p);
    OnlyLinksTrans(m, m1, Store32(m1, p + NEXT, q), head, t);
    OnlyLinksTrans(m, m2, Store32(m2, q + PREV, p), head, t);
  }

  /** Closing the list over the nodes `from` to `to` (exclusive). */
  lemma UnlinkRing(m: Mem, m': Mem, head: int, t: Tiles, l: seq<int>, from: int, to: int)
    requires 0 < head && head + ALLOC_EXTRA <= TWO_32 && 0 <= from < to <= |l|
    requires Tiled(t) && AllClear(head, t) && Listed(t, l) && Ring(m, head, l)
    requires LinksMapped(m, At(head, l, from - 1)) && LinksMapped(m, At(head, l, to))
    requires UnlinkStores(m, m', At(head, l, from - 1), At(head, l, to))
    ensures Ring(m', head, Replace(l, from, to, []))
  {
    hide Load32, Store32, WordAt, UnlinkStores;
    var p, q := At(head, l, from - 1), At(head, l, to);
    var l' := Replace(l, from, to, []);
    Apartness(head, t);
    HeadNotListed(head, t, l);
    NodesAreHeaders(head, t, l);
    assert HeadersApart(p, q);
    forall i | -1 <= i <= |l|
      ensures i != from - 1 && i < |l| ==> SameLink(m, m', At(head, l, i), NEXT)
      ensures i != to && 0 <= i ==> SameLink(m, m', At(head, l, i), PREV)
    {
      assert HeadersApart(At(head, l, i), p) && HeadersApart(At(head, l, i), q);
      UnlinkWords(m, m', p, q, At(head, l, i));
      DistinctNodes(t, l, head, i, from);
      DistinctNodes(t, l, head, i, to);
    }
    assert HeadersApart(p, p);
    UnlinkWords(m, m', p, q, p);
    assert At(head, l', from - 1) == p && At(head, l', from) == q;
    assert LinkOk(m', head, l', from - 1);
    RingReplace(m, m', head, l, from, to, []);
  }

  /** The layout `t` may lack chunks that the list still has, but not `p` and `q`. */
  lemma UnlinkKeeps(m: Mem, m': Mem, head: int, t: Tiles, p: int, q: int)
    requires Tiled(t) && HeadersOk(m, head, t) && MappedExactly(m.Keys, head, Regions(t))
    requires IsHeader(head, t, p) && IsHeader(head, t, q)
    requires LinksMapped(m, p) && LinksMapped(m, q) && UnlinkStores(m, m', p, q)
    ensures HeadersOk(m', head, t) && m'.Keys == m.Keys && PayloadKept(m, m', t)
  {
    hide Load32, Store32, WordAt, UnlinkStores;
    UnlinkOnlyLinks(m, m', head, t, p, q);
    LinksKeepHeaders(m, m', head, t);
    LinksKeepPayload(m, m', head, t);
  }

  /** The list as the code that takes nodes out reads it. */
  lemma NodeReady(m: Mem, head: int, t: Tiles, l: seq<int>, i: int)
    requires Shape(m, head, Regions(t), t, l) && -1 <= i <= |l|
    ensures head !in l
    ensures LinksMapped(m, At(head, l, i)) && WordAt(m, At(head, l, i) + VALID) && WordAt(m, At(head, l, i) + SIZE)
    ensures i < |l| ==> WordIs(m, At(head, l, i) + NEXT, At(head, l, i + 1))
    ensures 0 <= i ==> WordIs(m, At(head, l, i) + PREV, At(head, l, i - 1))
    ensures 0 <= i < |l| ==> l[i] in t && t[l[i]].kind != Used && HeaderOk(m, t, l[i])
  {
    hide Load32, Store32;
    HeadNotListed(head, t, l);
    NodesAreHeaders(head, t, l);
    assert NodeOk(t, l, i);
    assert i < |l| ==> LinkOk(m, head, l, i);
    assert 0 <= i ==> LinkOk(m, head, l, i - 1);
    HeaderMapped(m, head, t, At(head, l, i));
  }

  // ---- splitting and merging chunks ----

  /** The stores that cut the top `n` bytes off the chunk `q` of `size` bytes. */
  ghost function SplitStores(m: Mem, q: int, size: int, n: int): Mem
    requires 0 <= n <= size < TWO_32
    requires WordAt(m, q + SIZE) && WordAt(m, q + size - n + SIZE) && WordAt(m, q + size - n + VALID)
  {
    hide Store32;
    var p := q + size - n;
    var m1 := Store32(m, q + SIZE, size - n);
    var m2 := Store32(m1, p + SIZE, n);
    Store32(m2, p + VALID, VAL_ALLOC)
  }

  lemma SplitMapped(m: Mem, head: int, t: Tiles, q: int, n: int)
    requires Tiled(t) && MappedExactly(m.Keys, head, Regions(t)) && q in t && t[q].kind == Free
    requires ALLOC_EXTRA <= n && n + ALLOC_EXTRA <= t[q].size
    ensures t[q].size < TWO_32
    ensures WordAt(m, q + SIZE) && WordAt(m, q + t[q].size - n + SIZE) && WordAt(m, q + t[q].size - n + VALID)
  {
    TileMapped(m, head, t, q);
    assert TileOk(t, q);
  }

  /** The top `n` bytes of the free chunk `q` become a block of their own. */
  lemma SplitShape(m: Mem, m': Mem, head: int, t: Tiles, l: seq<int>, q: int, n: int)
    requires Shape(m, head, Regions(t), t, l) && q in t && t[q].kind == Free
    requires n % 4 == 0 && ALLOC_EXTRA <= n && n + ALLOC_EXTRA <= t[q].size < TWO_32
    requires WordAt(m, q + SIZE) && WordAt(m, q + t[q].size - n + SIZE) && WordAt(m, q + t[q].size - n + VALID)
    requires m' == SplitStores(m, q, t[q].size, n)
    ensures Shape(m', head, Regions(t), Split(t, q, n), l)
    ensures PayloadKept(m, m', t)
  {
    hide Load32, Store32, WordAt, MappedExactly, Ring, SplitStores;
    var t' := Split(t, q, n);
    SplitTiled(t, q, n);
    SplitRegions(t, q, n);
    forall a | a in t' ensures HeaderOk(m', t', a) {
      SplitHeaderOk(m, m', head, t, q, n, a);
    }
    forall a | a in t' ensures Clear(head, t', a) {
      assert Clear(head, t, if a == q + t[q].size - n then q else a);
    }
    SplitFrame(m, q, t[q].size, n);
    BodyKeeps(m, m', head, t, l, q);
    SplitListed(t, l, q, n);
  }

  /** Stores into the size and the body of a free chunk. */
  lemma BodyKeeps(m: Mem, m': Mem, head: int, t: Tiles, l: seq<int>, q: int)
    requires Shape(m, head, Regions(t), t, l) && q in t && t[q].kind == Free && m'.Keys == m.Keys
    requires forall k :: k in m && !(q + SIZE <= k < q + t[q].size) ==> m'[k] == m[k]
    ensures Ring(m', head, l) && PayloadKept(m, m', t)
  {
    forall b, k | InPayload(t, b, k) ensures k in m && m'[k] == m[k] {
      TileMapped(m, head, t, b);
      assert Apart(t, b, q) && Apart(t, q, b);
    }
    forall x, k | InLinks(head, t, x, k) && k in m ensures m'[k] == m[k] {
      LinkOutside(head, t, q, x, k);
    }
    RingKept(m, m', head, t, l);
  }

  lemma SplitFrame(m: Mem, q: int, size: int, n: int)
    requires ALLOC_EXTRA <= n && n + ALLOC_EXTRA <= size < TWO_32
    requires WordAt(m, q + SIZE) && WordAt(m, q + size - n + SIZE) && WordAt(m, q + size - n + VALID)
    ensures SplitStores(m, q, size, n).Keys == m.Keys
    ensures forall k :: k in m && !(q + SIZE <= k < q + size) ==> SplitStores(m, q, size, n)[k] == m[k]
  {
  }

  lemma SplitHeaderOk(m: Mem, m': Mem, head: int, t: Tiles, q: int, n: int, a: int)
    requires Tiled(t) && HeadersOk(m, head, t) && q in t && t[q].kind == Free
    requires n % 4 == 0 && ALLOC_EXTRA <= n && n + ALLOC_EXTRA <= t[q].size < TWO_32
    requires WordAt(m, q + SIZE) && WordAt(m, q + t[q].size - n + SIZE) && WordAt(m, q + t[q].size - n + VALID)
    requires m' == SplitStores(m, q, t[q].size, n) && a in Split(t, q, n)
    ensures HeaderOk(m', Split(t, q, n), a)
  {
    hide Load32, Store32, WordAt;
    if a != q + t[q].size - n {
      assert HeaderOk(m, t, a) && Apart(t, a, q) && Apart(t, q, a) && TileOk(t, a) && TileOk(t, q);
    }
  }

  /** A link field outside of the sizes and bodies of chunk `q`. */
  lemma LinkOutside(head: int, t: Tiles, q: int, x: int, k: int)
    requires Tiled(t) && AllClear(head, t) && q in t && InLinks(head, t, x, k)
    ensures !(q + SIZE <= k < q + t[q].size) && !(q <= k < q + NEXT)
  {
    assert TileOk(t, q) && Clear(head, t, q);
    if x in t { assert Apart(t, x, q) && Apart(t, q, x) && TileOk(t, x); }
  }

  lemma SplitListed(t: Tiles, l: seq<int>, q: int, n: int)
    requires Listed(t, l) && q in t && t[q].kind == Free && q + t[q].size - n !in t
    ensures Listed(Split(t, q, n), l)
  {
    var t' := Split(t, q, n);
    forall i ensures NodeOk(t', l, i) { assert NodeOk(t, l, i); }
    forall a ensures Found(t', l, a) { assert Found(t, l, a); }
  }

  /** Chunk `a` gets the size of itself and its successor. */
  lemma AbsorbHeaders(m: Mem, m': Mem, head: int, t: Tiles, a: int)
    requires Tiled(t) && HeadersOk(m, head, t) && MappedExactly(m.Keys, head, Regions(t))
    requires a in t && t[a].kind != Region && a + t[a].size in t && t[a + t[a].size].kind != Region
    requires WordAt(m, a + SIZE) && t[a].size + t[a + t[a].size].size < TWO_32
    requires 0 <= t[a].size + t[a + t[a].size].size
    requires m' == Store32(m, a + SIZE, t[a].size + t[a + t[a].size].size)
    ensures HeadersOk(m', head, Absorb(t, a)) && Tiled(Absorb(t, a)) && Regions(Absorb(t, a)) == Regions(t)
    ensures PayloadKept(m, m', Absorb(t, a))
  {
    hide Load32, Store32, WordAt;
    var t' := Absorb(t, a);
    AbsorbTiled(t, a);
    AbsorbRegions(t, a);
    forall b | b in t' ensures HeaderOk(m', t', b) {
      assert HeaderOk(m, t, b) && Apart(t, a, b) && Apart(t, b, a) && TileOk(t, a) && TileOk(t, b);
    }
    forall b | b in t' ensures Clear(head, t', b) { assert Clear(head, t, b); }
    forall b, k | InPayload(t', b, k) ensures k in m && m'[k] == m[k] {
      TileMapped(m, head, t', b);
      assert Apart(t', b, a) && Apart(t', a, b) && TileOk(t', a);
    }
  }

  // ---- a new region ----

  /** The operating system hands out memory that nobody uses yet. It does not
      promise the last conjunct: the code takes the sentinel for a chunk when a
      region ends where the sentinel starts. */
  predicate Acceptable(keys: set<int>, head: int, q: int, n: int, contents: Mem) {
    && 0 < q && q % 4 == 0 && q + n <= TWO_32
    && (forall k :: q <= k < q + n ==> k in contents)
    && (forall k :: k in contents ==> q <= k < q + n)
    && contents.Keys !! keys
    && q + n != head
  }

  lemma GrantKeeps(m: Mem, head: int, t: Tiles, l: seq<int>, q: int, n: int, contents: Mem)
    requires Shape(m, head, Regions(t), t, l) && Acceptable(m.Keys, head, q, n, contents) && 0 < n
    ensures MappedExactly((m + contents).Keys, head, Regions(t)[q := n]) && q !in Regions(t)
    ensures HeadersOk(m + contents, head, t) && Ring(m + contents, head, l) && PayloadKept(m, m + contents, t)
    ensures forall a :: a in t ==> t[a].end <= q || q + n <= t[a].base
    ensures q + n < head || head + ALLOC_EXTRA <= q
  {
    var m', held' := m + contents, Regions(t)[q := n];
    forall k | k in m ensures m'[k] == m[k] && !(q <= k < q + n) { assert k !in contents; }
    forall a | a in t ensures t[a].end <= q || q + n <= t[a].base {
      assert TileOk(t, a) && TileOk(t, t[a].base);
      var k := if t[a].base <= q then q else t[a].base;
      assert InHeld(Regions(t), t[a].base, k) || t[a].end <= k;
    }
    assert q !in t by { assert q in t ==> TileOk(t, q); }
    forall k | k in m'.Keys ensures head <= k < head + ALLOC_EXTRA || exists b :: InHeld(held', b, k) {
      if k in m && !(head <= k < head + ALLOC_EXTRA) {
        var b :| InHeld(Regions(t), b, k);
        assert InHeld(held', b, k);
      } else {
        assert k in contents ==> InHeld(held', q, k);
      }
    }
    forall k, b | InHeld(held', b, k) ensures k in m'.Keys {
      assert b != q ==> InHeld(Regions(t), b, k);
    }
    forall a | a in t ensures HeaderOk(m', t, a) { assert HeaderOk(m, t, a); }
    RingKept(m, m', head, t, l);
    forall b, k | InPayload(t, b, k) ensures k in m { TileMapped(m, head, t, b); }
    assert head in m && head + ALLOC_EXTRA - 1 in m;
    assert q <= head < q + n ==> head in contents;
    assert q <= head + ALLOC_EXTRA - 1 < q + n ==> head + ALLOC_EXTRA - 1 in contents;
    assert head <= q < head + ALLOC_EXTRA ==> q in contents;
  }

  /** The stores that set up the region `q` of `n` bytes between the nodes `p0`
      and `p`: its header, the links to it, and the header of its chunk. */
  ghost function RegionHeader(m: Mem, q: int, n: int): Mem
    requires WordAt(m, q + SIZE) && WordAt(m, q + VALID) && WordAt(m, q + SBRK_SIZE)
    requires SBRK_EXTRA <= n < TWO_32 + SBRK_EXTRA
  {
    hide Store32, WordAt;
    var m1 := Store32(m, q + SIZE, SBRK_EXTRA);
    var m2 := Store32(m1, q + VALID, VAL_SBRK);
    Store32(m2, q + SBRK_SIZE, n - SBRK_EXTRA)
  }

  ghost function RegionLinks(m: Mem, p0: int, q: int, s: int): Mem
    requires LinksMapped(m, q) && LinksMapped(m, s) && LinksMapped(m, p0)
  {
    hide Store32, WordAt;
    var m4 := Store32(m, q + NEXT, s);
    var m5 := Store32(m4, q + PREV, p0);
    var m6 := Store32(m5, p0 + NEXT, q);
    Store32(m6, s + PREV, q)
  }

  ghost function ChunkHeader(m: Mem, s: int, p: int, size: int): Mem
    requires LinksMapped(m, s) && LinksMapped(m, p) && 0 <= size < TWO_32
    requires WordAt(m, s + SIZE) && WordAt(m, s + VALID)
  {
    hide Store32, WordAt;
    var m8 := Store32(m, s + SIZE, size);
    var m9 := Store32(m8, s + VALID, VAL_FREE);
    var m10 := Store32(m9, s + NEXT, p);
    Store32(m10, p + PREV, s)
  }

  ghost predicate RegionReady(m: Mem, p0: int, q: int, p: int, n: int) {
    && SBRK_EXTRA + ALLOC_EXTRA <= n && q + n <= TWO_32
    && WordAt(m, q + SIZE) && WordAt(m, q + VALID) && WordAt(m, q + SBRK_SIZE)
    && WordAt(m, q + SBRK_EXTRA + SIZE) && WordAt(m, q + SBRK_EXTRA + VALID)
    && LinksMapped(m, q) && LinksMapped(m, q + SBRK_EXTRA) && LinksMapped(m, p0) && LinksMapped(m, p)
  }

  ghost function RegionStores(m: Mem, p0: int, q: int, p: int, n: int): Mem
    requires RegionReady(m, p0, q, p, n)
  {
    hide RegionHeader, RegionLinks, ChunkHeader, WordAt;
    RegionHeaderFrame(m, q, n);
    var m3 := RegionHeader(m, q, n);
    RegionLinksFrame(m3, p0, q, q + SBRK_EXTRA);
    var m7 := RegionLinks(m3, p0, q, q + SBRK_EXTRA);
    ChunkHeader(m7, q + SBRK_EXTRA, p, n - SBRK_EXTRA)
  }

  ghost predicate WordsMapped(m: Mem, m': Mem) {
    forall b {:trigger WordAt(m', b)} :: WordAt(m, b) ==> WordAt(m', b)
  }

  lemma RegionHeaderFrame(m: Mem, q: int, n: int)
    requires WordAt(m, q + SIZE) && WordAt(m, q + VALID) && WordAt(m, q + SBRK_SIZE)
    requires SBRK_EXTRA <= n < TWO_32 + SBRK_EXTRA
    ensures RegionHeader(m, q, n).Keys == m.Keys && WordsMapped(m, RegionHeader(m, q, n))
    ensures forall k :: k in m && !(q <= k < q + SBRK_EXTRA) ==> RegionHeader(m, q, n)[k] == m[k]
    ensures WordIs(RegionHeader(m, q, n), q + SIZE, SBRK_EXTRA) && WordIs(RegionHeader(m, q, n), q + VALID, VAL_SBRK)
    ensures WordIs(RegionHeader(m, q, n), q + SBRK_SIZE, n - SBRK_EXTRA)
  {
    hide Store32, Load32, WordAt;
  }

  lemma RegionLinksFrame(m: Mem, p0: int, q: int, s: int)
    requires LinksMapped(m, q) && LinksMapped(m, s) && LinksMapped(m, p0)
    ensures RegionLinks(m, p0, q, s).Keys == m.Keys && WordsMapped(m, RegionLinks(m, p0, q, s))
    ensures forall k ::
      k in m && !(q + NEXT <= k < q + SIZE) && !(p0 + NEXT <= k < p0 + PREV) && !(s + PREV <= k < s + SIZE) ==>
      RegionLinks(m, p0, q, s)[k] == m[k]
  {
    hide Store32, Load32, WordAt;
  }

  lemma ChunkHeaderFrame(m: Mem, s: int, p: int, size: int)
    requires LinksMapped(m, s) && LinksMapped(m, p) && 0 <= size < TWO_32
    requires WordAt(m, s + SIZE) && WordAt(m, s + VALID)
    ensures ChunkHeader(m, s, p, size).Keys == m.Keys && WordsMapped(m, ChunkHeader(m, s, p, size))
    ensures forall k ::
      k in m && !(s <= k < s + PREV) && !(s + SIZE <= k < s + ALLOC_EXTRA) && !(p + PREV <= k < p + SIZE) ==>
      ChunkHeader(m, s, p, size)[k] == m[k]
  {
  }

  ghost predicate Outside(q: int, n: int, x: int) {
    x + ALLOC_EXTRA <= q || q + n <= x
  }

  /** What the stores leave alone. */
  lemma RegionFrame(m: Mem, p0: int, q: int, p: int, n: int)
    requires RegionReady(m, p0, q, p, n)
    ensures RegionStores(m, p0, q, p, n).Keys == m.Keys
    ensures forall k :: k in m && !(q <= k < q + n) && !(p0 + NEXT <= k < p0 + PREV) && !(p + PREV <= k < p + SIZE) ==>
      RegionStores(m, p0, q, p, n)[k] == m[k]
  {
    hide RegionHeader, RegionLinks, ChunkHeader, WordAt;
    RegionHeaderFrame(m, q, n);
    var m3 := RegionHeader(m, q, n);
    RegionLinksFrame(m3, p0, q, q + SBRK_EXTRA);
    var m7 := RegionLinks(m3, p0, q, q + SBRK_EXTRA);
    ChunkHeaderFrame(m7, q + SBRK_EXTRA, p, n - SBRK_EXTRA);
  }

  /** What the stores leave in the headers of the region and its chunk. */
  lemma RegionNewWords(m: Mem, p0: int, q: int, p: int, n: int)
    requires RegionReady(m, p0, q, p, n) && Outside(q, n, p0) && Outside(q, n, p)
    ensures var m', s := RegionStores(m, p0, q, p, n), q + SBRK_EXTRA;
      && WordIs(m', q + SIZE, SBRK_EXTRA) && WordIs(m', q + VALID, VAL_SBRK)
      && WordIs(m', q + SBRK_SIZE, n - SBRK_EXTRA)
      && WordIs(m', s + SIZE, n - SBRK_EXTRA) && WordIs(m', s + VALID, VAL_FREE)
  {
    hide RegionHeader, Load32, Store32, WordAt;
    RegionHeaderFrame(m, q, n);
    RegionLinksFrame(RegionHeader(m, q, n), p0, q, q + SBRK_EXTRA);
  }

  /** What the stores leave in the links around the region and its chunk. */
  lemma RegionNewLinks(m: Mem, p0: int, q: int, p: int, n: int)
    requires RegionReady(m, p0, q, p, n)
    requires Outside(q, n, p0) && Outside(q, n, p) && HeadersApart(p0, p)
    ensures var m', s := RegionStores(m, p0, q, p, n), q + SBRK_EXTRA;
      && WordIs(m', p0 + NEXT, q) && WordIs(m', q + PREV, p0)
      && WordIs(m', q + NEXT, s) && WordIs(m', s + PREV, q)
      && WordIs(m', s + NEXT, p) && WordIs(m', p + PREV, s)
  {
    hide RegionHeader, Load32, Store32, WordAt;
    RegionHeaderFrame(m, q, n);
    RegionLinksFrame(RegionHeader(m, q, n), p0, q, q + SBRK_EXTRA);
  }

  lemma RegionReadyHere(m: Mem, contents: Mem, head: int, t: Tiles, l: seq<int>, k: int, q: int, n: int)
    requires Shape(m, head, Regions(t), t, l) && Acceptable(m.Keys, head, q, n, contents) && 0 <= k <= |l|
    requires SBRK_EXTRA + ALLOC_EXTRA <= n
    requires forall a :: a in t ==> t[a].end <= q || q + n <= t[a].base
    requires q + n < head || head + ALLOC_EXTRA <= q
    ensures RegionReady(m + contents, At(head, l, k - 1), q, At(head, l, k), n)
  {
    hide MappedExactly, Ring, Listed, HeadersOk;
    NodeReady(m, head, t, l, k);
    NodeReady(m, head, t, l, k - 1);
    assert Mapped(m + contents, q, n);
  }

  lemma RegionOutside(head: int, t: Tiles, l: seq<int>, q: int, n: int)
    requires Tiled(t) && Listed(t, l)
    requires forall a :: a in t ==> t[a].end <= q || q + n <= t[a].base
    requires q + n < head || head + ALLOC_EXTRA <= q
    ensures forall i :: -1 <= i <= |l| ==> Outside(q, n, At(head, l, i))
  {
    forall i | -1 <= i <= |l| ensures Outside(q, n, At(head, l, i)) {
      assert NodeOk(t, l, i);
      assert 0 <= i < |l| ==> TileOk(t, l[i]);
    }
  }

  lemma RegionHeaders(m: Mem, head: int, t: Tiles, p0: int, q: int, p: int, n: int)
    requires Tiled(t) && HeadersOk(m, head, t) && RegionReady(m, p0, q, p, n)
    requires IsHeader(head, t, p0) && IsHeader(head, t, p) && Outside(q, n, p0) && Outside(q, n, p)
    requires forall a :: a in t ==> t[a].end <= q || q + n <= t[a].base
    requires q + n < head || head + ALLOC_EXTRA <= q
    requires q !in t && q + SBRK_EXTRA !in t
    ensures HeadersOk(RegionStores(m, p0, q, p, n), head, AddRegion(t, q, n))
  {
    hide RegionStores;
    var m', t' := RegionStores(m, p0, q, p, n), AddRegion(t, q, n);
    Apartness(head, t);
    RegionFrame(m, p0, q, p, n);
    assert HeadersApart(p0, p);
    RegionNewWords(m, p0, q, p, n);
    forall a | a in t' ensures HeaderOk(m', t', a) && Clear(head, t', a) {
      if a in t { RegionOldHeader(m, m', head, t, p0, q, p, n, a); }
    }
  }

  lemma RegionOldHeader(m: Mem, m': Mem, head: int, t: Tiles, p0: int, q: int, p: int, n: int, a: int)
    requires Tiled(t) && HeadersOk(m, head, t) && m'.Keys == m.Keys && a in t
    requires forall k :: k in m && !(q <= k < q + n) && !(p0 + NEXT <= k < p0 + PREV) && !(p + PREV <= k < p + SIZE) ==>
      m'[k] == m[k]
    requires IsHeader(head, t, p0) && IsHeader(head, t, p)
    requires t[a].end <= q || q + n <= t[a].base
    ensures HeaderOk(m', t, a) && Clear(head, t, a)
  {
    hide Load32, WordAt;
    Apartness(head, t);
    assert HeaderOk(m, t, a) && Clear(head, t, a) && TileOk(t, a);
    assert HeadersApart(a, p0) && HeadersApart(a, p);
    assert p0 in t ==> Apart(t, a, p0) && TileOk(t, p0);
    assert p in t ==> Apart(t, a, p) && TileOk(t, p);
    HeaderKept(m, m', t, a);
  }

  /** A header is what its own bytes say. */
  lemma HeaderKept(m: Mem, m': Mem, t: Tiles, a: int)
    requires a in t && HeaderOk(m, t, a) && m'.Keys == m.Keys
    requires forall k :: k in m && (a <= k < a + NEXT || a + SIZE <= k < a + ALLOC_EXTRA) ==> m'[k] == m[k]
    requires t[a].kind == Region ==> forall k :: k in m && a + ALLOC_EXTRA <= k < a + SBRK_EXTRA ==> m'[k] == m[k]
    ensures HeaderOk(m', t, a)
  {
  }

  lemma RegionRing(m: Mem, head: int, t: Tiles, l: seq<int>, k: int, q: int, n: int)
    requires Tiled(t) && AllClear(head, t) && Listed(t, l) && Ring(m, head, l) && 0 <= k <= |l|
    requires RegionReady(m, At(head, l, k - 1), q, At(head, l, k), n)
    requires forall i :: -1 <= i <= |l| ==> Outside(q, n, At(head, l, i))
    ensures Ring(RegionStores(m, At(head, l, k - 1), q, At(head, l, k), n), head, Replace(l, k, k, [q, q + SBRK_EXTRA]))
  {
    hide RegionStores, Load32;
    var p0, p := At(head, l, k - 1), At(head, l, k);
    var m' := RegionStores(m, p0, q, p, n);
    var l' := Replace(l, k, k, [q, q + SBRK_EXTRA]);
    Apartness(head, t);
    HeadNotListed(head, t, l);
    NodesAreHeaders(head, t, l);
    assert HeadersApart(p0, p);
    RegionNewLinks(m, p0, q, p, n);
    forall i | -1 <= i <= |l|
      ensures i != k - 1 && i < |l| ==> SameLink(m, m', At(head, l, i), NEXT)
      ensures i != k && 0 <= i ==> SameLink(m, m', At(head, l, i), PREV)
    {
      assert HeadersApart(At(head, l, i), p0) && HeadersApart(At(head, l, i), p);
      DistinctNodes(t, l, head, i, k);
      RegionOldLinks(m, p0, q, p, n, At(head, l, i));
    }
    assert At(head, l', k - 1) == p0 && At(head, l', k) == q && At(head, l', k + 1) == q + SBRK_EXTRA;
    assert At(head, l', k + 2) == p;
    assert LinkOk(m', head, l', k - 1) && LinkOk(m', head, l', k) && LinkOk(m', head, l', k + 1);
    RingReplace(m, m', head, l, k, k, [q, q + SBRK_EXTRA]);
  }

  lemma RegionOldLinks(m: Mem, p0: int, q: int, p: int, n: int, x: int)
    requires RegionReady(m, p0, q, p, n) && Outside(q, n, x)
    requires HeadersApart(x, p0) && HeadersApart(x, p)
    ensures x != p0 ==> SameLink(m, RegionStores(m, p0, q, p, n), x, NEXT)
    ensures x != p ==> SameLink(m, RegionStores(m, p0, q, p, n), x, PREV)
  {
    hide RegionStores;
    RegionFrame(m, p0, q, p, n);
  }

  lemma RegionListed(t: Tiles, l: seq<int>, k: int, q: int, n: int)
    requires Tiled(t) && Listed(t, l) && 0 <= k <= |l| && SBRK_EXTRA + ALLOC_EXTRA <= n
    requires (forall i :: 0 <= i < k ==> l[i] < q) && (k < |l| ==> q <= l[k])
    requires forall a :: a in t ==> t[a].end <= q || q + n <= t[a].base
    ensures Listed(AddRegion(t, q, n), Replace(l, k, k, [q, q + SBRK_EXTRA]))
  {
    var t1 := t[q := Tile(SBRK_EXTRA, Region, q, q + n)];
    var l1 := InsertAt(l, k, q);
    forall i | k <= i < |l| ensures q + SBRK_EXTRA < l[i] {
      assert InOrder(l, k, i) && NodeOk(t, l, i) && TileOk(t, l[i]);
    }
    forall a | a in t ensures a != q && a != q + SBRK_EXTRA { assert TileOk(t, a); }
    ListedInsert(t, t1, l, k, q);
    ListedInsert(t1, AddRegion(t, q, n), l1, k + 1, q + SBRK_EXTRA);
    assert InsertAt(l1, k + 1, q + SBRK_EXTRA) == Replace(l, k, k, [q, q + SBRK_EXTRA]);
  }

  lemma RegionShape(m: Mem, head: int, t: Tiles, l: seq<int>, k: int, q: int, n: int)
    requires 0 < head && head + ALLOC_EXTRA <= TWO_32 && Tiled(t) && HeadersOk(m, head, t) && Listed(t, l)
    requires Ring(m, head, l)
    requires MappedExactly(m.Keys, head, Regions(t)[q := n]) && q !in Regions(t) && 0 <= k <= |l|
    requires 0 < q && q % 4 == 0 && n % 4 == 0 && SBRK_EXTRA + ALLOC_EXTRA <= n && q + n <= TWO_32
    requires forall a :: a in t ==> t[a].end <= q || q + n <= t[a].base
    requires q + n < head || head + ALLOC_EXTRA <= q
    requires (forall i :: 0 <= i < k ==> l[i] < q) && (k < |l| ==> q <= l[k])
    requires RegionReady(m, At(head, l, k - 1), q, At(head, l, k), n)
    requires PayloadKept(m, m, t)
    ensures var m' := RegionStores(m, At(head, l, k - 1), q, At(head, l, k), n);
      && Shape(m', head, Regions(t)[q := n], AddRegion(t, q, n), Replace(l, k, k, [q, q + SBRK_EXTRA]))
      && PayloadKept(m, m', t)
  {
    hide RegionStores, Load32, Store32, WordAt, MappedExactly, Ring;
    var p0, p := At(head, l, k - 1), At(head, l, k);
    var m' := RegionStores(m, p0, q, p, n);
    RegionOutside(head, t, l, q, n);
    AddRegionTiled(t, q, n);
    NodesAreHeaders(head, t, l);
    RegionHeaders(m, head, t, p0, q, p, n);
    RegionRing(m, head, t, l, k, q, n);
    RegionListed(t, l, k, q, n);
    RegionFrame(m, p0, q, p, n);
    forall b, j | InPayload(t, b, j) ensures j in m && m'[j] == m[j] {
      RegionPayload(head, t, p0, q, p, n, b, j);
    }
    assert Regions(AddRegion(t, q, n)) == Regions(t)[q := n];
  }

  lemma RegionPayload(head: int, t: Tiles, p0: int, q: int, p: int, n: int, b: int, j: int)
    requires Tiled(t) && AllClear(head, t) && IsHeader(head, t, p0) && IsHeader(head, t, p) && InPayload(t, b, j)
    requires forall a :: a in t ==> t[a].end <= q || q + n <= t[a].base
    ensures !(q <= j < q + n) && !(p0 + NEXT <= j < p0 + PREV) && !(p + PREV <= j < p + SIZE)
  {
    assert TileOk(t, b) && Clear(head, t, b);
    assert p0 in t ==> Apart(t, b, p0) && Apart(t, p0, b) && TileOk(t, p0);
    assert p in t ==> Apart(t, b, p) && Apart(t, p, b) && TileOk(t, p);
  }

  // ---- whole steps in memory ----

  lemma RemoveIsReplace(l: seq<int>, k: int)
    requires 0 <= k < |l|
    ensures RemoveAt(l, k) == Replace(l, k, k + 1, [])
  {
  }

  /** Node `l[j]`, a free chunk, is swallowed by the chunk `a` before it. */
  lemma AbsorbShape(m: Mem, m1: Mem, m2: Mem, head: int, t: Tiles, l: seq<int>, a: int, j: int)
    requires Shape(m, head, Regions(t), t, l) && a in t && t[a].kind != Region && 0 <= j < |l|
    requires a + t[a].size in t && t[a + t[a].size].kind == Free && l[j] == a + t[a].size
    requires WordAt(m, a + SIZE) && 0 <= t[a].size + t[l[j]].size < TWO_32
    requires m1 == Store32(m, a + SIZE, t[a].size + t[l[j]].size)
    requires LinksMapped(m1, At(head, l, j - 1)) && LinksMapped(m1, At(head, l, j + 1))
    requires UnlinkStores(m1, m2, At(head, l, j - 1), At(head, l, j + 1))
    ensures Shape(m2, head, Regions(t), Absorb(t, a), Replace(l, j, j + 1, []))
    ensures PayloadKept(m, m2, Absorb(t, a))
  {
    hide Load32, Store32, WordAt, MappedExactly, UnlinkStores, Ring;
    var t' := Absorb(t, a);
    var b := l[j];
    assert TileOk(t, a) && b !in t';
    AbsorbHeaders(m, m1, head, t, a);
    StoreKeepsRing(m, m1, head, t, l, a, a + SIZE, t[a].size + t[b].size);
    UnlinkRing(m1, m2, head, t, l, j, j + 1);
    HeadNotListed(head, t, l);
    DistinctNodes(t, l, head, j - 1, j);
    DistinctNodes(t, l, head, j + 1, j);
    NodesAreHeaders(head, t, l);
    UnlinkKeeps(m1, m2, head, t', At(head, l, j - 1), At(head, l, j + 1));
    PayloadTrans(m, m1, m2, t', t');
    ListedRemove(t, t', l, j);
    RemoveIsReplace(l, j);
  }

  /** Node `l[i]`, a free chunk, becomes a live block. */
  lemma TakeShape(m: Mem, m1: Mem, m2: Mem, head: int, t: Tiles, l: seq<int>, i: int)
    requires Shape(m, head, Regions(t), t, l) && 0 <= i < |l| && l[i] in t && t[l[i]].kind == Free
    requires LinksMapped(m, At(head, l, i - 1)) && LinksMapped(m, At(head, l, i + 1))
    requires UnlinkStores(m, m1, At(head, l, i - 1), At(head, l, i + 1))
    requires WordAt(m1, l[i] + VALID) && m2 == Store32(m1, l[i] + VALID, VAL_ALLOC)
    ensures Shape(m2, head, Regions(t), SetKind(t, l[i], Used), Replace(l, i, i + 1, []))
    ensures PayloadKept(m, m2, t)
  {
    hide Load32, Store32, WordAt, MappedExactly, UnlinkStores, Ring;
    var t', q, l' := SetKind(t, l[i], Used), l[i], Replace(l, i, i + 1, []);
    NodesAreHeaders(head, t, l);
    UnlinkRing(m, m1, head, t, l, i, i + 1);
    UnlinkKeeps(m, m1, head, t, At(head, l, i - 1), At(head, l, i + 1));
    ListedRemove(t, t', l, i);
    RemoveIsReplace(l, i);
    SetKindTiled(t, q, Used);
    SetKindRegions(t, q, Used);
    MarkHeader(m1, m2, head, t, q, Used);
    StoreKeepsRing(m1, m2, head, t', l', q, q + VALID, VAL_ALLOC);
    PayloadTrans(m, m1, m2, t, t);
  }

  ghost predicate Unmapped(m: Mem, m': Mem, q: int, n: int) {
    && (forall k :: k in m' <==> k in m && !(q <= k < q + n))
    && (forall k :: k in m' ==> m'[k] == m[k])
  }

  /** The vacant region `l[k - 1]` goes back to the operating system. */
  lemma DropShape(m: Mem, m1: Mem, m2: Mem, head: int, t: Tiles, l: seq<int>, k: int)
    requires Shape(m, head, Regions(t), t, l) && 0 < k < |l|
    requires Vacant(t, l[k - 1]) && l[k] == l[k - 1] + SBRK_EXTRA
    requires LinksMapped(m, At(head, l, k - 2)) && LinksMapped(m, At(head, l, k + 1))
    requires UnlinkStores(m, m1, At(head, l, k - 2), At(head, l, k + 1))
    requires Unmapped(m1, m2, l[k - 1], t[l[k - 1]].end - l[k - 1])
    ensures Shape(m2, head, Regions(t) - {l[k - 1]}, DropRegion(t, l[k - 1]), Replace(l, k - 1, k + 1, []))
    ensures PayloadKept(m, m2, DropRegion(t, l[k - 1]))
  {
    hide Load32, Store32, WordAt, MappedExactly, UnlinkStores, Ring;
    var q := l[k - 1];
    var t', l' := DropRegion(t, q), Replace(l, k - 1, k + 1, []);
    NodesAreHeaders(head, t, l);
    DropRegionTiled(t, q);
    UnlinkRing(m, m1, head, t, l, k - 1, k + 1);
    UnlinkKeeps(m, m1, head, t, At(head, l, k - 2), At(head, l, k + 1));
    DropListed(t, l, k);
    DropMapped(m1, m2, head, t, q);
    DropHeaders(m1, m2, head, t, q);
    DropRing(m1, m2, head, t, l', q);
    assert Regions(t') == Regions(t) - {q};
    forall b, j | InPayload(t', b, j) ensures j in m && j in m2 && m2[j] == m[j] {
      assert InPayload(t, b, j);
      TileMapped(m2, head, t', b);
    }
  }

  lemma DropListed(t: Tiles, l: seq<int>, k: int)
    requires Listed(t, l) && 0 < k < |l| && l[k] == l[k - 1] + SBRK_EXTRA && Vacant(t, l[k - 1])
    ensures Listed(DropRegion(t, l[k - 1]), Replace(l, k - 1, k + 1, []))
  {
    var q := l[k - 1];
    var l1 := RemoveAt(l, k);
    ListedRemove(t, t - {l[k]}, l, k);
    assert l1[k - 1] == q;
    ListedRemove(t - {l[k]}, DropRegion(t, q), l1, k - 1);
    assert RemoveAt(l1, k - 1) == Replace(l, k - 1, k + 1, []);
  }

  lemma DropMapped(m: Mem, m': Mem, head: int, t: Tiles, q: int)
    requires Tiled(t) && AllClear(head, t) && q in t && t[q].kind == Region && MappedExactly(m.Keys, head, Regions(t))
    requires Unmapped(m, m', q, t[q].end - q)
    ensures MappedExactly(m'.Keys, head, Regions(t) - {q})
  {
    var held' := Regions(t) - {q};
    assert TileOk(t, q) && Clear(head, t, q);
    forall b, k | InHeld(held', b, k) ensures k in m'.Keys {
      assert InHeld(Regions(t), b, k) && TileOk(t, b) && Apart(t, b, q) && Apart(t, q, b);
    }
    forall k | k in m'.Keys ensures head <= k < head + ALLOC_EXTRA || exists b :: InHeld(held', b, k) {
      if !(head <= k < head + ALLOC_EXTRA) {
        var b :| InHeld(Regions(t), b, k);
        assert InHeld(held', b, k);
      }
    }
  }

  lemma DropHeaders(m: Mem, m': Mem, head: int, t: Tiles, q: int)
    requires Tiled(t) && HeadersOk(m, head, t) && q in t && t[q].kind == Region
    requires Unmapped(m, m', q, t[q].end - q)
    requires q + SBRK_EXTRA in t && forall a :: a in t && t[a].base == q ==> a == q || a == q + SBRK_EXTRA
    ensures HeadersOk(m', head, DropRegion(t, q))
  {
    var t' := DropRegion(t, q);
    assert TileOk(t, q);
    forall a | a in t' ensures HeaderOk(m', t', a) && Clear(head, t', a) {
      assert HeaderOk(m, t, a) && TileOk(t, a) && Clear(head, t, a) && Apart(t, a, q) && Apart(t, q, a);
      assert t[a].base != q;
    }
  }

  lemma DropRing(m: Mem, m': Mem, head: int, t: Tiles, l: seq<int>, q: int)
    requires Tiled(t) && AllClear(head, t) && Ring(m, head, l) && q in t && t[q].kind == Region
    requires Unmapped(m, m', q, t[q].end - q) && Listed(DropRegion(t, q), l)
    requires q + SBRK_EXTRA in t && forall a :: a in t && t[a].base == q ==> a == q || a == q + SBRK_EXTRA
    ensures Ring(m', head, l)
  {
    var t' := DropRegion(t, q);
    assert TileOk(t, q) && Clear(head, t, q);
    NodesAreHeaders(head, t', l);
    forall x | IsHeader(head, t', x) ensures x + ALLOC_EXTRA <= q || t[q].end <= x {
      if x in t' {
        assert TileOk(t, x) && Apart(t, x, q) && Apart(t, q, x) && t[x].base != q;
      }
    }
    forall i | -1 <= i < |l| ensures LinkOk(m', head, l, i) { assert LinkOk(m, head, l, i); }
  }

  /** Chunks that touch and are both on the list are neighbours there. */
  lemma TouchingNodes(t: Tiles, l: seq<int>, a: int, b: int)
    requires Tiled(t) && Listed(t, l) && a in t && t[a].kind != Used && b in t && t[b].kind != Used
    requires b == a + t[a].size
    ensures exists i :: 0 <= i < |l| - 1 && l[i] == a && l[i + 1] == b
  {
    assert Found(t, l, a) && Found(t, l, b);
    var i :| 0 <= i < |l| && l[i] == a;
    var j :| 0 <= j < |l| && l[j] == b;
    assert TileOk(t, a) && InOrder(l, j, i) && InOrder(l, i, i + 1) && InOrder(l, i + 1, j) && NodeOk(t, l, i + 1);
    assert i + 1 < |l| ==> Apart(t, a, l[i + 1]);
  }

  lemma SameNode(t: Tiles, l: seq<int>, i: int, j: int)
    requires Listed(t, l) && 0 <= i < |l| && 0 <= j < |l| && l[i] == l[j]
    ensures i == j
  {
    assert InOrder(l, i, j) && InOrder(l, j, i);
  }

  // ---- the program writes into its blocks ----

  /** Writes inside a live block leave the heap and every other block alone. */
  lemma PayloadWrite(m: Mem, m': Mem, head: int, t: Tiles, l: seq<int>, a: int)
    requires Shape(m, head, Regions(t), t, l) && m'.Keys == m.Keys && a in Live(t)
    requires forall k :: k in m && !InPayload(t, a, k) ==> m'[k] == m[k]
    ensures Shape(m', head, Regions(t), t, l)
    ensures forall b, k {:trigger InPayload(t, b, k)} :: b != a && InPayload(t, b, k) ==> k in m && m'[k] == m[k]
  {
    hide MappedExactly, Load32, WordAt;
    forall b | b in t ensures HeaderOk(m', t, b) {
      assert HeaderOk(m, t, b) && TileOk(t, b) && TileOk(t, a) && Apart(t, a, b) && Apart(t, b, a);
      HeaderKept(m, m', t, b);
    }
    forall x, k | InLinks(head, t, x, k) && k in m ensures m'[k] == m[k] {
      PayloadNoLink(head, t, a, x, k);
    }
    RingKept(m, m', head, t, l);
    forall b, k | b != a && InPayload(t, b, k) ensures k in m && m'[k] == m[k] {
      TileMapped(m, head, t, b);
      assert Apart(t, a, b) && Apart(t, b, a);
    }
  }

  lemma PayloadNoLink(head: int, t: Tiles, a: int, x: int, k: int)
    requires Tiled(t) && AllClear(head, t) && InLinks(head, t, x, k)
    ensures !InPayload(t, a, k)
  {
    assert a in t ==> TileOk(t, a) && Clear(head, t, a);
    assert x in t ==> TileOk(t, x);
    assert a in t && x in t ==> Apart(t, a, x) && Apart(t, x, a);
  }
}
