/** The layout of the heap: how every region obtained from the operating
    system is cut into a header and chunks. Addresses and sizes are in bytes. */
module HeapLayout {
  import opened CInt

  const ALLOC_EXTRA := 16      // sizeof(struct mem_chunk)
  const SBRK_EXTRA := 20       // a chunk header and the size of the region

  datatype Kind = Region | Free | Used

  /** One piece of a region: its size with the header, what it is, and the
      bounds of the region that it lies in. */
  datatype Tile = Tile(size: int, kind: Kind, base: int, end: int)

  type Tiles = map<int, Tile>

  ghost predicate TileOk(t: Tiles, a: int)
    requires a in t
  {
    var x := t[a];
    && 0 < x.base <= a < a + x.size <= x.end <= TWO_32
    && a % 4 == 0 && x.size % 4 == 0
    && x.base in t && t[x.base].kind == Region && t[x.base].end == x.end
    && (x.kind == Region <==> a == x.base)
    && (x.kind == Region ==> x.size == SBRK_EXTRA && a + SBRK_EXTRA < x.end)
    && (x.kind != Region ==> x.size >= ALLOC_EXTRA)
    && (a + x.size < x.end ==> a + x.size in t && t[a + x.size].base == x.base)
  }

  ghost predicate Apart(t: Tiles, a: int, b: int)
    requires a in t && b in t
  {
    && (a < b ==> a + t[a].size <= b)
    && (t[a].base == t[b].base ==> t[a].end == t[b].end)
    && (t[a].base < t[b].base ==> t[a].end <= t[b].base)
  }

  /** Every region is cut into tiles without gap or overlap. */
  ghost predicate Tiled(t: Tiles) {
    && (forall a {:trigger TileOk(t, a)} :: a in t ==> TileOk(t, a))
    && (forall a, b {:trigger Apart(t, a, b)} :: a in t && b in t ==> Apart(t, a, b))
  }

  ghost predicate NoFreeAfter(t: Tiles, a: int) {
    a in t && t[a].kind == Free && a + t[a].size in t ==> t[a + t[a].size].kind != Free
  }

  /** No two free chunks touch inside a region. */
  ghost predicate Coalesced(t: Tiles) {
    forall a {:trigger NoFreeAfter(t, a)} :: NoFreeAfter(t, a)
  }

  /** ... except that chunk `r` may touch its neighbours. */
  ghost predicate CoalescedBut(t: Tiles, r: int) {
    forall a {:trigger NoFreeAfter(t, a)} :: a != r && !(a in t && a + t[a].size == r) ==> NoFreeAfter(t, a)
  }

  /** The only chunk of region `a` is a free one. */
  ghost predicate Vacant(t: Tiles, a: int) {
    && a in t && t[a].kind == Region
    && a + SBRK_EXTRA in t && t[a + SBRK_EXTRA].kind == Free
    && a + SBRK_EXTRA + t[a + SBRK_EXTRA].size == t[a].end
  }

  ghost predicate NoVacantBut(t: Tiles, b: int) {
    forall q {:trigger Vacant(t, q)} :: q != b ==> !Vacant(t, q)
  }

  /** What every public call leaves behind: free space is merged, and a region
      that is entirely free has gone back to the operating system. */
  ghost predicate Settled(t: Tiles) {
    Coalesced(t) && forall q {:trigger Vacant(t, q)} :: !Vacant(t, q)
  }

  // ---- the steps of the allocator, on the layout ----

  ghost function SetKind(t: Tiles, a: int, k: Kind): Tiles
    requires a in t
  {
    t[a := t[a].(kind := k)]
  }

  /** Cuts the top `n` bytes off the free chunk `a`. */
  ghost function Split(t: Tiles, a: int, n: int): Tiles
    requires a in t
  {
    var x := t[a];
    t[a := x.(size := x.size - n)][a + x.size - n := x.(size := n, kind := Used)]
  }

  /** Lets chunk `a` swallow the chunk that follows it. */
  ghost function Absorb(t: Tiles, a: int): Tiles
    requires a in t && a + t[a].size in t
  {
    var b := a + t[a].size;
    (t - {b})[a := t[a].(size := t[a].size + t[b].size)]
  }

  /** Adds a region of `n` bytes: its header and one free chunk. */
  ghost function AddRegion(t: Tiles, q: int, n: int): Tiles {
    t[q := Tile(SBRK_EXTRA, Region, q, q + n)][q + SBRK_EXTRA := Tile(n - SBRK_EXTRA, Free, q, q + n)]
  }

  /** Removes the region at `q`, which holds a single chunk. */
  ghost function DropRegion(t: Tiles, q: int): Tiles {
    t - {q, q + SBRK_EXTRA}
  }

  lemma SetKindTiled(t: Tiles, a: int, k: Kind)
    requires Tiled(t) && a in t && t[a].kind != Region && k != Region
    ensures Tiled(SetKind(t, a, k))
  {
    var u := SetKind(t, a, k);
    forall b | b in u ensures TileOk(u, b) { assert TileOk(t, b); }
    forall b, c | b in u && c in u ensures Apart(u, b, c) { assert Apart(t, b, c); }
  }

  lemma SplitTiled(t: Tiles, a: int, n: int)
    requires Tiled(t) && a in t && t[a].kind == Free
    requires n % 4 == 0 && ALLOC_EXTRA <= n && n + ALLOC_EXTRA <= t[a].size
    ensures a + t[a].size - n !in t
    ensures Tiled(Split(t, a, n))
  {
    var u := Split(t, a, n);
    var p := a + t[a].size - n;
    assert TileOk(t, a);
    assert p in t ==> Apart(t, a, p);
    forall b | b in u ensures TileOk(u, b) {
      SplitTileOk(t, a, n, b);
    }
    forall b, c | b in u && c in u ensures Apart(u, b, c) {
      SplitApart(t, a, n, b, c);
    }
  }

  lemma SetKindRegions(t: Tiles, a: int, k: Kind)
    requires a in t && t[a].kind != Region && k != Region
    ensures Regions(SetKind(t, a, k)) == Regions(t)
  {
  }

  lemma SplitRegions(t: Tiles, a: int, n: int)
    requires a in t && t[a].kind == Free && a + t[a].size - n !in t
    ensures Regions(Split(t, a, n)) == Regions(t)
  {
  }

  lemma AbsorbRegions(t: Tiles, a: int)
    requires a in t && t[a].kind != Region
    requires a + t[a].size in t && t[a + t[a].size].kind != Region
    ensures Regions(Absorb(t, a)) == Regions(t)
  {
  }

  lemma SplitTileOk(t: Tiles, a: int, n: int, b: int)
    requires Tiled(t) && a in t && t[a].kind == Free
    requires n % 4 == 0 && ALLOC_EXTRA <= n && n + ALLOC_EXTRA <= t[a].size
    requires a + t[a].size - n !in t
    requires b in Split(t, a, n)
    ensures TileOk(Split(t, a, n), b)
  {
    assert TileOk(t, a);
    if b != a + t[a].size - n { assert TileOk(t, b); }
  }

  lemma SplitApart(t: Tiles, a: int, n: int, b: int, c: int)
    requires Tiled(t) && a in t && t[a].kind == Free
    requires ALLOC_EXTRA <= n && n + ALLOC_EXTRA <= t[a].size
    requires a + t[a].size - n !in t
    requires b in Split(t, a, n) && c in Split(t, a, n)
    ensures Apart(Split(t, a, n), b, c)
  {
    var p := a + t[a].size - n;
    var b0 := if b == p then a else b;
    var c0 := if c == p then a else c;
    assert Apart(t, b0, c0) && Apart(t, c0, b0);
  }

  lemma AbsorbTiled(t: Tiles, a: int)
    requires Tiled(t) && a in t && t[a].kind != Region
    requires a + t[a].size in t && t[a + t[a].size].kind != Region
    ensures t[a + t[a].size].base == t[a].base
    ensures Tiled(Absorb(t, a))
  {
    var u := Absorb(t, a);
    var b := a + t[a].size;
    assert TileOk(t, a) && TileOk(t, b) && Apart(t, a, b) && Apart(t, b, a);
    forall c | c in u ensures TileOk(u, c) { AbsorbTileOk(t, a, c); }
    forall c, d | c in u && d in u ensures Apart(u, c, d) {
      assert Apart(t, c, d) && Apart(t, b, d);
    }
  }

  lemma AbsorbTileOk(t: Tiles, a: int, c: int)
    requires Tiled(t) && a in t && t[a].kind != Region
    requires a + t[a].size in t && t[a + t[a].size].kind != Region
    requires t[a + t[a].size].base == t[a].base
    requires c in Absorb(t, a)
    ensures TileOk(Absorb(t, a), c)
  {
    var b := a + t[a].size;
    assert TileOk(t, a) && TileOk(t, b) && TileOk(t, c);
    assert Apart(t, c, a) && Apart(t, a, c) && Apart(t, b, c) && Apart(t, c, b);
  }

  lemma AddRegionTiled(t: Tiles, q: int, n: int)
    requires Tiled(t)
    requires 0 < q && q % 4 == 0 && n % 4 == 0 && SBRK_EXTRA + ALLOC_EXTRA <= n && q + n <= TWO_32
    requires forall a :: a in t ==> t[a].end <= q || q + n <= t[a].base
    ensures q !in t && q + SBRK_EXTRA !in t
    ensures Tiled(AddRegion(t, q, n))
  {
    var u := AddRegion(t, q, n);
    forall a | a in t ensures a < q || q + n <= a { assert TileOk(t, a); }
    forall b | b in u ensures TileOk(u, b) {
      if b in t { assert TileOk(t, b); }
    }
    forall b, c | b in u && c in u ensures Apart(u, b, c) {
      AddRegionApart(t, q, n, b, c);
    }
  }

  lemma AddRegionApart(t: Tiles, q: int, n: int, b: int, c: int)
    requires Tiled(t) && SBRK_EXTRA + ALLOC_EXTRA <= n
    requires forall a :: a in t ==> t[a].end <= q || q + n <= t[a].base
    requires b in AddRegion(t, q, n) && c in AddRegion(t, q, n)
    requires q !in t && q + SBRK_EXTRA !in t
    ensures Apart(AddRegion(t, q, n), b, c)
  {
    if b in t { assert TileOk(t, b); }
    if c in t { assert TileOk(t, c); }
    if b in t && c in t { assert Apart(t, b, c); }
  }

  lemma DropRegionTiled(t: Tiles, q: int)
    requires Tiled(t) && q in t && t[q].kind == Region
    requires q + SBRK_EXTRA in t ==> q + SBRK_EXTRA + t[q + SBRK_EXTRA].size == t[q].end
    ensures q + SBRK_EXTRA in t && t[q + SBRK_EXTRA].base == q
    ensures Tiled(DropRegion(t, q))
    ensures forall a :: a in t && t[a].base == q ==> a == q || a == q + SBRK_EXTRA
  {
    var u := DropRegion(t, q);
    assert TileOk(t, q) && TileOk(t, q + SBRK_EXTRA);
    forall a | a in t && t[a].base == q ensures a == q || a == q + SBRK_EXTRA {
      assert TileOk(t, a) && Apart(t, q, a) && Apart(t, q + SBRK_EXTRA, a);
    }
    forall b | b in u ensures TileOk(u, b) {
      assert TileOk(t, b);
      assert t[b].base != q;
    }
    forall b, c | b in u && c in u ensures Apart(u, b, c) { assert Apart(t, b, c); }
  }

  // ---- what the invariants mean ----

  /** The blocks that the program holds, with their sizes. */
  ghost function Live(t: Tiles): map<int, int> {
    map a | a in t && t[a].kind == Used :: t[a].size
  }

  /** The regions that the heap holds, with their sizes. */
  ghost function Regions(t: Tiles): map<int, int> {
    map a | a in t && t[a].kind == Region :: t[a].end - a
  }

  ghost predicate Covers(t: Tiles, a: int, k: int) {
    a in t && a <= k < a + t[a].size
  }

  /** Every byte of a region lies in exactly one tile of that region. */
  lemma RegionExactlyTiled(t: Tiles, q: int, k: int)
    requires Tiled(t) && q in Regions(t) && q <= k < q + Regions(t)[q]
    ensures exists a :: Covers(t, a, k) && t[a].base == q
    ensures forall a, b :: Covers(t, a, k) && Covers(t, b, k) ==> a == b
  {
    assert TileOk(t, q);
    var a := CoveringTile(t, q, q, k);
    forall a, b | Covers(t, a, k) && Covers(t, b, k) ensures a == b {
      assert Apart(t, a, b) && Apart(t, b, a);
    }
  }

  lemma CoveringTile(t: Tiles, q: int, from: int, k: int) returns (a: int)
    requires Tiled(t) && q in Regions(t) && from in t && t[from].base == q
    requires from <= k < t[q].end
    ensures Covers(t, a, k) && t[a].base == q
    decreases k - from
  {
    a := from;
    assert TileOk(t, from);
    if from + t[from].size <= k {
      a := CoveringTile(t, q, from + t[from].size, k);
    }
  }

  /** Every region that is held holds a live block. */
  lemma HeldRegionHasLiveBlock(t: Tiles, q: int)
    requires Tiled(t) && Settled(t) && q in Regions(t)
    ensures exists a :: a in Live(t) && t[a].base == q
  {
    assert TileOk(t, q);
    var f := q + SBRK_EXTRA;
    assert TileOk(t, f) && !Vacant(t, q) && NoFreeAfter(t, f);
    if t[f].kind == Used {
      assert f in Live(t);
    } else {
      var g := f + t[f].size;
      assert TileOk(t, g);
      assert g in Live(t);
    }
  }

  /** Live blocks overlap neither each other nor a header. */
  lemma LiveBlocksDisjoint(t: Tiles, a: int, b: int)
    requires Tiled(t) && a in Live(t) && b in t && a != b
    ensures Live(t)[a] >= ALLOC_EXTRA
    ensures a + Live(t)[a] <= b || b + t[b].size <= a
  {
    assert TileOk(t, a) && Apart(t, a, b) && Apart(t, b, a);
  }

  /** With nothing live nothing is held. */
  lemma NothingLiveNothingHeld(t: Tiles)
    requires Tiled(t) && Settled(t) && Live(t) == map[]
    ensures Regions(t) == map[] && t == map[]
  {
    forall q | q in Regions(t) ensures false { HeldRegionHasLiveBlock(t, q); }
    forall a | a in t ensures false {
      assert TileOk(t, a);
      assert t[a].base in Regions(t);
    }
  }

  // ---- how the steps keep free space merged ----

  lemma FreeUnsettles(t: Tiles, r: int)
    requires Tiled(t) && Settled(t) && r in t && t[r].kind == Used
    ensures CoalescedBut(SetKind(t, r, Free), r) && NoVacantBut(SetKind(t, r, Free), t[r].base)
    ensures Live(SetKind(t, r, Free)) == Live(t) - {r}
  {
    var t' := SetKind(t, r, Free);
    forall a | a != r && !(a in t' && a + t'[a].size == r) ensures NoFreeAfter(t', a) { assert NoFreeAfter(t, a); }
    forall q | q != t[r].base ensures !Vacant(t', q) {
      assert !Vacant(t, q) && (q in t ==> TileOk(t, q));
    }
  }

  lemma AbsorbNextSettles(t: Tiles, r: int)
    requires Tiled(t) && r in t && t[r].kind == Free && CoalescedBut(t, r) && NoVacantBut(t, t[r].base)
    requires r + t[r].size in t && t[r + t[r].size].kind == Free
    ensures CoalescedBut(Absorb(t, r), r) && NoFreeAfter(Absorb(t, r), r) && NoVacantBut(Absorb(t, r), t[r].base)
    ensures Live(Absorb(t, r)) == Live(t)
  {
    var t', b := Absorb(t, r), r + t[r].size;
    assert TileOk(t, r) && TileOk(t, b) && NoFreeAfter(t, b);
    assert t[b].base == t[r].base by { AbsorbTiled(t, r); }
    forall a | a != r && !(a in t' && a + t'[a].size == r) ensures NoFreeAfter(t', a) { assert NoFreeAfter(t, a); }
    forall q | q != t[r].base ensures !Vacant(t', q) {
      assert !Vacant(t, q) && (q in t ==> TileOk(t, q));
    }
  }

  lemma AbsorbPrevSettles(t: Tiles, a: int, r: int)
    requires Tiled(t) && r in t && t[r].kind == Free && CoalescedBut(t, r) && NoFreeAfter(t, r)
    requires a in t && t[a].kind == Free && a + t[a].size == r && NoVacantBut(t, t[r].base)
    ensures Coalesced(Absorb(t, a)) && NoVacantBut(Absorb(t, a), t[a].base) && Live(Absorb(t, a)) == Live(t)
    ensures t[a].base == t[r].base
  {
    var t' := Absorb(t, a);
    assert TileOk(t, a) && TileOk(t, r);
    assert t[r].base == t[a].base by { AbsorbTiled(t, a); }
    forall c ensures NoFreeAfter(t', c) {
      assert NoFreeAfter(t, c) || c == r || (c in t && c + t[c].size == r);
      assert c in t && c + t[c].size == r ==> Apart(t, a, c) && Apart(t, c, a) && TileOk(t, c);
      assert c in t && c + t[c].size == a ==> NoFreeAfter(t, c);
    }
    forall q | q != t[r].base ensures !Vacant(t', q) {
      assert !Vacant(t, q) && (q in t ==> TileOk(t, q));
    }
  }

  lemma NothingToMerge(t: Tiles, r: int)
    requires CoalescedBut(t, r) && NoFreeAfter(t, r)
    requires forall a :: a in t && t[a].kind == Free ==> a + t[a].size != r
    ensures Coalesced(t)
  {
  }

  lemma DropSettles(t: Tiles, q: int)
    requires Tiled(t) && Coalesced(t) && NoVacantBut(t, q) && Vacant(t, q)
    ensures Settled(DropRegion(t, q)) && Live(DropRegion(t, q)) == Live(t)
    ensures Regions(DropRegion(t, q)) == Regions(t) - {q}
  {
    var t' := DropRegion(t, q);
    forall a ensures NoFreeAfter(t', a) { assert NoFreeAfter(t, a); }
    forall b ensures !Vacant(t', b) { assert b != q ==> !Vacant(t, b); }
  }

  lemma SplitSettles(t: Tiles, a: int, n: int)
    requires Tiled(t) && Coalesced(t) && a in t && t[a].kind == Free && NoVacantBut(t, t[a].base)
    requires n % 4 == 0 && ALLOC_EXTRA <= n && n + ALLOC_EXTRA <= t[a].size
    ensures Settled(Split(t, a, n)) && a + t[a].size - n !in t
    ensures Live(Split(t, a, n)) == Live(t)[a + t[a].size - n := n]
  {
    SplitTiled(t, a, n);
    var t' := Split(t, a, n);
    forall c ensures NoFreeAfter(t', c) { assert NoFreeAfter(t, c); }
    forall q ensures !Vacant(t', q) {
      assert q != t[a].base ==> !Vacant(t, q);
      assert q in t ==> TileOk(t, q);
      assert TileOk(t, a) && Apart(t, a, t[a].base) && Apart(t, t[a].base, a);
      assert q + SBRK_EXTRA in t ==> Apart(t, a, q + SBRK_EXTRA) && Apart(t, q + SBRK_EXTRA, a);
    }
  }

  lemma TakeSettles(t: Tiles, a: int)
    requires Tiled(t) && Coalesced(t) && a in t && t[a].kind == Free && NoVacantBut(t, t[a].base)
    ensures Settled(SetKind(t, a, Used)) && Live(SetKind(t, a, Used)) == Live(t)[a := t[a].size]
  {
    var t' := SetKind(t, a, Used);
    forall c ensures NoFreeAfter(t', c) { assert NoFreeAfter(t, c); }
    forall q ensures !Vacant(t', q) {
      assert q != t[a].base ==> !Vacant(t, q);
      assert q in t ==> TileOk(t, q);
      assert TileOk(t, a);
      assert Apart(t, a, t[a].base) && Apart(t, t[a].base, a);
      assert q + SBRK_EXTRA in t ==> Apart(t, a, q + SBRK_EXTRA) && Apart(t, q + SBRK_EXTRA, a);
    }
  }

  lemma GrowSettles(t: Tiles, a: int)
    requires Tiled(t) && Settled(t) && a in t && t[a].kind == Used
    requires a + t[a].size in t && t[a + t[a].size].kind == Free
    ensures Settled(Absorb(t, a)) && Live(Absorb(t, a)) == Live(t)[a := t[a].size + t[a + t[a].size].size]
  {
    var t', b := Absorb(t, a), a + t[a].size;
    forall c ensures NoFreeAfter(t', c) { assert NoFreeAfter(t, c); }
    forall q ensures !Vacant(t', q) { assert !Vacant(t, q); }
  }

  lemma AddRegionSettles(t: Tiles, q: int, n: int)
    requires Tiled(t) && Settled(t) && q !in t && q + SBRK_EXTRA !in t && SBRK_EXTRA + ALLOC_EXTRA <= n
    requires forall a :: a in t ==> t[a].end <= q || q + n <= t[a].base
    ensures Coalesced(AddRegion(t, q, n)) && NoVacantBut(AddRegion(t, q, n), q) && Live(AddRegion(t, q, n)) == Live(t)
  {
    var t' := AddRegion(t, q, n);
    forall c ensures NoFreeAfter(t', c) {
      assert NoFreeAfter(t, c);
      assert c in t ==> TileOk(t, c);
      assert q + n in t ==> TileOk(t, q + n);
    }
    forall b | b != q ensures !Vacant(t', b) {
      assert !Vacant(t, b);
      assert b in t ==> TileOk(t, b);
    }
  }
}
