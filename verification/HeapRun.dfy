/** Programs that use the allocator: any calls in any order, with any answers
    of the operating system. */
module HeapRun {
  import opened CInt
  import opened Memory
  import opened HeapLayout
  import opened HeapWords
  import opened Heap

  /** A pointer that the program holds, the size it asked for, and the bytes it
      has written there, by offset. */
  datatype Slot = Slot(p: int, n: int, written: map<int, byte>)

  const NO_BLOCK := Slot(0, 0, map[])

  datatype Call =
    | CallMalloc(n: int, os: Grant)
    | CallRealloc(slot: nat, n: int, os: Grant)
    | CallFree(slot: nat)
    | CallWrite(slot: nat, offset: int, value: byte)
    | CallChunkSize(size: int)

  ghost predicate SlotOk(slots: seq<Slot>, live: map<int, int>, i: int) {
    0 <= i < |slots| && slots[i].p != 0 ==>
      slots[i].p - ALLOC_EXTRA in live && Need(slots[i].n) <= live[slots[i].p - ALLOC_EXTRA]
  }

  ghost predicate Distinct(slots: seq<Slot>, i: int, j: int) {
    0 <= i < |slots| && 0 <= j < |slots| && slots[i].p == slots[j].p != 0 ==> i == j
  }

  ghost predicate HasSlot(slots: seq<Slot>, live: map<int, int>, a: int) {
    a in live ==> exists i :: 0 <= i < |slots| && slots[i].p == a + ALLOC_EXTRA
  }

  /** The slots hold exactly the live blocks, each once. */
  ghost predicate SlotsOk(slots: seq<Slot>, live: map<int, int>) {
    && (forall i {:trigger SlotOk(slots, live, i)} :: SlotOk(slots, live, i))
    && (forall i, j {:trigger Distinct(slots, i, j)} :: Distinct(slots, i, j))
    && (forall a {:trigger HasSlot(slots, live, a)} :: HasSlot(slots, live, a))
    && (forall a :: a in live ==> 0 < a)
  }

  /** Slot `i` lets go of its block, if it has one. */
  lemma Drop(slots: seq<Slot>, live: map<int, int>, i: nat)
    requires SlotsOk(slots, live) && i < |slots|
    ensures SlotsOk(slots[i := NO_BLOCK], live - {slots[i].p - ALLOC_EXTRA})
  {
    var slots', live' := slots[i := NO_BLOCK], live - {slots[i].p - ALLOC_EXTRA};
    forall j ensures SlotOk(slots', live', j) { assert SlotOk(slots, live, j) && Distinct(slots, i, j); }
    forall j, k ensures Distinct(slots', j, k) { assert Distinct(slots, j, k); }
    forall a ensures HasSlot(slots', live', a) {
      if a in live' {
        assert HasSlot(slots, live, a);
        var j :| 0 <= j < |slots| && slots[j].p == a + ALLOC_EXTRA;
        assert slots'[j].p == a + ALLOC_EXTRA;
      }
    }
  }

  /** The empty slot `i` gets a block that was not live. */
  lemma Fill(slots: seq<Slot>, live: map<int, int>, i: nat, s: Slot, size: int)
    requires SlotsOk(slots, live) && i < |slots| && slots[i].p == 0
    requires 0 < s.p - ALLOC_EXTRA && s.p - ALLOC_EXTRA !in live && Need(s.n) <= size
    ensures SlotsOk(slots[i := s], live[s.p - ALLOC_EXTRA := size])
  {
    var slots', live' := slots[i := s], live[s.p - ALLOC_EXTRA := size];
    forall j ensures SlotOk(slots', live', j) { assert SlotOk(slots, live, j); }
    forall j, k ensures Distinct(slots', j, k) {
      assert Distinct(slots, j, k) && SlotOk(slots, live, j) && SlotOk(slots, live, k);
    }
    forall a ensures HasSlot(slots', live', a) {
      if a == s.p - ALLOC_EXTRA {
        assert slots'[i].p == a + ALLOC_EXTRA;
      } else if a in live' {
        assert HasSlot(slots, live, a);
        var j :| 0 <= j < |slots| && slots[j].p == a + ALLOC_EXTRA;
        assert slots'[j].p == a + ALLOC_EXTRA;
      }
    }
  }

  lemma Grow(slots: seq<Slot>, live: map<int, int>)
    requires SlotsOk(slots, live)
    ensures SlotsOk(slots + [NO_BLOCK], live)
  {
    var slots' := slots + [NO_BLOCK];
    forall j ensures SlotOk(slots', live, j) { assert SlotOk(slots, live, j); }
    forall j, k ensures Distinct(slots', j, k) { assert Distinct(slots, j, k); }
    forall a ensures HasSlot(slots', live, a) {
      if a in live {
        assert HasSlot(slots, live, a);
        var j :| 0 <= j < |slots| && slots[j].p == a + ALLOC_EXTRA;
        assert slots'[j].p == a + ALLOC_EXTRA;
      }
    }
  }

  // ---- what the program has written ----

  /** Every byte written to the block of slot `i` is still there. */
  ghost predicate Kept(slots: seq<Slot>, m: Mem, i: int) {
    0 <= i < |slots| ==> forall o :: o in slots[i].written ==>
      slots[i].p != 0 && 0 <= o < slots[i].n && slots[i].p + o in m && m[slots[i].p + o] == slots[i].written[o]
  }

  ghost predicate Remembers(slots: seq<Slot>, m: Mem) {
    forall i {:trigger Kept(slots, m, i)} :: Kept(slots, m, i)
  }

  function Prefix(written: map<int, byte>, n: int): map<int, byte> {
    map o | o in written && o < n :: written[o]
  }

  lemma SlotPayload(slots: seq<Slot>, t: Tiles, i: nat, o: int)
    requires i < |slots| && slots[i].p != 0 && SlotOk(slots, Live(t), i) && 0 <= o < slots[i].n
    ensures InPayload(t, slots[i].p - ALLOC_EXTRA, slots[i].p + o)
  {
  }

  /** A slot whose block was kept. */
  lemma KeptAgain(slots: seq<Slot>, slots': seq<Slot>, m: Mem, m': Mem, t: Tiles, i: nat)
    requires i < |slots| && i < |slots'| && slots'[i] == slots[i] && Kept(slots, m, i)
    requires SlotOk(slots, Live(t), i)
    requires slots[i].p != 0 ==>
      forall k {:trigger InPayload(t, slots[i].p - ALLOC_EXTRA, k)} ::
        InPayload(t, slots[i].p - ALLOC_EXTRA, k) ==> k in m && k in m' && m'[k] == m[k]
    ensures Kept(slots', m', i)
  {
    if slots[i].p != 0 {
      forall o | o in slots[i].written ensures slots[i].p + o in m' && m'[slots[i].p + o] == slots[i].written[o] {
        SlotPayload(slots, t, i, o);
      }
    }
  }

  /** A call that keeps every block of `t`, when only slot `i` has changed. */
  lemma RemembersBut(slots: seq<Slot>, slots': seq<Slot>, m: Mem, m': Mem, t: Tiles, i: nat)
    requires i < |slots'| && |slots| <= |slots'| <= i + 1 + |slots| && Remembers(slots, m) && Kept(slots', m', i)
    requires forall j :: 0 <= j < |slots'| && j != i ==> j < |slots| && slots'[j] == slots[j]
    requires forall j {:trigger SlotOk(slots, Live(t), j)} :: j != i && j < |slots| ==> SlotOk(slots, Live(t), j)
    requires forall b, k {:trigger InPayload(t, b, k)} ::
      (i < |slots| && slots[i].p != 0 ==> b != slots[i].p - ALLOC_EXTRA) && InPayload(t, b, k) ==>
        k in m && k in m' && m'[k] == m[k]
    requires forall j {:trigger Distinct(slots, i, j)} :: Distinct(slots, i, j)
    ensures Remembers(slots', m')
  {
    forall j ensures Kept(slots', m', j) {
      if 0 <= j < |slots'| && j != i {
        var s := slots'[j];
        assert Kept(slots, m, j) && SlotOk(slots, Live(t), j) && Distinct(slots, i, j);
        KeptAgain(slots, slots', m, m', t, j);
      }
    }
  }

  // ---- one call ----

  predicate Writable(slots: seq<Slot>, i: nat, offset: int) {
    i < |slots| && slots[i].p != 0 && 0 <= offset < slots[i].n
  }

  /** What a program has, and what the allocator goes by: the layout, the regions
      that it holds, and the chunk sizes that it asks for. */
  datatype Snap = Snap(slots: seq<Slot>, t: Tiles, held: map<int, int>, minhunk: int, maxhunk: int)

  /** There is memory for `n` bytes. */
  ghost predicate Served(s: Snap, n: int, os: Grant) {
    os.Give? || exists f :: Fits(s.t, f, Need(n))
  }

  /** The block in slot `i` can stay where it is when it shall have `n` bytes. */
  ghost predicate CanStay(s: Snap, i: nat, n: int)
    requires i < |s.slots|
  {
    var p := s.slots[i].p - ALLOC_EXTRA;
    p in s.t && (s.t[p].size >= Need(n) || CanGrow(s.t, p, Need(n)))
  }

  /** What a call does to the slots, if the system answers `os`. A call for which
      some size would wrap is not made. */
  ghost predicate Stepped(s: Snap, call: Call, os: Grant, slots': seq<Slot>) {
    var slots := s.slots;
    match call
    case CallMalloc(n, _) =>
      if CanServe(s.t, n, s.minhunk) then RenewedIf(s.(slots := slots + [NO_BLOCK]), |slots|, n, os, slots')
      else slots' == slots
    case CallRealloc(i, n, _) =>
      if i < |slots| && CanResize(s.t, slots[i].p, n, s.minhunk) then RenewedIf(s, i, n, os, slots')
      else slots' == slots
    case CallFree(i) =>
      slots' == if i < |slots| then slots[i := NO_BLOCK] else slots
    case CallWrite(i, offset, value) =>
      slots' == if Writable(slots, i, offset) then Written(slots, i, offset, value) else slots
    case CallChunkSize(_) =>
      slots' == slots
  }

  /** The call needs a block for which the system is asked. */
  ghost predicate AsksFor(s: Snap, call: Call) {
    match call
    case CallMalloc(n, _) => CanServe(s.t, n, s.minhunk) && Asks(s.t, 0, n)
    case CallRealloc(i, n, _) =>
      i < |s.slots| && CanResize(s.t, s.slots[i].p, n, s.minhunk) && Asks(s.t, s.slots[i].p, n)
    case _ => false
  }

  function Wanted(call: Call): int {
    if call.CallMalloc? || call.CallRealloc? then call.n else 0
  }

  /** ... and its chunk and both headers are not more than the chunk size. */
  ghost predicate AsksForLittle(s: Snap, call: Call) {
    AsksFor(s, call) && Need(Wanted(call)) + 20 <= s.minhunk
  }

  /** What a call does to the chunk sizes and, if the system gives it something,
      to the regions. */
  ghost predicate Asked(s: Snap, call: Call, os: Grant, s': Snap) {
    && (if call.CallChunkSize? && 0 <= call.size < TWO_32 then s'.minhunk == s'.maxhunk == call.size
        else s'.maxhunk == s.maxhunk && s'.minhunk ==
             if AsksForLittle(s, call) && s.minhunk < s.maxhunk then 2 * s.minhunk else s.minhunk)
    && (AsksFor(s, call) && os.Give? ==>
          os.base in s'.held && s'.held[os.base] == AskSize(Need(Wanted(call)), s.minhunk))
  }

  /** An empty slot is filled exactly if there is memory. Size zero empties a
      full one; another size fails exactly if the block can neither stay nor be
      moved, and then nothing changes. */
  ghost predicate RenewedIf(s: Snap, i: nat, n: int, os: Grant, slots': seq<Slot>)
    requires i < |s.slots|
  {
    if s.slots[i].p != 0 && n == 0 then slots' == s.slots[i := NO_BLOCK]
    else if Served(s, n, os) || (s.slots[i].p != 0 && CanStay(s, i, n)) then
      && Renewed(s.slots, i, n, slots') && slots'[i].p != 0
      && (s.slots[i].p != 0 && Stays(s.t, s.slots[i].p - ALLOC_EXTRA, n) ==> slots'[i].p == s.slots[i].p)
    else slots' == s.slots
  }

  /** The block of slot `i` has `n` bytes now, the first of them as before. */
  ghost predicate Renewed(slots: seq<Slot>, i: nat, n: int, slots': seq<Slot>)
    requires i < |slots|
  {
    |slots'| == |slots| && slots' == slots[i := Slot(slots'[i].p, n, Prefix(slots[i].written, n))]
  }

  function Written(slots: seq<Slot>, i: nat, offset: int, value: byte): seq<Slot>
    requires i < |slots|
  {
    slots[i := Slot(slots[i].p, slots[i].n, slots[i].written[offset := value])]
  }

  /** What the operating system answers: what the call foresees, unless that is
      memory that is in use. */
  method Answer(heap: Heap, n: int, os: Grant) returns (answer: Grant)
    ensures heap.GrantOk(n, answer) && answer == if heap.GrantOk(n, os) then os else Refuse
  {
    answer := Refuse;
    if os.Give? && Acceptable(heap.mem.Keys, heap.head, os.base, AskSize(Need(n), heap.minhunk), os.contents) {
      answer := os;
    }
  }

  ghost predicate Answered(heap: Heap, call: Call, answer: Grant)
    reads heap
  {
    match call
    case CallMalloc(n, os) => answer == if heap.GrantOk(n, os) then os else Refuse
    case CallRealloc(_, n, os) => answer == if heap.GrantOk(n, os) then os else Refuse
    case _ => true
  }

  ghost predicate Good(heap: Heap, slots: seq<Slot>)
    reads heap
  {
    heap.Valid() && SlotsOk(slots, Live(heap.t)) && Remembers(slots, heap.mem)
  }

  ghost function Shot(heap: Heap, slots: seq<Slot>): Snap
    reads heap
  {
    Snap(slots, heap.t, heap.held, heap.minhunk, heap.maxhunk)
  }

  /** The block of slot `i` is freed, or there was none. */
  lemma FreeRemembers(slots: seq<Slot>, slots': seq<Slot>, m: Mem, m': Mem, live: map<int, int>, t: Tiles, i: nat)
    requires i < |slots| && SlotsOk(slots, live) && Remembers(slots, m)
    requires |slots'| == |slots| && slots' == slots[i := slots'[i]] && slots'[i].p == 0 && slots'[i].written == map[]
    requires Live(t) == live - {slots[i].p - ALLOC_EXTRA} && PayloadKept(m, m', t)
    ensures Remembers(slots', m') && SlotsOk(slots', Live(t))
  {
    Drop(slots, live, i);
    SameBlocks(slots[i := NO_BLOCK], slots', Live(t));
    forall j ensures Kept(slots', m', j) {
      if 0 <= j < |slots| && j != i {
        assert SlotOk(slots', Live(t), j) && Kept(slots, m, j) && slots'[j] == slots[j];
        assert SlotOk(slots, Live(t), j);
        KeptAgain(slots, slots', m, m', t, j);
      }
    }
  }

  method FreeSlot(heap: Heap, slots: seq<Slot>, i: nat) returns (slots': seq<Slot>)
    requires Good(heap, slots) && i < |slots|
    modifies heap
    ensures Good(heap, slots') && slots' == slots[i := NO_BLOCK]
    ensures heap.minhunk == old(heap.minhunk) && heap.maxhunk == old(heap.maxhunk)
  {
    hide Shape, Settled;
    ghost var m, live := heap.mem, Live(heap.t);
    assert SlotOk(slots, live, i);
    heap.Free(slots[i].p);
    slots' := slots[i := NO_BLOCK];
    FreeRemembers(slots, slots', m, heap.mem, live, heap.t, i);
  }

  method WriteSlot(heap: Heap, slots: seq<Slot>, i: nat, offset: int, value: byte) returns (slots': seq<Slot>)
    requires Good(heap, slots) && Writable(slots, i, offset)
    modifies heap
    ensures Good(heap, slots') && slots' == Written(slots, i, offset, value)
    ensures heap.minhunk == old(heap.minhunk) && heap.maxhunk == old(heap.maxhunk)
  {
    hide Settled;
    ghost var m, live := heap.mem, Live(heap.t);
    assert SlotOk(slots, live, i);
    heap.Write(slots[i].p, offset, value);
    slots' := Written(slots, i, offset, value);
    SameBlocks(slots, slots', live);
    forall j ensures Kept(slots', heap.mem, j) {
      assert Kept(slots, m, j) && SlotOk(slots, live, j) && Distinct(slots, i, j);
      if 0 <= j < |slots| && j != i && slots[j].p != 0 {
        LiveBlocksDisjoint(heap.t, slots[i].p - ALLOC_EXTRA, slots[j].p - ALLOC_EXTRA);
      }
    }
  }

  lemma SameBlocks(slots: seq<Slot>, slots': seq<Slot>, live: map<int, int>)
    requires SlotsOk(slots, live) && |slots'| == |slots|
    requires forall i :: 0 <= i < |slots| ==>
      slots'[i].p == slots[i].p && (slots[i].p != 0 ==> slots'[i].n == slots[i].n)
    ensures SlotsOk(slots', live)
  {
    forall i ensures SlotOk(slots', live, i) { assert SlotOk(slots, live, i); }
    forall i, j ensures Distinct(slots', i, j) { assert Distinct(slots, i, j); }
    forall a ensures HasSlot(slots', live, a) {
      assert HasSlot(slots, live, a);
      if a in live {
        var i :| 0 <= i < |slots| && slots[i].p == a + ALLOC_EXTRA;
        assert slots'[i].p == a + ALLOC_EXTRA;
      }
    }
  }

  /** Slot `i`, empty so far, gets the block `p`. */
  lemma MallocRemembers(slots: seq<Slot>, slots': seq<Slot>, m: Mem, m': Mem, t: Tiles, t': Tiles, i: nat)
    requires i < |slots| && SlotsOk(slots, Live(t)) && Remembers(slots, m) && slots[i].p == 0
    requires |slots'| == |slots| && slots' == slots[i := slots'[i]] && slots'[i].written == map[]
    requires (forall a :: a in Live(t') ==> 0 < a) && NewBlock(t, t', slots'[i].p - ALLOC_EXTRA, Need(slots'[i].n))
    requires PayloadKept(m, m', t)
    ensures Remembers(slots', m') && SlotsOk(slots', Live(t'))
  {
    Fill(slots, Live(t), i, slots'[i], Live(t')[slots'[i].p - ALLOC_EXTRA]);
    assert Kept(slots', m', i);
    assert forall j {:trigger Distinct(slots, i, j)} :: Distinct(slots, i, j);
    RemembersBut(slots, slots', m, m', t, i);
  }

  /** The block of slot `i` becomes the block `p` of `n` bytes. */
  lemma ReallocRemembers(slots: seq<Slot>, slots': seq<Slot>, m: Mem, m': Mem, t: Tiles, t': Tiles, i: nat, n: int)
    requires i < |slots| && SlotsOk(slots, Live(t)) && Remembers(slots, m) && slots[i].p != 0 && 0 <= n
    requires Renewed(slots, i, n, slots') && forall a :: a in Live(t') ==> 0 < a
    requires slots[i].p - ALLOC_EXTRA in Live(t)
    requires var size := Live(t)[slots[i].p - ALLOC_EXTRA];
      Reallocated(m, t, m', t', slots[i].p, slots'[i].p, n, if size - ALLOC_EXTRA < n then size - ALLOC_EXTRA else n)
    ensures Remembers(slots', m') && SlotsOk(slots', Live(t'))
  {
    var s, s' := slots[i], slots'[i];
    assert SlotOk(slots, Live(t), i) && Kept(slots, m, i);
    Drop(slots, Live(t), i);
    Fill(slots[i := NO_BLOCK], Live(t) - {s.p - ALLOC_EXTRA}, i, s', Live(t')[s'.p - ALLOC_EXTRA]);
    assert slots[i := NO_BLOCK][i := s'] == slots';
    forall o | o in s'.written ensures s'.p + o in m' && m'[s'.p + o] == s'.written[o] {
      assert MovedByte(m, m', s.p, s'.p, s'.p + o);
    }
    assert Kept(slots', m', i);
    RemembersBut(slots, slots', m, m', t, i);
  }

  /** realloc, or malloc for an empty slot. */
  method Renew(heap: Heap, slots: seq<Slot>, i: nat, n: int, os: Grant) returns (slots': seq<Slot>)
    requires Good(heap, slots) && i < |slots|
    requires CanResize(heap.t, slots[i].p, n, heap.minhunk) && heap.GrantOk(n, os)
    modifies heap
    ensures Good(heap, slots') && RenewedIf(old(Shot(heap, slots)), i, n, os, slots')
    ensures heap.maxhunk == old(heap.maxhunk)
    ensures heap.minhunk == if Asks(old(heap.t), slots[i].p, n) && Need(n) + 20 <= old(heap.minhunk) < heap.maxhunk
                            then 2 * old(heap.minhunk) else old(heap.minhunk)
    ensures Asks(old(heap.t), slots[i].p, n) && os.Give? ==>
      os.base in heap.held && heap.held[os.base] == AskSize(Need(n), old(heap.minhunk))
  {
    hide Shape, Settled, Reallocated, SlotsOk, Remembers, NewBlock, PayloadKept, Absorb, Fits, Asks;
    ghost var live, m, t := Live(heap.t), heap.mem, heap.t;
    SlotFacts(slots, m, t, i);
    var p := heap.Realloc(slots[i].p, n, os);
    slots' := slots;
    LivePositive(heap);
    if p != 0 {
      slots' := slots[i := Slot(p, n, Prefix(slots[i].written, n))];
      if slots[i].p == 0 {
        MallocRemembers(slots, slots', m, heap.mem, t, heap.t, i);
      } else {
        ReallocRemembers(slots, slots', m, heap.mem, t, heap.t, i, n);
      }
    } else if slots[i].p != 0 && n == 0 {
      slots' := slots[i := NO_BLOCK];
      FreeRemembers(slots, slots', m, heap.mem, live, heap.t, i);
    }
  }

  lemma SlotFacts(slots: seq<Slot>, m: Mem, t: Tiles, i: nat)
    requires SlotsOk(slots, Live(t)) && Remembers(slots, m) && i < |slots|
    ensures slots[i].p != 0 ==> slots[i].p - ALLOC_EXTRA in Live(t)
    ensures slots[i].p == 0 ==> slots[i].written == map[]
  {
    assert SlotOk(slots, Live(t), i) && Kept(slots, m, i);
    if slots[i].p == 0 { assert forall o :: o !in slots[i].written; }
  }

  lemma LivePositive(heap: Heap)
    requires heap.Valid()
    ensures forall a :: a in Live(heap.t) ==> 0 < a
  {
    TilesPositive(heap.t);
  }

  lemma GrowRemembers(slots: seq<Slot>, m: Mem, live: map<int, int>)
    requires SlotsOk(slots, live) && Remembers(slots, m)
    ensures SlotsOk(slots + [NO_BLOCK], live) && Remembers(slots + [NO_BLOCK], m)
  {
    Grow(slots, live);
    forall j ensures Kept(slots + [NO_BLOCK], m, j) { assert Kept(slots, m, j); }
  }

  /** One call; `answer` is what the system answers if it is asked. */
  method Step(heap: Heap, slots: seq<Slot>, call: Call) returns (slots': seq<Slot>, answer: Grant)
    requires Good(heap, slots)
    modifies heap
    ensures Good(heap, slots') && Stepped(old(Shot(heap, slots)), call, answer, slots')
    ensures Asked(old(Shot(heap, slots)), call, answer, Shot(heap, slots'))
    ensures old(Answered(heap, call, answer))
  {
    hide Shape, Settled, SlotsOk, Remembers, RenewedIf, Acceptable, Asks, CanServe, AskSize, Need;
    slots', answer := slots, Refuse;
    match call
    case CallMalloc(n, os) =>
      answer := Answer(heap, n, os);
      var served := heap.ServesNow(n);
      if served {
        GrowRemembers(slots, heap.mem, Live(heap.t));
        slots' := Renew(heap, slots + [NO_BLOCK], |slots|, n, answer);
      }
    case CallRealloc(i, n, os) =>
      answer := Answer(heap, n, os);
      if i < |slots| {
        SlotFacts(slots, heap.mem, heap.t, i);
        var served := heap.ResizesNow(slots[i].p, n);
        if served {
          slots' := Renew(heap, slots, i, n, answer);
        }
      }
    case CallFree(i) =>
      if i < |slots| { slots' := FreeSlot(heap, slots, i); }
    case CallWrite(i, offset, value) =>
      if Writable(slots, i, offset) { slots' := WriteSlot(heap, slots, i, offset, value); }
    case CallChunkSize(size) =>
      if 0 <= size < TWO_32 { heap.SetChunkSize(size); }
  }

  // ---- runs ----

  /** What the program has after each of the calls, given the answers. */
  ghost predicate Trace(calls: seq<Call>, answers: seq<Grant>, states: seq<Snap>) {
    && |states| == |calls| + 1 && |answers| == |calls| && states[0].slots == []
    && forall i {:trigger StepAt(calls, answers, states, i)} :: StepAt(calls, answers, states, i)
  }

  ghost predicate StepAt(calls: seq<Call>, answers: seq<Grant>, states: seq<Snap>, i: int) {
    0 <= i < |calls| && i < |answers| && i + 1 < |states| ==>
      && Stepped(states[i], calls[i], answers[i], states[i + 1].slots)
      && Asked(states[i], calls[i], answers[i], states[i + 1])
  }

  /** Any sequence of calls. */
  method Run(heap: Heap, calls: seq<Call>)
    returns (slots: seq<Slot>, ghost answers: seq<Grant>, ghost states: seq<Snap>)
    requires heap.Valid() && Live(heap.t) == map[]
    modifies heap
    ensures heap.Valid() && SlotsOk(slots, Live(heap.t)) && Remembers(slots, heap.mem)
    ensures Trace(calls, answers, states) && states[|calls|] == Shot(heap, slots)
    ensures states[0] == old(Shot(heap, []))
    ensures (forall i :: 0 <= i < |slots| ==> slots[i].p == 0) ==> heap.held == map[] && heap.l == []
  {
    hide Stepped, Asked;
    slots, answers := [], [];
    states := [Shot(heap, slots)];
    NothingYet(heap, slots);
    for c := 0 to |calls|
      invariant Good(heap, slots)
      invariant Trace(calls[..c], answers, states) && states[c] == Shot(heap, slots)
      invariant states[0] == old(Shot(heap, []))
    {
      ghost var before, known := states, answers;
      var answer;
      slots, answer := Step(heap, slots, calls[c]);
      answers := answers + [answer];
      states := states + [Shot(heap, slots)];
      TraceMore(calls, c, known, answers, before, states);
    }
    assert calls[..|calls|] == calls;
    if forall i :: 0 <= i < |slots| ==> slots[i].p == 0 {
      forall a ensures a !in Live(heap.t) { assert HasSlot(slots, Live(heap.t), a); }
      NothingLeaks(heap.mem, heap.head, heap.held, heap.t, heap.l);
    }
  }

  lemma NothingYet(heap: Heap, slots: seq<Slot>)
    requires heap.Valid() && Live(heap.t) == map[] && slots == []
    ensures Good(heap, slots)
  {
  }

  lemma TraceMore(calls: seq<Call>, c: nat, known: seq<Grant>, answers: seq<Grant>, before: seq<Snap>,
                  states: seq<Snap>)
    requires c < |calls| && Trace(calls[..c], known, before)
    requires |answers| == c + 1 && answers[..c] == known
    requires |states| == c + 2 && states[..c + 1] == before
    requires Stepped(before[c], calls[c], answers[c], states[c + 1].slots)
    requires Asked(before[c], calls[c], answers[c], states[c + 1])
    ensures Trace(calls[..c + 1], answers, states)
  {
    hide Stepped, Asked;
    var done := calls[..c + 1];
    forall i ensures StepAt(done, answers, states, i) {
      assert StepAt(calls[..c], known, before, i);
      if 0 <= i <= c { assert states[i] == states[..c + 1][i]; }
      if 0 <= i < c { assert states[i + 1] == states[..c + 1][i + 1] && answers[i] == answers[..c][i]; }
    }
  }
}
