/** How much the allocator asks from the operating system: small requests double
    the chunk size, up to a limit. */
module HeapGrowth {
  import opened CInt
  import opened HeapLayout
  import opened Heap
  import opened HeapRun

  ghost predicate Untuned(calls: seq<Call>, from: nat) {
    forall i :: from <= i < |calls| ==> !calls[i].CallChunkSize?
  }

  /** How many of the first `i` calls have asked the system for little. */
  ghost function LittleAsks(calls: seq<Call>, states: seq<Snap>, i: nat): nat
    requires i <= |calls| && i < |states|
  {
    if i == 0 then 0
    else LittleAsks(calls, states, i - 1) + if AsksForLittle(states[i - 1], calls[i - 1]) then 1 else 0
  }

  /** A program that starts with the chunk sizes of the library. */
  ghost predicate FromStart(calls: seq<Call>, answers: seq<Grant>, states: seq<Snap>) {
    && Trace(calls, answers, states) && Untuned(calls, 0)
    && states[0].minhunk == 8192 && states[0].maxhunk == 32768
  }

  /** The chunk size that the k-th such call finds. */
  lemma {:induction false} GrowthLaw(calls: seq<Call>, answers: seq<Grant>, states: seq<Snap>, i: nat)
    requires FromStart(calls, answers, states) && i <= |calls|
    ensures states[i].maxhunk == 32768
    ensures states[i].minhunk == Least(8192 * Pow2(LittleAsks(calls, states, i)), 32768)
  {
    hide Stepped, AsksForLittle, AsksFor;
    if i == 0 {
      assert Pow2(0) == 1;
    } else {
      GrowthLaw(calls, answers, states, i - 1);
      assert StepAt(calls, answers, states, i - 1);
      assert Asked(states[i - 1], calls[i - 1], answers[i - 1], states[i]);
      PowersFrom4(LittleAsks(calls, states, i - 1));
    }
  }

  lemma {:induction false} PowersFrom4(k: nat)
    ensures Pow2(0) == 1 && Pow2(1) == 2 && (k >= 2 ==> Pow2(k) >= 4)
  {
    if k > 2 {
      PowersFrom4(k - 1);
    } else {
      assert Pow2(2) == 2 * Pow2(1);
    }
  }

  /** The chunk size never shrinks. */
  lemma {:induction false} NeverShrinks(calls: seq<Call>, answers: seq<Grant>, states: seq<Snap>, i: nat, j: nat)
    requires FromStart(calls, answers, states) && i <= j <= |calls|
    ensures states[i].minhunk <= states[j].minhunk
  {
    hide Stepped, AsksForLittle, AsksFor;
    if i < j {
      NeverShrinks(calls, answers, states, i, j - 1);
      GrowthLaw(calls, answers, states, j - 1);
      assert StepAt(calls, answers, states, j - 1);
      assert Asked(states[j - 1], calls[j - 1], answers[j - 1], states[j]);
    }
  }

  /** The region that the system gives: of exactly the chunk size for little, and
      else of as many pages as are needed, with the chunk size as it was. */
  lemma RegionLaw(calls: seq<Call>, answers: seq<Grant>, states: seq<Snap>, i: nat)
    requires FromStart(calls, answers, states) && i < |calls|
    requires AsksFor(states[i], calls[i]) && answers[i].Give?
    ensures answers[i].base in states[i + 1].held
    ensures var size, need := states[i + 1].held[answers[i].base], Need(Wanted(calls[i])) + 20;
      if AsksForLittle(states[i], calls[i]) then size == Least(8192 * Pow2(LittleAsks(calls, states, i)), 32768)
      else need > states[i].minhunk == states[i + 1].minhunk && size % 8192 == 0 && need <= size < need + 8192
  {
    hide Stepped, AskSize, Need;
    GrowthLaw(calls, answers, states, i);
    assert StepAt(calls, answers, states, i);
    assert Asked(states[i], calls[i], answers[i], states[i + 1]);
    ChunkIsPages(LittleAsks(calls, states, i));
  }

  lemma ChunkIsPages(k: nat)
    ensures Least(8192 * Pow2(k), 32768) % 8192 == 0
  {
    PowersFrom4(k);
  }

  /** Once it is set, the chunk size stays what it is. */
  lemma {:induction false} TunedLaw(calls: seq<Call>, answers: seq<Grant>, states: seq<Snap>, i: nat, j: nat)
    requires Trace(calls, answers, states) && i < j <= |calls| && Untuned(calls, i + 1)
    requires calls[i].CallChunkSize? && 0 <= calls[i].size < TWO_32
    ensures states[j].minhunk == states[j].maxhunk == calls[i].size
  {
    hide Stepped, AsksForLittle, AsksFor;
    assert StepAt(calls, answers, states, j - 1);
    assert Asked(states[j - 1], calls[j - 1], answers[j - 1], states[j]);
    if i + 1 < j {
      TunedLaw(calls, answers, states, i, j - 1);
    }
  }

  /** A program from its start. */
  method RunFromStart(head: int, calls: seq<Call>)
    returns (heap: Heap, slots: seq<Slot>, ghost answers: seq<Grant>, ghost states: seq<Snap>)
    requires 0 < head && head + ALLOC_EXTRA <= TWO_32 && Untuned(calls, 0)
    ensures heap.Valid() && |states| == |calls| + 1 && states[|calls|] == Shot(heap, slots)
    ensures FromStart(calls, answers, states)
    ensures heap.minhunk == Least(8192 * Pow2(LittleAsks(calls, states, |calls|)), 32768)
  {
    hide Stepped, Asked, AsksFor;
    heap := new Heap(head);
    slots, answers, states := Run(heap, calls);
    GrowthLaw(calls, answers, states, |calls|);
  }
}
