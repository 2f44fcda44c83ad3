/** What heap_alloc and heap_free do to blocks, list and counters, said in full, and what the counters count. */
module HeapLaws {
  import opened Bits
  import opened HeapModel

  // ----- One call -----

  /** heap_alloc answers NULL exactly when it has to. */
  lemma AllocRefused(h: Heap, n: u64)
    requires Sound(h) && Listed(h)
    ensures Alloc(h, n).1 == 0 <==> Refused(h, n)
  {
    hide Alloc, Aligned, BlocksOk, ListOk, AlignUp;
    AllocLaw(h, n);
  }

  /** h' is h with b, the k-th free block, given out at the size; 48 bytes or more beyond it become a free block. */
  ghost predicate GivenOut(h: Heap, h': Heap, k: nat, size: nat)
    requires k < |h.flist| && h.flist[k] in h.blocks && size <= h.blocks[h.flist[k]].size
  {
    var b := h.flist[k];
    var left, rest := h.blocks[b].size - size, b + 32 + size;
    && h'.lo == h.lo && h'.hi == h.hi && h'.allocs == h.allocs + 1 && h'.frees == h.frees
    && (left < 48 ==>
          && h'.blocks == h.blocks[b := Block(size, false)]
          && h'.flist == h.flist[..k] + h.flist[k + 1..])
    && (left >= 48 ==>
          && h'.blocks == h.blocks[b := Block(size, false)][rest := Block(left - 32, true)]
          && h'.flist == h.flist[k := rest])
  }

  /** First fit: the block given out is the first of the free list with room, and only it and the list change. */
  lemma AllocExact(h: Heap, n: u64) returns (k: nat)
    requires Sound(h) && Listed(h) && Alloc(h, n).1 != 0
    ensures k < |h.flist| && Alloc(h, n).1 == h.flist[k] + 32
    ensures h.blocks[h.flist[k]].size >= AlignUp(n)
    ensures forall j :: 0 <= j < k ==> h.blocks[h.flist[j]].size < AlignUp(n)
    ensures GivenOut(h, Alloc(h, n).0, k, AlignUp(n))
  {
    hide Aligned, BlocksOk, ListOk, AlignUp;
    AllocLaw(h, n);
    k := Fit(h, n);
  }

  /** h' is h with the block at a free, at the head of the list, and merged with a free block that follows it. */
  ghost predicate TakenBack(h: Heap, h': Heap, a: nat)
    requires a in h.blocks
  {
    var n := a + 32 + h.blocks[a].size;
    && h'.lo == h.lo && h'.hi == h.hi && h'.allocs == h.allocs && h'.frees == h.frees + 1
    && (n in h.blocks && h.blocks[n].free ==>
          && h'.blocks == (h.blocks - {n})[a := Block(h.blocks[a].size + 32 + h.blocks[n].size, true)]
          && exists j :: 0 <= j < |h.flist| && h.flist[j] == n && h'.flist == [a] + h.flist[..j] + h.flist[j + 1..])
    && (!(n in h.blocks && h.blocks[n].free) ==>
          h'.blocks == h.blocks[a := Block(h.blocks[a].size, true)] && h'.flist == [a] + h.flist)
  }

  lemma NextListed(h: Heap, p: nat)
    requires Sound(h) && Live(h, p)
    ensures var n := EndOf(h, p - 32); n in h.blocks && h.blocks[n].free ==> n < h.hi && n in h.flist
  {
    hide Aligned;
  }

  lemma FreeExact(h: Heap, p: nat)
    requires Sound(h) && Live(h, p)
    ensures TakenBack(h, Free(h, p), p - 32)
  {
    hide BlocksOk, ListOk;
    NextListed(h, p);
    var a := p - 32;
    var n := EndOf(h, a);
    if n in h.blocks && h.blocks[n].free {
      var j := IndexOf(h.flist, n);
      assert [a] + (h.flist[..j] + h.flist[j + 1..]) == [a] + h.flist[..j] + h.flist[j + 1..];
    }
  }

  // ----- What the counters count -----

  /** The call was given a block. */
  predicate GetsBlock(h: Heap, op: HeapOp)
    requires Listed(h)
  {
    Asked(op) > 0 && Alloc(h, Asked(op)).1 != 0
  }

  /** The call gives a block back: heap_free of a pointer, or heap_realloc of one that does not fail. */
  predicate GivesBlock(h: Heap, op: HeapOp)
    requires Listed(h)
  {
    Dropped(op) != 0 && (Asked(op) == 0 || GetsBlock(h, op))
  }

  ghost function Gets(h: Heap, ops: seq<HeapOp>): nat
    requires LegalRun(h, ops)
    decreases |ops|
  {
    if ops == [] then 0 else (if GetsBlock(h, ops[0]) then 1 else 0) + Gets(Step(h, ops[0]), ops[1..])
  }

  ghost function Gives(h: Heap, ops: seq<HeapOp>): nat
    requires LegalRun(h, ops)
    decreases |ops|
  {
    if ops == [] then 0 else (if GivesBlock(h, ops[0]) then 1 else 0) + Gives(Step(h, ops[0]), ops[1..])
  }

  function UsedBlocks(h: Heap): set<nat> {
    set a | a in h.blocks && !h.blocks[a].free
  }

  lemma AllocCounts(h: Heap, n: u64)
    requires Sound(h) && Listed(h)
    ensures var (h', p) := Alloc(h, n);
            && h'.frees == h.frees && h'.allocs == h.allocs + (if p == 0 then 0 else 1)
            && |UsedBlocks(h')| == |UsedBlocks(h)| + (if p == 0 then 0 else 1)
  {
    hide Alloc, Aligned, BlocksOk, ListOk, AlignUp;
    AllocLaw(h, n);
    var (h', p) := Alloc(h, n);
    if p != 0 {
      var k := AllocExact(h, n);
      assert UsedBlocks(h') == UsedBlocks(h) + {p - HEADER};
    }
  }

  lemma FreeCounts(h: Heap, p: nat)
    requires Sound(h) && Live(h, p)
    ensures var h' := Free(h, p);
            && h'.allocs == h.allocs && h'.frees == h.frees + 1 && |UsedBlocks(h')| == |UsedBlocks(h)| - 1
  {
    hide Free, Aligned, BlocksOk, ListOk;
    FreeExact(h, p);
    assert UsedBlocks(Free(h, p)) == UsedBlocks(h) - {p - HEADER};
  }

  lemma StepCounts(h: Heap, op: HeapOp)
    requires Sound(h) && Legal(h, op)
    ensures var h' := Step(h, op);
            var got, gave := if GetsBlock(h, op) then 1 else 0, if GivesBlock(h, op) then 1 else 0;
            && h'.allocs == h.allocs + got && h'.frees == h.frees + gave
            && |UsedBlocks(h')| == |UsedBlocks(h)| + got - gave
  {
    hide Alloc, Free, Aligned, BlocksOk, ListOk, Overruns, UsedBlocks, Owned, Tiled;
    AllocLaw(h, Asked(op));
    AllocCounts(h, Asked(op));
    ZeroRefused(h);
    var (h1, p) := Alloc(h, Asked(op));
    NullNotLive(h1);
    StepCases(h, op);
    if Live(h1, Dropped(op)) { FreeCounts(h1, Dropped(op)); }
  }

  /**
   Over any run the two counters count the calls that were given a block and the calls that gave one back, and
   their difference moves with the number of live allocations.
   */
  lemma {:induction false} RunCounts(h: Heap, ops: seq<HeapOp>)
    requires Sound(h) && LegalRun(h, ops)
    ensures var h' := Run(h, ops);
            && h'.allocs == h.allocs + Gets(h, ops) && h'.frees == h.frees + Gives(h, ops)
            && |UsedBlocks(h')| - |UsedBlocks(h)| == (h'.allocs - h.allocs) - (h'.frees - h.frees)
    decreases |ops|
  {
    hide Sound, Legal, Step, GetsBlock, GivesBlock, UsedBlocks, Owned, Tiled, LostSlack;
    if ops != [] {
      StepCounts(h, ops[0]);
      StepLaw(h, ops[0]);
      RunCounts(Step(h, ops[0]), ops[1..]);
    }
  }
}
