/** The heap allocator of kernel/mm/heap.c, over the bytes of identity-mapped memory. */
module HeapAllocator {
  import opened Bits
  import opened HeapModel
  import opened HeapBytes
  import opened HeapLaws
  import opened Words
  import Frames
  import Pmm

  const INITIAL_PAGES: nat := 256

  /** How heap_free ends: normally, or in one of its three panics. */
  datatype FreeOutcome = Freed | OutsideHeap | DoubleFree | CorruptHeader

  datatype Stats = Stats(totalBytes: int, usedBytes: int, freeBytes: int, totalBlocks: nat, freeBlocks: nat,
                         usedBlocks: nat, allocCount: nat, freeCount: nat)

  /** The statistics are those of the model: each figure counts the blocks it claims to count. */
  ghost predicate ExactStats(out: Stats, h: Heap) {
    && out.totalBytes == h.hi - h.lo
    && out.usedBytes == BytesFrom(h, h.lo, false) && out.freeBytes == BytesFrom(h, h.lo, true)
    && out.usedBlocks == |BlocksFrom(h, h.lo, false)| && out.freeBlocks == |BlocksFrom(h, h.lo, true)|
    && out.totalBlocks == |h.blocks|
    && out.usedBytes + out.freeBytes == out.totalBytes
    && out.usedBlocks + out.freeBlocks == out.totalBlocks
    && out.allocCount == h.allocs && out.freeCount == h.frees
  }

  /** A walk over the headers of the heap comes to a stop at each gap: the bytes there read as neither magic. */
  ghost predicate StopsAtGaps(m: seq<byte>, h: Heap) {
    && Sound(h) && InMemory(m, h)
    && h.lo in h.blocks && forall a :: a in h.blocks && !NoGapAfter(h, a) ==> !GoodMagic(m, EndOf(h, a))
  }

  /** The statistics count the used blocks before the first gap, and everything else as free. */
  ghost predicate PrefixStats(out: Stats, h: Heap) {
    && out.totalBytes == h.hi - h.lo
    && out.usedBytes == BytesFrom(h, h.lo, false) && out.freeBytes == out.totalBytes - out.usedBytes
    && out.usedBlocks == CountFrom(h, h.lo, false)
    && out.totalBlocks == |h.blocks| && out.freeBlocks == |h.flist|
    && out.allocCount == h.allocs && out.freeCount == h.frees
  }

  /** What a client owes heap_free: if the header before ptr says used, ptr is a live allocation. */
  ghost predicate Freeable(m: seq<byte>, h: Heap, ptr: nat) {
    && Sound(h) && InMemory(m, h)
    && (h.lo <= ptr < h.hi && Magic(m, ptr - HEADER) == MAGIC_USED ==> Live(h, ptr))
  }

  /** Every byte but those of free blocks and of the block at b, which is given back, is the same. */
  ghost predicate OthersKept(m: seq<byte>, m': seq<byte>, h: Heap, b: nat) {
    b in h.blocks && KeepsUsed(m, m', Release(h, b))
  }

  /** Every byte outside the heap's interval is the same. */
  ghost predicate OutsideKept(m: seq<byte>, m': seq<byte>, h: Heap) {
    |m'| == |m| && forall x :: 0 <= x < |m| && !(h.lo <= x < h.hi) ==> m'[x] == m[x]
  }

  /** ptr is live, and nothing behind its block reads as a free block without being one. */
  ghost predicate FreesCleanly(m: seq<byte>, h: Heap, ptr: nat) {
    Sound(h) && InMemory(m, h) && Live(h, ptr) && NoLookalike(m, h, ptr - HEADER)
  }

  /** p and ptr are live, their first n bytes lie in their blocks and apart. */
  ghost predicate RangesApart(m: seq<byte>, h: Heap, p: nat, ptr: nat, n: nat) {
    && Live(h, p) && Live(h, ptr) && p + n <= EndOf(h, p - HEADER) && ptr + n <= EndOf(h, ptr - HEADER)
    && p + n <= |m| && ptr + n <= |m| && (p + n <= ptr || ptr + n <= p)
  }

  ghost predicate PayloadCopied(m: seq<byte>, m': seq<byte>, p: nat, ptr: nat, n: nat) {
    p + n <= |m'| && ptr + n <= |m| && m'[p..p + n] == m[ptr..ptr + n]
  }

  /** What heap_free does: it frees live pointers and NULL, and stops on the others before any store. */
  ghost predicate FreeEffect(m: seq<byte>, m': seq<byte>, h: Heap, ptr: nat, r: FreeOutcome) {
    && (r == Freed <==> ptr == 0 || (Live(h, ptr) && ptr < h.hi))
    && (Live(h, ptr) && ptr < h.hi ==> KeepsUsed(m, m', Release(h, ptr - HEADER)) && HeadersOnly(m, m', h, h))
    && (r == OutsideHeap <==> ptr != 0 && !(h.lo <= ptr < h.hi))
    && (ptr >= HEADER && ptr - HEADER in h.blocks && h.blocks[ptr - HEADER].free && ptr < h.hi ==> r == DoubleFree)
  }

  /** What heap_realloc of a live pointer to a non-zero size does when it does not return NULL. */
  ghost predicate ReallocEffect(m: seq<byte>, m': seq<byte>, h: Heap, ptr: nat, size: u64, p: nat)
    requires Listed(h) && Live(h, ptr)
  {
    var oldSize := h.blocks[ptr - HEADER].size;
    var n := if oldSize < size then oldSize else size;
    && p == HeapModel.Alloc(h, size).1
    && KeepsUsed(m, m', Release(h, ptr - HEADER))
    && p + n <= |m'| && ptr + n <= |m| && m'[p..p + n] == m[ptr..ptr + n]
  }

  /** The call is legal on h, and h' is the heap after it. */
  ghost predicate StepsTo(h: Heap, h': Heap, op: HeapOp) {
    Legal(h, op) && h' == Step(h, op)
  }

  class Allocator {
    const mem: array<byte>
    var start: nat
    var end: nat
    var freeList: nat
    var allocCount: nat
    var freeCount: nat
    var totalBlocks: nat
    var freeBlocks: nat
    ghost var model: Heap

    /** Memory holds the model, and the cached counters agree with it. */
    ghost predicate Valid()
      reads this, mem
    {
      && Represents(mem[..], model, freeList)
      && start == model.lo && end == model.hi
      && totalBlocks == |model.blocks| && freeBlocks == |model.flist|
      && allocCount == model.allocs && freeCount == model.frees
    }

    /** Memory, list head and block counters are those of the heap h. */
    ghost predicate Holds(h: Heap)
      reads this, mem
    {
      Represents(mem[..], h, freeList) && totalBlocks == |h.blocks| && freeBlocks == |h.flist|
    }

    constructor (memory: array<byte>)
      ensures mem == memory
    {
      mem := memory;
      start, end, freeList, allocCount, freeCount, totalBlocks, freeBlocks := 0, 0, 0, 0, 0, 0, 0;
      model := Heap(0, 0, map[], [], 0, 0);
    }

    // ----- Words in memory -----

    method GetU32(a: nat) returns (w: nat)
      requires a + 4 <= mem.Length
      ensures w == U32(mem[..], a)
    {
      w := (mem[a] as int) + 0x100 * (mem[a + 1] as int) + 0x1_0000 * (mem[a + 2] as int)
          + 0x100_0000 * (mem[a + 3] as int);
    }

    method GetU64(a: nat) returns (w: nat)
      requires a + 8 <= mem.Length
      ensures w == U64(mem[..], a)
    {
      var lo := GetU32(a);
      var hi := GetU32(a + 4);
      w := lo + TWO_32 * hi;
    }

    method PutU32(a: nat, w: nat)
      requires a + 4 <= mem.Length && w < TWO_32
      modifies mem
      ensures U32(mem[..], a) == w
      ensures forall x :: 0 <= x < mem.Length && !(a <= x < a + 4) ==> mem[x] == old(mem[x])
    {
      var bytes := Bytes4(w);
      mem[a], mem[a + 1], mem[a + 2], mem[a + 3] := bytes[0], bytes[1], bytes[2], bytes[3];
      assert mem[..][a..a + 4] == bytes;
      Bytes4Law(mem[..], a, w);
    }

    method PutU64(a: nat, w: nat)
      requires a + 8 <= mem.Length && w < TWO_64
      modifies mem
      ensures U64(mem[..], a) == w
      ensures forall x :: 0 <= x < mem.Length && !(a <= x < a + 8) ==> mem[x] == old(mem[x])
    {
      PutU32(a, w % TWO_32);
      label half:
      PutU32(a + 4, w / TWO_32);
      assert forall x :: a <= x < a + 4 ==> mem[..][x] == old@half(mem[..])[x];
    }

    /** The field stores that begin or end a block's life; the padding is left alone. */
    method PutHeader(b: nat, magic: nat, size: nat, flags: nat, next: nat)
      requires b + 32 <= mem.Length && magic < TWO_32 && size < TWO_32 && flags < TWO_32 && next < TWO_64
      modifies mem
      ensures Magic(mem[..], b) == magic && Size(mem[..], b) == size
      ensures Flags(mem[..], b) == flags && NextFree(mem[..], b) == next
      ensures forall x :: 0 <= x < mem.Length && !(b <= x < b + 20) ==> mem[x] == old(mem[x])
    {
      hide U32;
      PutU32(b, magic);
      ghost var m1 := mem[..];
      PutU32(b + 4, size);
      ghost var m2 := mem[..];
      PutU32(b + 16, flags);
      ghost var m3 := mem[..];
      PutU64(b + 8, next);
      WordKept(m1, m2, b);
      WordKept(m2, m3, b);
      WordKept(m3, mem[..], b);
      WordKept(m2, m3, b + 4);
      WordKept(m3, mem[..], b + 4);
      WordKept(m3, mem[..], b + 16);
    }

    /** The whole header of a new block, padding included. */
    method PutNewHeader(b: nat, magic: nat, size: nat, flags: nat, next: nat)
      requires b + 32 <= mem.Length && magic < TWO_32 && size < TWO_32 && flags < TWO_32 && next < TWO_64
      modifies mem
      ensures Magic(mem[..], b) == magic && Size(mem[..], b) == size
      ensures Flags(mem[..], b) == flags && NextFree(mem[..], b) == next
      ensures forall x :: 0 <= x < mem.Length && !(b <= x < b + 32) ==> mem[x] == old(mem[x])
    {
      hide U32, U64, Magic, Size, Flags, NextFree;
      PutHeader(b, magic, size, flags, next);
      ghost var m1 := mem[..];
      PutU32(b + 20, 0);
      PutU64(b + 24, 0);
      SameHeader(m1, mem[..], b);
    }

    // ----- heap_alloc -----

    /** The header of the rest of b beyond its first aligned bytes, which takes over b's place in the list. */
    method WriteRest(b: nat, aligned: nat) returns (newB: nat)
      requires b + HEADER + aligned + 32 <= mem.Length && Size(mem[..], b) >= aligned + HEADER
      modifies mem
      ensures newB == b + HEADER + aligned
      ensures Describes(mem[..], newB, Block(old(Size(mem[..], b)) - aligned - HEADER, true))
      ensures NextFree(mem[..], newB) == old(NextFree(mem[..], b))
      ensures forall x :: 0 <= x < mem.Length && !(newB <= x < newB + 32) ==> mem[x] == old(mem[x])
    {
      hide U32, U64, Magic, Size, NextFree, Flags;
      FieldOffsets(mem[..], b);
      SizeIsWord(mem[..], b);
      var size := GetU32(b + 4);
      var remaining := size - aligned;
      newB := b + HEADER + aligned;
      var next := GetU64(b + 8);
      PutNewHeader(newB, MAGIC_FREE, remaining - HEADER, 1, next);
    }

    /** The stores of the branch of heap_alloc that cuts the k-th free block b, whose list predecessor is prev. */
    method SplitStores(ghost k: nat, prev: nat, b: nat, aligned: nat)
      requires Valid() && k < |model.flist| && b == model.flist[k] && Aligned(aligned)
      requires prev == if k == 0 then 0 else model.flist[k - 1]
      requires aligned + HEADER + ALIGNMENT <= model.blocks[FlistAt(model, k)].size
      modifies this`freeList, mem
      ensures SplitDone(old(mem[..]), mem[..], model, old(freeList), k, aligned)
      ensures freeList == if k == 0 then b + HEADER + aligned else old(freeList)
    {
      hide HeadersOk, LinksOk, BlocksOk, ListOk, Aligned, U32, U64, Magic, Size, NextFree, Flags;
      ghost var h, m, head := model, mem[..], freeList;
      FreeBlockFields(m, h, head, k);
      NullOrBlock(m, h, head, k + 1);
      if k > 0 {
        FreeBlockFields(m, h, head, k - 1);
        ListDistinct(h, k - 1, k);
      }
      SizeIsWord(m, b);
      var newB := WriteRest(b, aligned);
      ghost var m1 := mem[..];
      if prev != 0 { PutU64(prev + 8, newB); } else { freeList := newB; }
      ghost var m2 := mem[..];
      PutHeader(b, MAGIC_USED, aligned, 0, 0);
      ghost var m3 := mem[..];
      SameHeader(m1, m2, newB);
      SameHeader(m2, m3, newB);
      if k > 0 {
        FieldOffsets(m2, prev);
        SameHeader(m2, m3, prev);
      }
    }

    /** That branch with its counters: memory holds the heap with the block split. */
    method SplitAt(ghost k: nat, prev: nat, b: nat, aligned: nat)
      requires Valid() && k < |model.flist| && b == model.flist[k] && Aligned(aligned)
      requires prev == if k == 0 then 0 else model.flist[k - 1]
      requires aligned + HEADER + ALIGNMENT <= model.blocks[FlistAt(model, k)].size
      modifies this, mem
      ensures Valid() && model == Split(old(model), k, aligned)
      ensures KeepsUsed(old(mem[..]), mem[..], old(model)) && HeadersOnly(old(mem[..]), mem[..], old(model), model)
    {
      hide Represents, Sound, InMemory, SplitDone, KeepsUsed, HeadersOnly, Split, Aligned;
      ghost var h, m, head := model, mem[..], freeList;
      SplitStores(k, prev, b, aligned);
      totalBlocks := totalBlocks + 1;
      allocCount := allocCount + 1;
      SplitLaw(m, mem[..], h, head, k, aligned);
      model := Split(h, k, aligned);
    }

    /** The branch of heap_alloc that takes the k-th free block b whole; its size becomes aligned all the same. */
    method TakeAt(ghost k: nat, prev: nat, b: nat, aligned: nat)
      requires Valid() && k < |model.flist| && b == model.flist[k] && Aligned(aligned) && aligned < TWO_32
      requires prev == if k == 0 then 0 else model.flist[k - 1]
      requires aligned <= model.blocks[FlistAt(model, k)].size
      modifies this, mem
      ensures Valid() && model == Take(old(model), k, aligned)
      ensures KeepsUsed(old(mem[..]), mem[..], old(model)) && HeadersOnly(old(mem[..]), mem[..], old(model), model)
    {
      hide HeadersOk, LinksOk, BlocksOk, ListOk, Aligned, U32, U64, Magic, Size, NextFree, Flags, KeepsUsed;
      ghost var h, m, head := model, mem[..], freeList;
      FreeBlockFields(m, h, head, k);
      NullOrBlock(m, h, head, k + 1);
      if k > 0 {
        FreeBlockFields(m, h, head, k - 1);
        ListDistinct(h, k - 1, k);
      }
      FieldOffsets(m, b);
      var next := GetU64(b + 8);
      if prev != 0 { PutU64(prev + 8, next); } else { freeList := next; }
      freeBlocks := freeBlocks - 1;
      ghost var m1 := mem[..];
      PutHeader(b, MAGIC_USED, aligned, 0, 0);
      allocCount := allocCount + 1;
      ghost var m2 := mem[..];
      if k > 0 {
        FieldOffsets(m1, prev);
        SameHeader(m1, m2, prev);
      }
      assert TakeDone(m, m2, h, head, k, aligned);
      TakeSound(h, k, aligned);
      TakeRepresents(m, m2, h, head, k, aligned);
      ChangedKeepsUsed(m, m2, h, b, b, LinkTo(h, k, b));
      model := Take(h, k, aligned);
      ChangedHeaders(m, m2, h, model, b, b, LinkTo(h, k, b));
    }

    method Alloc(size: u64) returns (p: nat)
      requires Valid()
      modifies this, mem
      ensures Valid() && (model, p) == HeapModel.Alloc(old(model), size)
      ensures KeepsUsed(old(mem[..]), mem[..], old(model)) && HeadersOnly(old(mem[..]), mem[..], old(model), model)
      ensures p == 0 ==> unchanged(this, mem)
      ensures p == 0 <==> Refused(old(model), size)
    {
      hide HeadersOk, LinksOk, BlocksOk, ListOk, Aligned, U32, U64, Magic, Size, NextFree, Flags, FitFrom, Split, Take;
      ghost var h, m, head := model, mem[..], freeList;
      SoundListed(h);
      AlignUpLaw(size);
      AllocRefused(h, size);
      if size == 0 { return 0; }
      var aligned := (size + ALIGNMENT - 1) % TWO_64 / ALIGNMENT * ALIGNMENT;
      if aligned > 0xFFFF_FFFF { return 0; }
      var prev, b := 0, freeList;
      ghost var k := 0;
      NullOrBlock(m, h, head, 0);
      while b != 0
        invariant k <= |h.flist| && unchanged(this, mem) && mem[..] == m
        invariant b == At(h.flist, k) && prev == if k == 0 then 0 else h.flist[k - 1]
        invariant b == 0 <==> k == |h.flist|
        invariant FitFrom(h, aligned, 0) == FitFrom(h, aligned, k)
        decreases |h.flist| - k
      {
        FreeBlockFields(m, h, head, k);
        FieldOffsets(m, b);
        FitHere(h, aligned, k);
        var magic := GetU32(b);
        if magic != MAGIC_FREE {
          // The source panics here on a corrupted free list.
          assert false;
        }
        var have := GetU32(b + 4);
        if have >= aligned {
          if have - aligned >= HEADER + ALIGNMENT {
            SplitAt(k, prev, b, aligned);
          } else {
            TakeAt(k, prev, b, aligned);
          }
          return b + HEADER;
        }
        var next := GetU64(b + 8);
        NullOrBlock(m, h, head, k + 1);
        prev, b := b, next;
        k := k + 1;
      }
      FitHere(h, aligned, k);
      return 0;
    }

    // ----- heap_free -----

    /** The stores that turn the used block b into the new head of the free list. */
    method MarkFree(b: nat, next: nat)
      requires b + 32 <= mem.Length && next < TWO_64
      modifies mem
      ensures Magic(mem[..], b) == MAGIC_FREE && Size(mem[..], b) == old(Size(mem[..], b))
      ensures Flags(mem[..], b) == 1 && NextFree(mem[..], b) == next
      ensures forall x :: 0 <= x < mem.Length && !(b <= x < b + 20) ==> mem[x] == old(mem[x])
    {
      hide U32;
      ghost var m := mem[..];
      PutU32(b, MAGIC_FREE);
      ghost var m1 := mem[..];
      PutU32(b + 16, 1);
      ghost var m2 := mem[..];
      PutU64(b + 8, next);
      WordKept(m1, m2, b);
      WordKept(m2, mem[..], b);
      WordKept(m, m1, b + 4);
      WordKept(m1, m2, b + 4);
      WordKept(m2, mem[..], b + 4);
      WordKept(m2, mem[..], b + 16);
    }

    /** The first half of heap_free: the live block at b goes to the head of the free list. */
    method ReleaseAt(b: nat)
      requires Valid() && b in model.blocks && !model.blocks[b].free
      modifies this, mem
      ensures Valid() && model == Release(old(model), b)
      ensures KeepsUsed(old(mem[..]), mem[..], Release(old(model), b))
              && HeadersOnly(old(mem[..]), mem[..], old(model), old(model))
      ensures forall x :: 0 <= x < mem.Length && !(b <= x < b + 32) ==> mem[x] == old(mem[x])
    {
      hide HeadersOk, LinksOk, BlocksOk, ListOk, Aligned, U32, U64, Magic, Size, NextFree, Flags, KeepsUsed;
      ghost var h, m, head := model, mem[..], freeList;
      BlockFields(m, h, head, b);
      NullOrBlock(m, h, head, 0);
      ReleaseSound(h, b);
      MarkFree(b, freeList);
      freeList := b;
      freeBlocks := freeBlocks + 1;
      freeCount := freeCount + 1;
      ReleaseRepresents(m, mem[..], h, head, b);
      model := Release(h, b);
      ChangedKeepsUsed(m, mem[..], model, b, b, b);
      ChangedHeaders(m, mem[..], h, h, b, b, b);
    }

    /** The walk of heap_free to the list predecessor of next; 0 if next is not on the list. */
    method Predecessor(next: nat, ghost j: nat) returns (prev: nat)
      requires Valid() && next != 0 && model.flist != [] && model.flist[0] != next
      requires next in model.flist ==> j + 1 < |model.flist| && model.flist[j + 1] == next
      ensures prev == if next in model.flist then model.flist[j] else 0
    {
      hide Represents, InMemory, Sound, Aligned, U32, U64, Magic, Size, NextFree, Flags;
      ghost var r, m := model, mem[..];
      SoundInMemory(m, r, freeList);
      NullOrBlock(m, r, freeList, 0);
      // The block being freed is the head of the list, so the source's test for next at the head fails.
      prev := freeList;
      ghost var k := 0;
      FreeBlockFields(m, r, freeList, 0);
      FieldOffsets(m, prev);
      var link := GetU64(prev + 8);
      while prev != 0 && link != next
        invariant k <= |r.flist| && prev == At(r.flist, k)
        invariant k < |r.flist| ==> prev != 0 && link == At(r.flist, k + 1)
        invariant next in r.flist ==> k <= j
        decreases |r.flist| - k
      {
        if next in r.flist { WalkOn(r, k, j, link, next); }
        prev := link;
        k := k + 1;
        NullOrBlock(m, r, freeList, k);
        if prev != 0 {
          FreeBlockFields(m, r, freeList, k);
          FieldOffsets(m, prev);
          link := GetU64(prev + 8);
        }
      }
      WalkDone(r, k, j, next, prev, link);
    }

    /**
     The second half: the block next, which follows b and reads as free, is unlinked if it is on the list, and
     joined to b.
     */
    method JoinNext(ghost h: Heap, b: nat, next: nat)
      requires Sound(h) && b in h.blocks && !h.blocks[b].free
      requires Valid() && model == Release(h, b)
      requires next == EndOf(h, b) < end && (next in h.blocks ==> h.blocks[next].free)
      modifies this, mem
      ensures OthersKept(old(mem[..]), mem[..], h, b) && HeadersOnly(old(mem[..]), mem[..], h, h)
      ensures next in h.blocks ==> Valid() && model == Join(h, b)
      ensures next !in h.blocks ==> Derailed(old(mem[..]), h, b)
    {
      hide Represents, InMemory, Sound, Aligned, U32, U64, Magic, Size, NextFree, Flags, KeepsUsed, Join, Release;
      ghost var r, m := model, mem[..];
      ghost var j := IndexOf(h.flist, next);
      ReleaseKeepsSize(h, b);
      SoundInMemory(m, r, freeList);
      InListIff(h, b, next);
      LiveBounds(m, r, freeList, 0);
      var prev := Predecessor(next, j);
      if prev != 0 {
        FreeBlockFields(m, r, freeList, j + 1);
        FieldOffsets(m, next);
        var afterNext := GetU64(next + 8);
        JoinNextStores(h, b, next, j, prev, afterNext);
      } else {
        JoinStale(h, b, next);
      }
    }

    /** b has swallowed bytes that are no block: its size is wrong and the counters are one short. */
    ghost predicate Derailed(m: seq<byte>, h: Heap, b: nat)
      reads this, mem
    {
      && b in h.blocks && model == Release(h, b) && freeList == b
      && totalBlocks == |h.blocks| - 1 && freeBlocks == |h.flist|
      && b + 32 <= mem.Length == |m| && EndOf(h, b) + 32 <= |m|
      && Size(mem[..], b) == (h.blocks[b].size + HEADER + Size(m, EndOf(h, b))) % TWO_32
      && forall x :: 0 <= x < |m| && !(b + 4 <= x < b + 8) ==> mem[x] == m[x]
    }

    /** The stores of the merge when next is not on the list: the sizes are added all the same, in 32 bits. */
    method JoinStale(ghost h: Heap, b: nat, next: nat)
      requires Sound(h) && b in h.blocks && !h.blocks[b].free
      requires Valid() && model == Release(h, b)
      requires next == EndOf(h, b) < end && next !in h.blocks
      modifies this, mem
      ensures OthersKept(old(mem[..]), mem[..], h, b) && HeadersOnly(old(mem[..]), mem[..], h, h)
              && Derailed(old(mem[..]), h, b)
    {
      hide Represents, InMemory, Sound, Aligned, U32, U64, Magic, Size, NextFree, Flags, KeepsUsed, Release;
      ghost var r, m := model, mem[..];
      SoundInMemory(m, r, freeList);
      ReleaseKeepsSize(h, b);
      BlockFields(m, r, freeList, b);
      NullOrBlock(m, r, freeList, 0);
      LiveBounds(m, r, freeList, 0);
      FieldOffsets(m, b);
      FieldOffsets(m, next);
      HasBlock(h, b);
      freeBlocks := freeBlocks - 1;
      var size := GetU32(b + 4);
      var nextSize := GetU32(next + 4);
      PutSize(b, (size + HEADER + nextSize) % TWO_32);
      totalBlocks := totalBlocks - 1;
      SizeKeepsUsed(m, mem[..], r, b);
      ChangedHeaders(m, mem[..], h, h, b, b, b);
    }

    /** The stores of the merge, once the list predecessor of next is known. */
    method JoinNextStores(ghost h: Heap, b: nat, next: nat, ghost j: nat, prev: nat, afterNext: nat)
      requires Sound(h) && b in h.blocks && !h.blocks[b].free
      requires Valid() && model == Release(h, b)
      requires next == EndOf(h, b) && next in h.blocks && h.blocks[next].free
      requires j < |h.flist| && h.flist[j] == next && prev == model.flist[j] && afterNext == At(h.flist, j + 1)
      modifies this, mem
      ensures KeepsUsed(old(mem[..]), mem[..], Release(h, b)) && HeadersOnly(old(mem[..]), mem[..], h, h)
      ensures Valid() && model == Join(h, b)
    {
      hide Represents, InMemory, Sound, Aligned, U32, U64, Magic, Size, NextFree, Flags, KeepsUsed, Join, Release,
        Joined;
      ghost var r, m, head := model, mem[..], freeList;
      SoundInMemory(m, r, head);
      ReleaseKeepsSize(h, b);
      BlockFields(m, r, head, b);
      BlockFields(m, r, head, next);
      JoinFacts(m, h, head, b, j);
      InsideEnd(h, b);
      PutNext(prev, afterNext);
      ghost var m1 := mem[..];
      freeBlocks := freeBlocks - 1;
      if j > 0 { SameHeader(m, m1, b); }
      FieldOffsets(m1, b);
      FieldOffsets(m1, next);
      SameSize(m, m1, next);
      var size := GetU32(b + 4);
      var nextSize := GetU32(next + 4);
      PutSize(b, size + HEADER + nextSize);
      if j > 0 { SameHeader(m1, mem[..], prev); }
      totalBlocks := totalBlocks - 1;
      JoinDone(m, mem[..], h, head, b, j);
      JoinCounts(h, b);
      model := Join(h, b);
    }

    /** next_free of the header at b; its other fields stay. */
    method PutNext(b: nat, next: nat)
      requires b + 32 <= mem.Length && next < TWO_64
      modifies mem
      ensures NextFree(mem[..], b) == next
      ensures Magic(mem[..], b) == old(Magic(mem[..], b)) && Size(mem[..], b) == old(Size(mem[..], b))
      ensures Flags(mem[..], b) == old(Flags(mem[..], b))
      ensures forall x :: 0 <= x < mem.Length && !(b + 8 <= x < b + 16) ==> mem[x] == old(mem[x])
    {
      hide U32;
      ghost var m := mem[..];
      PutU64(b + 8, next);
      WordKept(m, mem[..], b);
      WordKept(m, mem[..], b + 4);
      WordKept(m, mem[..], b + 16);
    }

    /** size of the header at b; its other fields stay. */
    method PutSize(b: nat, size: nat)
      requires b + 32 <= mem.Length && size < TWO_32
      modifies mem
      ensures Size(mem[..], b) == size
      ensures Magic(mem[..], b) == old(Magic(mem[..], b)) && NextFree(mem[..], b) == old(NextFree(mem[..], b))
      ensures Flags(mem[..], b) == old(Flags(mem[..], b))
      ensures forall x :: 0 <= x < mem.Length && !(b + 4 <= x < b + 8) ==> mem[x] == old(mem[x])
    {
      hide U32;
      ghost var m := mem[..];
      PutU32(b + 4, size);
      WordKept(m, mem[..], b);
      WordKept(m, mem[..], b + 8);
      WordKept(m, mem[..], b + 12);
      WordKept(m, mem[..], b + 16);
    }

    /** The merging half of heap_free: b has just been put on the free list of h. */
    method JoinIfFree(ghost h: Heap, ghost m: seq<byte>, b: nat)
      requires Sound(h) && InMemory(m, h) && b in h.blocks && !h.blocks[b].free
      requires Valid() && model == Release(h, b) && |m| == mem.Length
      requires forall x :: 0 <= x < mem.Length && !(b <= x < b + 32) ==> mem[x] == m[x]
      modifies this, mem
      ensures OthersKept(old(mem[..]), mem[..], h, b) && HeadersOnly(old(mem[..]), mem[..], h, h)
      ensures FreesCleanly(m, h, b + HEADER) ==> Valid() && model == FreeIfLive(h, b + HEADER)
      ensures !FreesCleanly(m, h, b + HEADER) ==> Derailed(old(mem[..]), h, b)
    {
      hide Represents, InMemory, Sound, Aligned, U32, U64, Magic, Size, NextFree, Flags, KeepsUsed, Join, Release,
        Derailed, FreeIfLive, FreesCleanly, OthersKept;
      ghost var m1 := mem[..];
      LiveBounds(m1, model, freeList, 0);
      ReleaseKeepsSize(h, b);
      FreeCases(m, h, b);
      NothingKept(m1, h, b);
      BlockFields(m1, model, freeList, b);
      FieldOffsets(m1, b);
      var size := GetU32(b + 4);
      var next := b + HEADER + size;
      if next < end {
        var nextMagic := GetU32(next);
        NextMagic(m, m1, h, freeList, b, next);
        if nextMagic == MAGIC_FREE { JoinNext(h, b, next); }
      }
    }

    /**
     heap_free once its checks have passed; it follows the model exactly when nothing after b is mistaken for a
     free block.
     */
    method FreeBlock(b: nat)
      requires Valid() && b in model.blocks && !model.blocks[b].free
      modifies this, mem
      ensures OthersKept(old(mem[..]), mem[..], old(model), b)
              && HeadersOnly(old(mem[..]), mem[..], old(model), old(model))
      ensures FreesCleanly(old(mem[..]), old(model), b + HEADER) ==>
              Valid() && model == FreeIfLive(old(model), b + HEADER)
      ensures Holds(FreeIfLive(old(model), b + HEADER)) <==> FreesCleanly(old(mem[..]), old(model), b + HEADER)
    {
      hide Represents, KeepsUsed, Release, FreeIfLive, FreesCleanly, Sound, InMemory;
      ghost var h, m := model, mem[..];
      SoundInMemory(m, h, freeList);
      ReleaseAt(b);
      ghost var m1 := mem[..];
      JoinIfFree(h, m, b);
      KeepsTwice(m, m1, mem[..], Release(h, b));
      HeadersTwice(m, m1, mem[..], h);
      if !FreesCleanly(m, h, b + HEADER) { LookalikeCounts(m, h, b); }
    }

    /**
     heap_free. A client may pass NULL, a pointer outside the heap, or one whose header is not marked
     used; a pointer to a used header must be a live allocation. A live pointer is freed as in the model
     exactly when no bytes of no block behind it read as the free magic.
     */
    method Free(ptr: nat) returns (r: FreeOutcome)
      requires Valid()
      requires Freeable(mem[..], model, ptr)
      modifies this, mem
      ensures FreeEffect(old(mem[..]), mem[..], old(model), ptr, r)
      ensures r != Freed || ptr == 0 ==> unchanged(this, mem)
      ensures r == Freed && ptr != 0 ==>
                && (FreesCleanly(old(mem[..]), old(model), ptr) ==> Valid() && model == FreeIfLive(old(model), ptr))
                && (Holds(FreeIfLive(old(model), ptr)) <==> FreesCleanly(old(mem[..]), old(model), ptr))
    {
      hide HeadersOk, LinksOk, BlocksOk, ListOk, Aligned, U32, U64, Size, NextFree, Flags, KeepsUsed, Join, Release,
        FreeIfLive, FreesCleanly, Holds;
      ghost var h, m := model, mem[..];
      LiveBounds(m, h, freeList, ptr);
      if ptr == 0 { return Freed; }
      if !(start <= ptr < end) { return OutsideHeap; }
      var b := ptr - HEADER;
      FieldOffsets(m, b);
      var magic := GetU32(b);
      if magic == MAGIC_FREE { return DoubleFree; }
      if magic != MAGIC_USED { return CorruptHeader; }
      FreeBlock(b);
      r := Freed;
    }

    // ----- heap_realloc and heap_calloc -----

    /** memcpy within memory, for ranges that do not overlap. */
    method CopyBytes(dst: nat, src: nat, n: nat)
      requires dst + n <= mem.Length && src + n <= mem.Length && (dst + n <= src || src + n <= dst)
      modifies mem
      ensures mem[dst..dst + n] == old(mem[src..src + n])
      ensures forall x :: 0 <= x < mem.Length && !(dst <= x < dst + n) ==> mem[x] == old(mem[x])
    {
      var i := 0;
      while i < n
        invariant 0 <= i <= n
        invariant mem[dst..dst + i] == old(mem[src..src + i])
        invariant forall x :: 0 <= x < mem.Length && !(dst <= x < dst + i) ==> mem[x] == old(mem[x])
      {
        mem[dst + i] := mem[src + i];
        i := i + 1;
      }
    }

    method FillZero(dst: nat, n: nat)
      requires dst + n <= mem.Length
      modifies mem
      ensures forall i :: dst <= i < dst + n ==> mem[i] == 0
      ensures forall x :: 0 <= x < mem.Length && !(dst <= x < dst + n) ==> mem[x] == old(mem[x])
    {
      var i := 0;
      while i < n
        invariant 0 <= i <= n
        invariant forall j :: dst <= j < dst + i ==> mem[j] == 0
        invariant forall x :: 0 <= x < mem.Length && !(dst <= x < dst + i) ==> mem[x] == old(mem[x])
      {
        mem[dst + i] := 0;
        i := i + 1;
      }
    }

    /** Copying n bytes of the block of ptr into the block of p disturbs nothing but p's payload. */
    method CopyPayload(p: nat, ptr: nat, n: nat)
      requires Valid() && RangesApart(mem[..], model, p, ptr, n)
      modifies mem
      ensures Valid()
      ensures PayloadCopied(old(mem[..]), mem[..], p, ptr, n)
      ensures forall x :: 0 <= x < mem.Length && !(p <= x < p + n) ==> mem[x] == old(mem[x])
    {
      hide Represents;
      ghost var m := mem[..];
      CopyBytes(p, ptr, n);
      CopyInPayload(m, mem[..], model, freeList, p, ptr, n);
    }

    /** The second half of heap_realloc: p is newly allocated; copy into it and free ptr. */
    method CopyAndFree(ghost h: Heap, ghost m: seq<byte>, ptr: nat, newSize: u64, p: nat, copySize: nat)
      requires MoveStart(m, mem[..], h, model, ptr, newSize, p, copySize) && InMemory(m, h)
      requires Valid()
      modifies this, mem
      ensures Listed(h) && Live(h, ptr) && ReallocEffect(m, mem[..], h, ptr, newSize, p)
      ensures FreesCleanly(m, h, ptr) ==> Valid() && model == FreeIfLive(HeapModel.Alloc(h, newSize).0, ptr)
      ensures Holds(FreeIfLive(HeapModel.Alloc(h, newSize).0, ptr)) <==> FreesCleanly(m, h, ptr)
    {
      hide Represents, InMemory, Sound, Aligned, AlignUp, KeepsUsed, Release, FreeIfLive, HeapModel.Alloc,
        FreesCleanly, Holds, Owned, Allocated, NoGapAfter;
      ghost var h1, m1 := model, mem[..];
      MoveParts(m, m1, h, h1, ptr, newSize, p, copySize);
      ApartPayloads(m1, h1, freeList, p, ptr, copySize);
      CopyPayload(p, ptr, copySize);
      ghost var m2 := mem[..];
      SoundInMemory(m2, h1, freeList);
      SameTail(m, m1, m2, h, h1, ptr, newSize, p);
      FreeBlock(ptr - HEADER);
      MoveKeeps(m, m1, m2, mem[..], h, h1, ptr, newSize, p);
      MoveContents(m, m1, m2, mem[..], h, h1, ptr, newSize, p, copySize);
    }

    /** heap_realloc of a live pointer to a non-zero size. */
    method Move(ptr: nat, newSize: u64) returns (p: nat)
      requires Valid() && Live(model, ptr) && 0 < newSize
      requires Legal(model, ReallocOp(ptr, newSize))
      modifies this, mem
      ensures p == 0 ==> unchanged(this, mem) && HeapModel.Alloc(old(model), newSize).1 == 0
      ensures p != 0 ==> ReallocEffect(old(mem[..]), mem[..], old(model), ptr, newSize, p)
      ensures p != 0 ==> Followed(old(mem[..]), old(model), ReallocOp(ptr, newSize))
    {
      hide Represents, InMemory, Sound, Aligned, AlignUp, U32, U64, Magic, Size, NextFree, Flags, KeepsUsed, Release,
        HeapModel.Alloc, FreeIfLive, Holds, FreesCleanly;
      ghost var h, m := model, mem[..];
      SoundInMemory(m, h, freeList);
      var b := ptr - HEADER;
      BlockFields(m, h, freeList, b);
      FieldOffsets(m, b);
      SoundListed(h);
      StepCases(h, ReallocOp(ptr, newSize));
      var oldSize := GetU32(b + 4);
      var copySize := if oldSize < newSize then oldSize else newSize;
      p := Alloc(newSize);
      if p == 0 { return; }
      MoveModel(h, ptr, newSize);
      CopyAndFree(h, m, ptr, newSize, p, copySize);
    }

    /**
     The call leaves the heap its step in a run leaves, exactly when nothing behind the freed block is mistaken
     for a free one.
     */
    ghost predicate Followed(m: seq<byte>, h: Heap, op: HeapOp)
      requires op.ReallocOp?
      reads this, mem
    {
      && Legal(h, op)
      && (FreesCleanly(m, h, op.p) ==> Valid() && model == Step(h, op))
      && (Holds(Step(h, op)) <==> FreesCleanly(m, h, op.p))
    }

    /** heap_realloc, of NULL or a live pointer, where the copy does not overrun the new block. */
    method Realloc(ptr: nat, newSize: u64) returns (p: nat)
      requires Valid() && Legal(model, ReallocOp(ptr, newSize))
      modifies this, mem
      ensures ptr == 0 ==>
                && Valid() && (model, p) == HeapModel.Alloc(old(model), newSize)
                && KeepsUsed(old(mem[..]), mem[..], old(model))
      ensures ptr != 0 && newSize == 0 ==> p == 0 && OthersKept(old(mem[..]), mem[..], old(model), ptr - HEADER)
      ensures ptr != 0 && newSize > 0 && p == 0 ==> unchanged(this, mem) && HeapModel.Alloc(old(model), newSize).1 == 0
      ensures ptr != 0 && newSize > 0 && p != 0 ==> ReallocEffect(old(mem[..]), mem[..], old(model), ptr, newSize, p)
      ensures ptr == 0 || (newSize > 0 && p == 0) ==> StepsTo(old(model), model, ReallocOp(ptr, newSize))
      ensures ptr != 0 && (newSize == 0 || p != 0) ==> Followed(old(mem[..]), old(model), ReallocOp(ptr, newSize))
    {
      hide Represents, Sound, Aligned, AlignUp, U32, U64, Magic, Size, KeepsUsed, Release, HeapModel.Alloc,
        HeapModel.Free, ReallocEffect, Holds, FreesCleanly, Step;
      SoundInMemory(mem[..], model, freeList);
      SoundListed(model);
      StepCases(model, ReallocOp(ptr, newSize));
      if ptr == 0 {
        p := Alloc(newSize);
        return;
      }
      if newSize == 0 {
        FreeBlock(ptr - HEADER);
        return 0;
      }
      p := Move(ptr, newSize);
    }

    /** heap_calloc; the multiplication is checked, and the zeroed bytes are those of the product. */
    method Calloc(n: u64, size: u64) returns (p: nat)
      requires Valid() && Legal(model, CallocOp(n, size))
      modifies this, mem
      ensures n * size >= TWO_64 || n * size == 0 ==> p == 0 && unchanged(this, mem)
      ensures 0 < n * size < TWO_64 ==> (model, p) == HeapModel.Alloc(old(model), n * size)
      ensures p != 0 ==> p + n * size <= mem.Length && forall x :: p <= x < p + n * size ==> mem[x] == 0
      ensures KeepsUsed(old(mem[..]), mem[..], old(model))
      ensures StepsTo(old(model), model, CallocOp(n, size))
      ensures Valid()
    {
      hide Represents, InMemory, Sound, Aligned, AlignUp, U32, U64, Magic, Size, KeepsUsed, HeapModel.Alloc, StepsTo;
      NothingChanged(mem[..], model);
      CallocSteps(mem[..], model, freeList, n, size);
      if n == 0 || size == 0 { return 0; }
      ProductFits(n, size);
      if n > (TWO_64 - 1) / size { return 0; }
      var total := n * size;
      ghost var h, m := model, mem[..];
      SoundInMemory(m, h, freeList);
      p := Alloc(total);
      if p != 0 {
        ghost var h1, m1 := model, mem[..];
        if total > TWO_64 - 16 { WrappedTakesFirst(h, total); }
        AllocFacts(h, total);
        SoundInMemory(m1, h1, freeList);
        BlockFields(m1, h1, freeList, p - HEADER);
        FillZero(p, total);
        PayloadWrite(m1, mem[..], h1, freeList, p - HEADER);
        PayloadKeeps(m1, mem[..], h, p - HEADER, h1);
        KeepsTwice(m, m1, mem[..], h);
      }
    }

    // ----- Runs of calls -----

    /**
     Any call of a run: memory goes where the model goes exactly when what the call gives back, if anything, is
     freed cleanly.
     */
    method PerformOne(op: HeapOp)
      requires Valid() && Legal(model, op)
      modifies this, mem
      ensures Clean(old(mem[..]), old(model), op) ==> Valid() && model == Step(old(model), op)
      ensures Holds(Step(old(model), op)) <==> Clean(old(mem[..]), old(model), op)
      ensures OutsideKept(old(mem[..]), mem[..], old(model))
    {
      hide Represents, BlocksOk, ListOk, FreesCleanly, Holds, Step, KeepsUsed, Magic, HeapModel.Alloc, OutsideKept,
        HeadersOnly, Owned, Overruns;
      ghost var h, m := model, mem[..];
      SoundInMemory(m, h, freeList);
      StepCases(h, op);
      match op {
        case AllocOp(n) => var p := Alloc(n);
        case FreeOp(p) =>
          LegalFree(m, h, freeList, p);
          var r := Free(p);
        case ReallocOp(p, n) =>
          if p != 0 { LegalFree(m, h, freeList, p); }
          var q := Realloc(p, n);
        case CallocOp(count, n) =>
          var p := Calloc(count, n);
      }
      ValidHolds();
      OutsideOf(m, mem[..], h, Dropped(op));
    }

    lemma ValidHolds()
      ensures Valid() ==> Holds(model)
    {
    }

    /**
     A client's run of calls. From a tiled heap, and as long as no allocation loses slack, memory holds the
     heap of the model's run at its end: no free on the way mistakes anything for a free block.
     */
    method Perform(ops: seq<HeapOp>)
      requires Valid() && Tiled(model) && LegalRun(model, ops) && NoLostSlack(model, ops)
      modifies this, mem
      ensures Valid() && Tiled(model) && model == Run(old(model), ops)
      ensures OutsideKept(old(mem[..]), mem[..], old(model))
    {
      hide Represents, Tiled, Step, Legal, LostSlack, Clean, Holds, Owned, BlocksOk, ListOk;
      var i := 0;
      assert ops[0..] == ops;
      while i < |ops|
        invariant 0 <= i <= |ops| && Valid() && Tiled(model)
        invariant LegalRun(model, ops[i..]) && NoLostSlack(model, ops[i..])
        invariant Run(model, ops[i..]) == Run(old(model), ops)
        invariant model.lo == old(model).lo && model.hi == old(model).hi
                  && OutsideKept(old(mem[..]), mem[..], old(model))
      {
        assert ops[i..][0] == ops[i] && ops[i..][1..] == ops[i + 1..];
        TiledClean(mem[..], model, freeList, ops[i]);
        StepLaw(model, ops[i]);
        PerformOne(ops[i]);
        i := i + 1;
      }
    }

    // ----- heap_check and heap_get_stats -----

    /** heap_check, on any bytes: 1 exactly when some path of valid headers leads from start to end. */
    method Check() returns (ok: bool)
      requires end + 32 <= mem.Length
      ensures ok <==> HasPath(mem[..], start, end)
      ensures Valid() && Tiled(model) ==> ok
    {
      hide Magic, Size, U32, GoodMagic, NextOf, HasPath, Represents, Tiled;
      ghost var m := mem[..];
      if Valid() && Tiled(model) { TiledHasPath(m, model, freeList); }
      var b := start;
      while b < end
        invariant HasPath(m, b, end) <==> HasPath(m, start, end)
        decreases end - b
      {
        FieldOffsets(m, b);
        StepBack(m, b, end);
        var magic := GetU32(b);
        if magic != MAGIC_FREE && magic != MAGIC_USED { return false; }
        var size := GetU32(b + 4);
        var next := b + HEADER + size;
        if next > end { return false; }
        // The source also compares next with b here; a header is 32 bytes, so they always differ.
        b := next;
      }
      EndOfPath(m, b, end);
      ok := b == end;
    }

    /**
     heap_get_stats, on any bytes: what a walk over the headers meets before the first bad magic. With lost slack
     that covers the blocks before it, and on a tiled heap every figure is exact and they add up.
     */
    method GetStats() returns (out: Stats)
      requires start <= end && end + 32 <= mem.Length
      ensures (out.usedBytes, out.usedBlocks) == UsedFrom(mem[..], start, end)
      ensures out.totalBytes == end - start && out.freeBytes == (out.totalBytes - out.usedBytes) % TWO_64
      ensures out.totalBlocks == totalBlocks && out.freeBlocks == freeBlocks
      ensures out.allocCount == allocCount && out.freeCount == freeCount
      ensures Valid() && StopsAtGaps(mem[..], model) ==> PrefixStats(out, model)
      ensures Valid() && Tiled(model) ==> ExactStats(out, model)
    {
      hide Magic, Size, U32, Represents, Tiled, BytesFrom, BlocksFrom, CountFrom, StopsAtGaps, GoodMagic;
      ghost var m, h := mem[..], model;
      var usedBytes, usedBlocks := 0, 0;
      var b := start;
      while b < end
        invariant UsedFrom(m, start, end) == (usedBytes + UsedFrom(m, b, end).0, usedBlocks + UsedFrom(m, b, end).1)
        decreases end - b
      {
        FieldOffsets(m, b);
        StepBack(m, b, end);
        UsedStep(m, b, end);
        var magic := GetU32(b);
        var size := GetU32(b + 4);
        if magic == MAGIC_USED {
          usedBytes := usedBytes + HEADER + size;
          usedBlocks := usedBlocks + 1;
        } else if magic != MAGIC_FREE {
          break;
        }
        b := b + HEADER + size;
      }
      out := Stats(end - start, usedBytes, (end - start - usedBytes) % TWO_64, totalBlocks, freeBlocks, usedBlocks,
        allocCount, freeCount);
      if Valid() {
        if Tiled(h) { TiledStops(m, h, freeList); }
        if StopsAtGaps(m, h) { UsedIsPrefix(m, h, freeList); }
        if Tiled(h) { TiledStats(m, h, freeList, out); }
      }
    }

    // ----- heap_init -----

    /** heap_init: false where the source panics, that is when the frame allocator has no run of 256 pages. */
    method Init(pmm: Pmm.FrameAllocator) returns (ok: bool)
      requires pmm.Valid() && pmm.coverHi + 32 <= mem.Length <= TWO_64 && mem as object != pmm.bitmap
      modifies this, mem, pmm`freePages, pmm.bitmap
      ensures pmm.Valid()
      ensures var (pool, base) := Frames.AllocPages(old(pmm.ThePool()), 256);
              && pmm.ThePool() == pool
              && (ok <==> base != 0)
              && (ok ==>
                    && base + 0x10_0000 <= pmm.coverHi
                    && model == Fresh(base, base + 0x10_0000))
      ensures ok ==> Valid() && Tiled(model)
    {
      hide U32, U64, Magic, Size, NextFree, Flags, Frames.AllocPages;
      FrameRun(pmm.ThePool(), INITIAL_PAGES);
      var base := pmm.AllocPages(INITIAL_PAGES);
      if base == 0 { return false; }
      start, end := base, base + INITIAL_PAGES * 4096;
      FreshLaw(start, end);
      PutNewHeader(start, MAGIC_FREE, end - start - HEADER, 1, 0);
      freeList, totalBlocks, freeBlocks := start, 1, 1;
      allocCount, freeCount := 0, 0;
      model := Fresh(start, end);
      ok := true;
    }
  }

  lemma CallocSteps(m: seq<byte>, h: Heap, head: nat, count: u64, n: u64)
    requires Represents(m, h, head) && Legal(h, CallocOp(count, n))
    ensures CallocStep(h, count, n, count * n)
  {
    hide Represents, BlocksOk, ListOk, HeapModel.Alloc, Step;
    SoundInMemory(m, h, head);
    SoundListed(h);
    StepCases(h, CallocOp(count, n));
    NothingAsked(h);
  }

  /** An allocation changes no byte that heap_free of the new block reads behind it, so what was there decides. */
  lemma BehindKept(m: seq<byte>, m1: seq<byte>, h: Heap, n: u64)
    requires Sound(h) && Listed(h) && InMemory(m, h) && HeapModel.Alloc(h, n).1 != 0
    requires |m1| == |m| && HeadersOnly(m, m1, h, HeapModel.Alloc(h, n).0)
    ensures var (h1, p) := HeapModel.Alloc(h, n); FreesCleanly(m1, h1, p) <==> FreesCleanly(m, h1, p)
  {
    hide BlocksOk, ListOk, Owned, LostSlack, HeapModel.Alloc, HeadersOnly, Aligned, AlignUp;
    var (h1, p) := HeapModel.Alloc(h, n);
    AllocLaw(h, n);
    var a := p - HEADER;
    if !NoGapAfter(h1, a) {
      GapBytes(h1, a);
      var e := EndOf(h1, a);
      forall x | e <= x < e + 4 ensures m1[x] == m[x] {
        NoHeaderBehind(h, n, x);
        HeaderByte(m, m1, h, h1, x);
      }
    }
  }

  lemma HeaderByte(m: seq<byte>, m1: seq<byte>, h: Heap, h1: Heap, x: nat)
    requires HeadersOnly(m, m1, h, h1) && !InHeader(h, x) && !InHeader(h1, x) && x < |m|
    ensures |m1| == |m| && m1[x] == m[x]
  {
  }

  /** A byte of no block after an allocation lay in no header before it. */
  lemma NoHeaderBehind(h: Heap, n: u64, x: nat)
    requires Sound(h) && Listed(h) && !Owned(HeapModel.Alloc(h, n).0, x)
    ensures !InHeader(h, x) && !InHeader(HeapModel.Alloc(h, n).0, x)
  {
    hide BlocksOk, ListOk, Owned, HeapModel.Alloc, Aligned, AlignUp, LostSlack, InHeader;
    AllocLaw(h, n);
    AllocTiling(h, n);
    HeaderOwned(h, x);
    HeaderOwned(HeapModel.Alloc(h, n).0, x);
    if Owned(h, x) {
      SlackInPayload(h, n);
      PayloadWord(h, h.flist[Fit(h, n)], x);
    }
  }

  lemma SlackInPayload(h: Heap, n: u64)
    requires Listed(h) && Fit(h, n) < |h.flist|
    ensures LostSlack(h, n) <= h.blocks[h.flist[Fit(h, n)]].size
  {
  }

  lemma HeaderOwned(h: Heap, x: nat)
    ensures InHeader(h, x) ==> Owned(h, x)
  {
    if InHeader(h, x) {
      var a :| a in h.blocks && a <= x < a + HEADER;
      assert a <= x < EndOf(h, a);
    }
  }

  /** What follows the block the call gives back, if it gives one back, would not be mistaken for a free block. */
  ghost predicate Clean(m: seq<byte>, h: Heap, op: HeapOp)
    requires Legal(h, op)
  {
    Dropped(op) == 0 || (Asked(op) > 0 && HeapModel.Alloc(h, Asked(op)).1 == 0) || FreesCleanly(m, h, Dropped(op))
  }

  /** On a tiled heap every call is clean. */
  lemma TiledClean(m: seq<byte>, h: Heap, head: nat, op: HeapOp)
    requires Represents(m, h, head) && Tiled(h) && Legal(h, op)
    ensures Sound(h) && Clean(m, h, op)
  {
    hide Represents, BlocksOk, ListOk, HeapModel.Alloc, Overruns, Tiled, FreesCleanly;
    SoundInMemory(m, h, head);
    if Dropped(op) != 0 { LegalFree(m, h, head, Dropped(op)); }
  }

  /** Calls that keep every used block, or every one but the one given back, stay inside the heap. */
  lemma OutsideOf(m: seq<byte>, m': seq<byte>, h: Heap, p: nat)
    ensures m' == m ==> OutsideKept(m, m', h)
    ensures KeepsUsed(m, m', h) ==> OutsideKept(m, m', h)
    ensures Live(h, p) && KeepsUsed(m, m', Release(h, p - HEADER)) ==> OutsideKept(m, m', h)
  {
    hide Owned;
  }

  /** A pointer a client may give back: heap_free accepts it, and on a tiled heap frees it cleanly. */
  lemma LegalFree(m: seq<byte>, h: Heap, head: nat, p: nat)
    requires Represents(m, h, head) && NullOrLive(h, p)
    ensures Freeable(m, h, p)
    ensures p != 0 ==> FreeIfLive(h, p) == Free(h, p)
    ensures p != 0 && Tiled(h) ==> FreesCleanly(m, h, p)
  {
    hide Represents, BlocksOk, ListOk, HeapModel.Free;
    SoundInMemory(m, h, head);
    LiveBounds(m, h, head, p);
    if p != 0 { FreeCases(m, h, p - HEADER); }
  }

  /** What calloc of a product leaves, as a step of a run. */
  ghost predicate CallocStep(h: Heap, count: u64, n: u64, product: nat) {
    && Listed(h)
    && (product < TWO_64 ==> StepsTo(h, HeapModel.Alloc(h, product).0, CallocOp(count, n)))
    && (product == 0 || product >= TWO_64 ==> StepsTo(h, h, CallocOp(count, n)))
  }

  /**
   A call that overruns when the first free block has 48 bytes or more starts writing exactly where the header of
   the block's rest lies, so memory can hold the heap afterwards only if the bytes written read as the free magic
   there; zeros do not.
   */
  lemma OverrunWrecks(h: Heap, op: HeapOp, m: seq<byte>, head: nat)
    requires Sound(h) && Listed(h) && Overruns(h, op) && h.blocks[h.flist[0]].size >= HEADER + ALIGNMENT
    ensures var (h1, p) := HeapModel.Alloc(h, Asked(op));
            && p in h1.blocks && h1.blocks[p].free && h1.blocks[p - HEADER] == Block(0, false)
            && (Represents(m, h1, head) ==> p + 4 <= |m| && U32(m, p) == MAGIC_FREE)
  {
    hide BlocksOk, ListOk, U32, Represents, Size, Flags, AlignUp;
    AlignUpLaw(Asked(op));
    WrappedTakesFirst(h, Asked(op));
    var (h1, p) := HeapModel.Alloc(h, Asked(op));
    if Represents(m, h1, head) { BlockFields(m, h1, head, p); }
  }

  /** Both ways into it, on a heap of 1 MiB: calloc(1, SIZE_MAX), and realloc(p, SIZE_MAX) of 64 bytes. */
  lemma OverrunExamples(lo: nat)
    requires Aligned(lo) && 0x1000 <= lo < TWO_32 && Listed(Fresh(lo, lo + 0x10_0000))
    ensures var f := Fresh(lo, lo + 0x10_0000);
            && Overruns(f, CallocOp(1, TWO_64 - 1)) && f.blocks[f.flist[0]].size >= HEADER + ALIGNMENT
            && var (h, p) := HeapModel.Alloc(f, 64);
               && Listed(h) && Live(h, p) && Overruns(h, ReallocOp(p, TWO_64 - 1))
               && h.blocks[h.flist[0]].size >= HEADER + ALIGNMENT
  {
    var f := Fresh(lo, lo + 0x10_0000);
    assert AlignUp(64) == 64 && Fit(f, 64) == 0;
  }

  lemma NothingAsked(h: Heap)
    requires Listed(h)
    ensures HeapModel.Alloc(h, 0) == (h, 0)
  {
  }

  lemma SizeIsWord(m: seq<byte>, b: nat)
    requires b + 32 <= |m|
    ensures Size(m, b) < TWO_32 && NextFree(m, b) < TWO_64
  {
  }

  /** Where the header fields lie. */
  lemma FieldOffsets(m: seq<byte>, b: nat)
    requires b + 32 <= |m|
    ensures Magic(m, b) == U32(m, b) && Size(m, b) == U32(m, b + 4) && NextFree(m, b) == U64(m, b + 8)
  {
  }

  lemma FitHere(h: Heap, size: nat, k: nat)
    requires Listed(h) && k <= |h.flist|
    ensures k == |h.flist| ==> FitFrom(h, size, k) == k
    ensures k < |h.flist| ==>
              FitFrom(h, size, k) == if h.blocks[h.flist[k]].size >= size then k else FitFrom(h, size, k + 1)
  {
  }

  /** The split as a whole: the heap it leaves, what it keeps, and what the counters become. */
  lemma SplitLaw(m: seq<byte>, m': seq<byte>, h: Heap, head: nat, k: nat, size: nat)
    requires SplitDone(m, m', h, head, k, size)
    ensures var h' := Split(h, k, size);
            && Represents(m', h', if k == 0 then FlistAt(h, k) + HEADER + size else head)
            && KeepsUsed(m, m', h) && HeadersOnly(m, m', h, h')
            && |h'.blocks| == |h.blocks| + 1 && |h'.flist| == |h.flist|
            && h'.lo == h.lo && h'.hi == h.hi && h'.allocs == h.allocs + 1 && h'.frees == h.frees
  {
    hide HeadersOk, LinksOk, BlocksOk, ListOk, Aligned, Describes, NextFree, KeepsUsed, Split;
    var b := FlistAt(h, k);
    var rest := b + HEADER + size;
    SplitSound(h, k, size);
    SplitRepresents(m, m', h, head, k, size);
    ChangedKeepsUsed(m, m', h, b, rest, LinkTo(h, k, b));
    SplitFields(h, k, size);
    ChangedHeaders(m, m', h, Split(h, k, size), b, rest, LinkTo(h, k, b));
  }

  lemma SplitFields(h: Heap, k: nat, size: nat)
    requires Sound(h) && k < |h.flist| && size + HEADER <= h.blocks[FlistAt(h, k)].size
    ensures var h' := Split(h, k, size);
            && h'.lo == h.lo && h'.hi == h.hi && |h'.flist| == |h.flist| && h'.allocs == h.allocs + 1
               && h'.frees == h.frees
            && h.flist[k] + HEADER + size in h'.blocks
  {
  }

  lemma SameSize(m: seq<byte>, m': seq<byte>, b: nat)
    requires b + 32 <= |m| && Agree(m, m', b + 4, b + 8)
    ensures Size(m', b) == Size(m, b)
  {
  }

  /** Two neighbouring blocks fit in the heap together. */
  lemma InsideEnd(h: Heap, a: nat)
    requires Sound(h) && a in h.blocks && EndOf(h, a) in h.blocks
    ensures EndOf(h, EndOf(h, a)) <= h.hi
    ensures h.blocks[a].size + HEADER + h.blocks[EndOf(h, a)].size < TWO_32
  {
  }

  lemma JoinCounts(h: Heap, a: nat)
    requires Sound(h) && a in h.blocks && !h.blocks[a].free
    requires EndOf(h, a) in h.blocks && h.blocks[EndOf(h, a)].free
    ensures var h' := Join(h, a);
            && h'.lo == h.lo && h'.hi == h.hi && h'.allocs == h.allocs && h'.frees == h.frees + 1
            && |h'.blocks| == |h.blocks| - 1 && |h'.flist| == |h.flist|
  {
    hide BlocksOk, Without;
    JoinListOk(h, a);
    assert Join(h, a).blocks.Keys == h.blocks.Keys - {EndOf(h, a)};
  }

  /** Live pointers, and pointers to free blocks, lie in the heap; the header before them says which they are. */
  lemma LiveBounds(m: seq<byte>, h: Heap, head: nat, p: nat)
    requires Represents(m, h, head)
    ensures HEADER <= h.lo && h.hi + 32 <= |m|
    ensures p >= HEADER && p - HEADER in h.blocks ==>
              && h.lo < p <= h.hi
              && Magic(m, p - HEADER) == if h.blocks[p - HEADER].free then MAGIC_FREE else MAGIC_USED
    ensures !Live(h, 0)
  {
    hide Magic;
    if p >= HEADER && p - HEADER in h.blocks { BlockFields(m, h, head, p - HEADER); }
  }

  lemma SoundInMemory(m: seq<byte>, h: Heap, head: nat)
    requires Represents(m, h, head)
    ensures Sound(h) && InMemory(m, h)
  {
  }

  lemma ReleaseKeepsSize(h: Heap, a: nat)
    requires a in h.blocks
    ensures var r := Release(h, a);
            && a in r.blocks && r.blocks[a].size == h.blocks[a].size && r.lo == h.lo && r.hi == h.hi
            && r.flist == [a] + h.flist && r.allocs == h.allocs && r.frees == h.frees + 1
            && r.blocks[a].free && r.blocks.Keys == h.blocks.Keys
            && forall b :: b in h.blocks && b != a ==> r.blocks[b] == h.blocks[b]
  {
  }

  /** The word heap_free reads after the released block: a free block follows, or something mistaken for one. */
  lemma NextMagic(m: seq<byte>, m1: seq<byte>, h: Heap, head: nat, a: nat, next: nat)
    requires Sound(h) && InMemory(m, h) && a in h.blocks && !h.blocks[a].free && next == EndOf(h, a) < h.hi
    requires |m1| == |m| && Represents(m1, Release(h, a), head)
    requires next !in h.blocks ==> Agree(m, m1, next, next + 4)
    ensures U32(m1, next) == MAGIC_FREE <==>
            (next in h.blocks && h.blocks[next].free) || !FreesCleanly(m, h, a + HEADER)
  {
    hide Represents, Sound, Release;
    ReleaseKeepsSize(h, a);
    if next in h.blocks {
      BlockFields(m1, Release(h, a), head, next);
    } else {
      SoundInMemory(m1, Release(h, a), head);
      SameWord(m, m1, next);
    }
  }

  lemma SameWord(m: seq<byte>, m1: seq<byte>, a: nat)
    requires a + 4 <= |m| && Agree(m, m1, a, a + 4)
    ensures U32(m1, a) == U32(m, a)
  {
  }

  /** The predecessor of the j-th free block once b heads the list, and how they lie in memory. */
  lemma JoinFacts(m: seq<byte>, h: Heap, head: nat, b: nat, j: nat)
    requires Sound(h) && b in h.blocks && !h.blocks[b].free && j < |h.flist|
    requires Represents(m, Release(h, b), head)
    ensures var prev := Release(h, b).flist[j];
            && head == b && prev + 32 <= |m| && At(h.flist, j + 1) < TWO_64
            && (j == 0 ==> prev == b && NextFree(m, b) == h.flist[0])
            && (j > 0 ==> prev == h.flist[j - 1] && NextFree(m, b) == h.flist[0] && (prev + 32 <= b || b + 32 <= prev))
            && (prev + 32 <= h.flist[j] || h.flist[j] + 32 <= prev)
  {
    hide NextFree, BlocksOk, ListOk, Aligned;
    var r := Release(h, b);
    NullOrBlock(m, r, head, 0);
    NullOrBlock(m, r, head, j + 2);
    FreeBlockFields(m, r, head, 0);
    FreeBlockFields(m, r, head, j);
    FreeBlockFields(m, r, head, j + 1);
    ListDistinct(r, j, j + 1);
    if j > 0 { ListDistinct(r, 0, j); }
  }

  lemma JoinDone(m: seq<byte>, m': seq<byte>, h: Heap, head: nat, b: nat, j: nat)
    requires Sound(h) && b in h.blocks && !h.blocks[b].free && j < |h.flist| && EndOf(h, b) == h.flist[j]
    requires EndOf(h, b) in h.blocks && h.blocks[EndOf(h, b)].free
    requires Represents(m, Release(h, b), head) && head == b && b + 32 <= |m'| == |m|
    requires var prev := Release(h, b).flist[j];
             && prev + 32 <= |m'|
             && (forall x :: 0 <= x < |m| && !(b + 4 <= x < b + 8) && !(prev + 8 <= x < prev + 16) ==> m'[x] == m[x])
             && NextFree(m', prev) == At(h.flist, j + 1)
             && (j > 0 ==> NextFree(m', b) == h.flist[0])
    requires Magic(m', b) == MAGIC_FREE && Flags(m', b) == 1
    requires Size(m', b) == h.blocks[b].size + HEADER + h.blocks[EndOf(h, b)].size
    ensures Represents(m', Join(h, b), b) && KeepsUsed(m, m', Release(h, b)) && HeadersOnly(m, m', h, h)
  {
    hide Magic, Size, NextFree, Flags, BlocksOk, ListOk, Aligned, HeadersOk, LinksOk, Join;
    var r := Release(h, b);
    FreeBlockFields(m, r, head, 0);
    FreeBlockFields(m, r, head, j);
    assert FlistAt(h, j) == EndOf(h, b);
    assert LinkTo(h, j, b) == if j == 0 then b else r.flist[j] + 8;
    assert Joined(m, m', h, b, j);
    JoinRepresents(m, m', h, b, j);
    ChangedKeepsUsed(m, m', r, b, b, LinkTo(h, j, b));
    ChangedHeaders(m, m', h, h, b, b, LinkTo(h, j, b));
  }

  lemma TiledHasPath(m: seq<byte>, h: Heap, head: nat)
    requires Represents(m, h, head) && Tiled(h)
    ensures HasPath(m, h.lo, h.hi)
  {
    hide HeadersOk, LinksOk, BlocksOk, ListOk, GoodPath;
    var path := TiledPath(m, h, head, h.lo);
  }

  /**
   A good path from b exists exactly when the header is good, the next block is in range, and one exists from
   there.
   */
  lemma StepBack(m: seq<byte>, b: nat, hi: nat)
    requires hi + 32 <= |m| && b < hi
    ensures GoodMagic(m, b) <==> Magic(m, b) == MAGIC_FREE || Magic(m, b) == MAGIC_USED
    ensures NextOf(m, b) == b + HEADER + Size(m, b)
    ensures HasPath(m, b, hi) <==> GoodMagic(m, b) && NextOf(m, b) <= hi && HasPath(m, NextOf(m, b), hi)
  {
    hide Magic, Size, GoodPath;
    if HasPath(m, b, hi) {
      var path :| GoodPath(m, path, b, hi);
      PathStep(m, path, b, hi);
    }
    if GoodMagic(m, b) && NextOf(m, b) <= hi && HasPath(m, NextOf(m, b), hi) {
      var path :| GoodPath(m, path, NextOf(m, b), hi);
      PathExtend(m, path, b, hi);
    }
  }

  lemma EndOfPath(m: seq<byte>, b: nat, hi: nat)
    requires hi + 32 <= |m| && b >= hi
    ensures HasPath(m, b, hi) <==> b == hi
  {
    if b == hi { assert GoodPath(m, [b], b, hi); }
    if HasPath(m, b, hi) {
      var path :| GoodPath(m, path, b, hi);
      PathGrows(m, path, b, hi);
    }
  }

  lemma ProductFits(n: u64, size: u64)
    requires size > 0 && n > 0
    ensures n > (TWO_64 - 1) / size <==> n * size >= TWO_64
    ensures n * size > 0
  {
    var q := (TWO_64 - 1) / size;
    assert q * size <= TWO_64 - 1 < q * size + size by { DivisionLaw(TWO_64 - 1, size); }
    if n > q {
      ProductGrows(q + 1, n, size);
    } else {
      ProductGrows(n, q, size);
    }
    ProductGrows(1, n, size);
  }

  lemma DivisionLaw(a: nat, d: nat)
    requires d > 0
    ensures a / d * d <= a < a / d * d + d
  {
    assert a == a / d * d + a % d;
  }

  lemma ProductGrows(a: nat, b: nat, d: nat)
    requires a <= b
    ensures a * d <= b * d
  {
    assert b * d == a * d + (b - a) * d;
    assert (b - a) * d >= 0;
  }

  /** The block heap_alloc hands out: big enough, formerly free, inside the heap. */
  lemma AllocFacts(h: Heap, size: u64)
    requires Sound(h) && HeapModel.Alloc(h, size).1 != 0 && size <= TWO_64 - 16
    ensures var (h1, p) := HeapModel.Alloc(h, size);
            && Sound(h1) && p > HEADER && Allocated(h, h1, p - HEADER, AlignUp(size))
               && size <= h1.blocks[p - HEADER].size
  {
    hide HeapModel.Alloc, AlignUp, Aligned, BlocksOk, ListOk;
    AllocLaw(h, size);
    AlignUpLaw(size);
  }

  /**
   The allocation inside heap_realloc: h1 is h with a new block for p, apart from the one of ptr, which stays
   live.
   */
  ghost predicate Moved(h: Heap, h1: Heap, ptr: nat, size: u64, p: nat) {
    && Live(h, ptr) && Live(h1, ptr) && Live(h1, p) && p != ptr
    && Written(h, ReallocOp(ptr, size)) <= h1.blocks[p - HEADER].size
    && h1.blocks[ptr - HEADER] == h.blocks[ptr - HEADER]
    && (NoGapAfter(h1, ptr - HEADER) <==> NoGapAfter(h, ptr - HEADER))
    && (EndOf(h1, p - HEADER) <= ptr - HEADER || EndOf(h1, ptr - HEADER) <= p - HEADER)
    && Allocated(h, h1, p - HEADER, AlignUp(size)) && (forall x :: Owned(h1, x) ==> Owned(h, x)) && Sound(h)
       && Sound(h1)
  }

  lemma CopyInPayload(m: seq<byte>, m': seq<byte>, h: Heap, head: nat, p: nat, ptr: nat, n: nat)
    requires Represents(m, h, head) && RangesApart(m, h, p, ptr, n) && |m'| == |m|
    requires forall x :: 0 <= x < |m| && !(p <= x < p + n) ==> m'[x] == m[x]
    ensures Represents(m', h, head)
  {
    hide Represents;
    PayloadWrite(m, m', h, head, p - HEADER);
  }

  /** What heap_realloc knows of its two blocks before the copy. */
  lemma MoveParts(m: seq<byte>, m1: seq<byte>, h: Heap, h1: Heap, ptr: nat, size: u64, p: nat, n: nat)
    requires MoveStart(m, m1, h, h1, ptr, size, p, n)
    ensures Live(h1, p) && Live(h1, ptr) && p != ptr && n <= h1.blocks[p - HEADER].size
            && n <= h1.blocks[ptr - HEADER].size
    ensures p + n <= EndOf(h1, p - HEADER)
  {
    hide Sound, Aligned, AlignUp, KeepsUsed, Owned, HeapModel.Alloc, NoGapAfter;
  }

  lemma ApartPayloads(m: seq<byte>, h: Heap, head: nat, p: nat, ptr: nat, n: nat)
    requires Represents(m, h, head) && Live(h, p) && Live(h, ptr) && p != ptr
    requires n <= h.blocks[p - HEADER].size && n <= h.blocks[ptr - HEADER].size
    ensures RangesApart(m, h, p, ptr, n)
  {
    hide HeadersOk, LinksOk, ListOk, Aligned;
    Apart(h, p - HEADER, ptr - HEADER);
  }

  /** Where heap_realloc stands after its allocation: memory m1 and heap h1, n bytes to copy. */
  ghost predicate MoveStart(m: seq<byte>, m1: seq<byte>, h: Heap, h1: Heap, ptr: nat, size: u64, p: nat, n: nat) {
    && Listed(h) && Live(h, ptr) && EndOf(h, ptr - HEADER) <= |m| && n == Written(h, ReallocOp(ptr, size))
    && (h1, p) == HeapModel.Alloc(h, size) && Moved(h, h1, ptr, size, p) && KeepsUsed(m, m1, h)
  }

  lemma MoveModel(h: Heap, ptr: nat, size: u64)
    requires Sound(h) && Live(h, ptr)
    requires Listed(h) && HeapModel.Alloc(h, size).1 != 0 && !Overruns(h, ReallocOp(ptr, size))
    ensures Moved(h, HeapModel.Alloc(h, size).0, ptr, size, HeapModel.Alloc(h, size).1)
  {
    hide AlignUp, Aligned, BlocksOk, ListOk, Owned, HeapModel.Alloc, LostSlack;
    AllocLaw(h, size);
    OverrunExact(h, ReallocOp(ptr, size));
    AllocOwned(h, size);
    MoveApart(h, HeapModel.Alloc(h, size).0, ptr, size, HeapModel.Alloc(h, size).1);
  }

  lemma MoveApart(h: Heap, h1: Heap, ptr: nat, size: u64, p: nat)
    requires Sound(h) && Sound(h1) && Live(h, ptr) && forall x :: Owned(h1, x) ==> Owned(h, x)
    requires p > HEADER && Allocated(h, h1, p - HEADER, AlignUp(size))
    requires Written(h, ReallocOp(ptr, size)) <= h1.blocks[p - HEADER].size
    ensures Moved(h, h1, ptr, size, p)
  {
    hide AlignUp, Aligned, BlocksOk, ListOk, Owned;
    Apart(h1, p - HEADER, ptr - HEADER);
    GapKept(h, h1, ptr - HEADER);
  }

  /** An allocation puts no block into a gap. */
  lemma GapKept(h: Heap, h1: Heap, a: nat)
    requires Sound(h) && h1.hi == h.hi && a in h.blocks && a in h1.blocks && h1.blocks[a] == h.blocks[a]
    requires forall b :: b in h.blocks ==> b in h1.blocks
    requires forall x :: Owned(h1, x) ==> Owned(h, x)
    ensures NoGapAfter(h1, a) <==> NoGapAfter(h, a)
  {
    hide ListOk, Aligned, Owned;
    var e := EndOf(h, a);
    if e in h1.blocks {
      FirstByteOwned(h1, e);
      OwnedEnd(h, a);
    }
  }

  lemma FirstByteOwned(h: Heap, a: nat)
    requires a in h.blocks
    ensures Owned(h, a)
  {
    assert a <= a < EndOf(h, a);
  }

  /** Neither the allocation nor the copy of heap_realloc changes what lies behind the old block. */
  lemma SameTail(m: seq<byte>, m1: seq<byte>, m2: seq<byte>, h: Heap, h1: Heap, ptr: nat, size: u64, p: nat)
    requires Moved(h, h1, ptr, size, p) && InMemory(m, h) && InMemory(m2, h1)
    requires KeepsUsed(m, m1, h) && |m2| == |m1|
    requires forall x :: 0 <= x < |m1| && !(p <= x < EndOf(h1, p - HEADER)) ==> m2[x] == m1[x]
    ensures FreesCleanly(m2, h1, ptr) <==> FreesCleanly(m, h, ptr)
  {
    hide Sound, Owned, Aligned, AlignUp;
    var a := ptr - HEADER;
    if !NoGapAfter(h, a) {
      GapBytes(h, a);
      var e := EndOf(h, a);
      forall x | p <= x < EndOf(h1, p - HEADER) ensures Owned(h, x) { PayloadOwned(h1, p - HEADER, x); }
      assert forall x :: e <= x < e + 4 ==> m2[x] == m[x];
    }
  }

  lemma PayloadOwned(h: Heap, a: nat, x: nat)
    requires a in h.blocks && a <= x < EndOf(h, a)
    ensures Owned(h, x)
  {
  }

  /** Writing into a newly allocated payload touches nothing that was in use before. */
  lemma PayloadKeeps(m: seq<byte>, m': seq<byte>, h: Heap, a: nat, h1: Heap)
    requires Sound(h) && a in h.blocks && h.blocks[a].free && |m'| == |m|
    requires a in h1.blocks && EndOf(h1, a) <= EndOf(h, a)
    requires forall x :: 0 <= x < |m| && !(a + 32 <= x < EndOf(h1, a)) ==> m'[x] == m[x]
    ensures KeepsUsed(m, m', h)
  {
    hide ListOk, Aligned;
    Inside(h);
    forall b | b in h.blocks && !h.blocks[b].free
      ensures Agree(m, m', b, EndOf(h, b))
    {
      Apart(h, b, a);
    }
  }

  lemma ReleaseOwned(h: Heap, a: nat)
    requires a in h.blocks
    ensures forall x :: Owned(Release(h, a), x) <==> Owned(h, x)
  {
    var r := Release(h, a);
    assert r.blocks.Keys == h.blocks.Keys;
    assert forall b :: b in h.blocks ==> EndOf(r, b) == EndOf(h, b);
  }

  /** Fewer used blocks to keep. */
  lemma KeepsFewer(m: seq<byte>, m': seq<byte>, h: Heap, g: Heap)
    requires KeepsUsed(m, m', h) && g.lo == h.lo && g.hi == h.hi && forall x :: Owned(h, x) ==> Owned(g, x)
    requires forall a :: a in g.blocks && !g.blocks[a].free ==> a in h.blocks && h.blocks[a] == g.blocks[a]
    ensures KeepsUsed(m, m', g)
  {
  }

  /** m to m1 allocates, m1 to m2 copies into the new payload, m2 to m3 frees ptr: other clients keep every byte. */
  lemma MoveKeeps(m: seq<byte>, m1: seq<byte>, m2: seq<byte>, m3: seq<byte>, h: Heap, h1: Heap, ptr: nat, size: u64,
      p: nat)
    requires Moved(h, h1, ptr, size, p)
    requires KeepsUsed(m, m1, h) && |m2| == |m1|
    requires forall x :: 0 <= x < |m1| && !(p <= x < EndOf(h1, p - HEADER)) ==> m2[x] == m1[x]
    requires KeepsUsed(m2, m3, Release(h1, ptr - HEADER))
    ensures KeepsUsed(m, m3, Release(h, ptr - HEADER))
  {
    hide AlignUp, Aligned, BlocksOk, ListOk, KeepsUsed, Release;
    var a := ptr - HEADER;
    ReleaseKeepsSize(h, a);
    ReleaseKeepsSize(h1, a);
    assert forall b :: b in h.blocks && !h.blocks[b].free ==> b in h1.blocks && h1.blocks[b] == h.blocks[b];
    ReleaseOwned(h, a);
    ReleaseOwned(h1, a);
    hide Owned;
    SameLength(m, m1, h);
    PayloadKeeps(m1, m2, h, p - HEADER, h1);
    KeepsTwice(m, m1, m2, h);
    KeepsFewer(m, m2, h, Release(h, a));
    KeepsFewer(m2, m3, Release(h1, a), Release(h, a));
    KeepsTwice(m, m2, m3, Release(h, a));
  }

  lemma SameLength(m: seq<byte>, m': seq<byte>, h: Heap)
    requires KeepsUsed(m, m', h)
    ensures |m'| == |m|
  {
  }

  /** ... and the new block begins with the old contents. */
  lemma MoveContents(m: seq<byte>, m1: seq<byte>, m2: seq<byte>, m3: seq<byte>, h: Heap, h1: Heap, ptr: nat, size: u64,
      p: nat, n: nat)
    requires Moved(h, h1, ptr, size, p)
    requires n == if h.blocks[ptr - HEADER].size < size then h.blocks[ptr - HEADER].size else size
    requires KeepsUsed(m, m1, h) && |m2| == |m1| && EndOf(h, ptr - HEADER) <= |m| && p + n <= |m1|
    requires m2[p..p + n] == m1[ptr..ptr + n]
    requires KeepsUsed(m2, m3, Release(h1, ptr - HEADER))
    ensures p + n <= |m3| && m3[p..p + n] == m[ptr..ptr + n]
  {
    hide AlignUp, Aligned, BlocksOk, ListOk, Release;
    ReleaseKeepsSize(h1, ptr - HEADER);
    assert Agree(m, m1, ptr - HEADER, EndOf(h, ptr - HEADER));
    assert Agree(m2, m3, p - HEADER, EndOf(Release(h1, ptr - HEADER), p - HEADER));
    assert m1[ptr..ptr + n] == m[ptr..ptr + n];
    assert m3[p..p + n] == m2[p..p + n];
  }

  lemma TiledStops(m: seq<byte>, h: Heap, head: nat)
    requires Represents(m, h, head) && Tiled(h)
    ensures StopsAtGaps(m, h)
  {
    hide Magic, HeadersOk, LinksOk, BlocksOk, ListOk;
  }

  lemma WalkStep(m: seq<byte>, h: Heap, head: nat, b: nat)
    requires Represents(m, h, head) && StopsAtGaps(m, h) && b < h.hi && (b in h.blocks || !GoodMagic(m, b))
    ensures b in h.blocks <==> GoodMagic(m, b)
    ensures b in h.blocks ==>
              && Size(m, b) == h.blocks[b].size && Magic(m, b) == (if h.blocks[b].free then MAGIC_FREE else MAGIC_USED)
              && (EndOf(h, b) in h.blocks || EndOf(h, b) == h.hi || (EndOf(h, b) < h.hi && !GoodMagic(m, EndOf(h, b))))
              && BytesFrom(h, b, false) == BytesFrom(h, EndOf(h, b), false)
                 + (if h.blocks[b].free then 0 else HEADER + h.blocks[b].size)
              && CountFrom(h, b, false) == CountFrom(h, EndOf(h, b), false) + (if h.blocks[b].free then 0 else 1)
    ensures b !in h.blocks ==> BytesFrom(h, b, false) == 0 && CountFrom(h, b, false) == 0
  {
    hide Magic, Size, HeadersOk, LinksOk, BlocksOk, ListOk;
    if b in h.blocks { BlockFields(m, h, head, b); }
  }

  /** What the walk does at one header. */
  lemma UsedStep(m: seq<byte>, b: nat, hi: nat)
    requires hi + 32 <= |m| && b < hi
    ensures var (bytes, blocks) := UsedFrom(m, b, hi);
            if Magic(m, b) == MAGIC_USED then
              (bytes, blocks) ==
              (HEADER + Size(m, b) + UsedFrom(m, NextOf(m, b), hi).0, UsedFrom(m, NextOf(m, b), hi).1 + 1)
            else if Magic(m, b) == MAGIC_FREE then (bytes, blocks) == UsedFrom(m, NextOf(m, b), hi)
            else (bytes, blocks) == (0, 0)
  {
    hide Magic, Size;
  }

  /** Where the walk stops at gaps, it meets the blocks of the heap before the first one. */
  lemma {:induction false} UsedIsModel(m: seq<byte>, h: Heap, head: nat, b: nat)
    requires Represents(m, h, head) && StopsAtGaps(m, h)
             && (b in h.blocks || b == h.hi || (b < h.hi && !GoodMagic(m, b)))
    ensures UsedFrom(m, b, h.hi) == (BytesFrom(h, b, false), CountFrom(h, b, false))
    decreases h.hi - b
  {
    hide Magic, Size, Represents, StopsAtGaps, GoodMagic, BytesFrom, CountFrom;
    SoundInMemory(m, h, head);
    if b < h.hi {
      WalkStep(m, h, head, b);
      UsedStep(m, b, h.hi);
      StepBack(m, b, h.hi);
      if b in h.blocks { UsedIsModel(m, h, head, EndOf(h, b)); }
    } else {
      NoBlockAtEnd(m, h, head, b);
    }
  }

  lemma NoBlockAtEnd(m: seq<byte>, h: Heap, head: nat, b: nat)
    requires Represents(m, h, head) && b >= h.hi
    ensures b !in h.blocks && BytesFrom(h, b, false) == 0 && CountFrom(h, b, false) == 0
  {
    hide HeadersOk, LinksOk, ListOk, Aligned;
  }

  lemma UsedIsPrefix(m: seq<byte>, h: Heap, head: nat)
    requires Represents(m, h, head) && StopsAtGaps(m, h)
    ensures UsedFrom(m, h.lo, h.hi) == (BytesFrom(h, h.lo, false), CountFrom(h, h.lo, false))
    ensures BytesFrom(h, h.lo, false) <= h.hi - h.lo < TWO_64
  {
    hide Magic, HeadersOk, LinksOk, ListOk, Aligned, BytesFrom, CountFrom, UsedFrom;
    UsedIsModel(m, h, head, h.lo);
    BytesInside(h, h.lo);
  }

  lemma {:induction false} BytesInside(h: Heap, a: nat)
    requires Sound(h) && a <= h.hi
    ensures BytesFrom(h, a, false) <= h.hi - a
    decreases h.hi - a
  {
    hide BlocksOk, ListOk;
    if a in h.blocks && EndOf(h, a) <= h.hi { BytesInside(h, EndOf(h, a)); }
  }

  /** On a tiled heap the prefix is the whole. */
  lemma TiledStats(m: seq<byte>, h: Heap, head: nat, out: Stats)
    requires Represents(m, h, head) && Tiled(h) && PrefixStats(out, h)
    ensures ExactStats(out, h)
  {
    hide HeadersOk, LinksOk, BlocksOk, ListOk, BlocksFrom, BytesFrom, CountFrom;
    WalkTotals(h, h.lo);
    BlockCounts(h);
    CountMeetsAll(h, h.lo, false);
  }

  /** A run of frames lies in the cover, page aligned. */
  lemma FrameRun(p: Frames.Pool, n: nat)
    requires Frames.ValidPool(p) && n > 0
    ensures var base := Frames.AllocPages(p, n).1;
            base != 0 ==>
              && base >= 0x1000 && Aligned(base) && Aligned(base + n * 4096)
              && base + n * 4096 <= p.lo + |p.used| * 4096
  {
    var i := Frames.LowestRun(p.used, n, 0);
    if i < |p.used| {
      PageAligned(p.lo, i);
      PageAligned(p.lo, i + n);
    }
  }

  lemma PageAligned(lo: nat, i: nat)
    requires lo % 4096 == 0
    ensures Aligned(lo + i * 4096)
  {
    assert (lo + i * 4096) % 4096 == 0;
  }

  /** A step of the walk that does not yet stand before next. */
  lemma WalkOn(r: Heap, k: nat, j: nat, link: nat, next: nat)
    requires Sound(r) && k <= j && j + 1 < |r.flist| && r.flist[j + 1] == next && link == At(r.flist, k + 1)
             && link != next
    ensures k + 1 <= j
  {
  }

  /** Where the walk ends: before next, or past the list. */
  lemma WalkDone(r: Heap, k: nat, j: nat, next: nat, prev: nat, link: nat)
    requires Sound(r) && next != 0 && r.flist != [] && r.flist[0] != next && k <= |r.flist| && prev == At(r.flist, k)
    requires k < |r.flist| ==> prev != 0 && link == At(r.flist, k + 1)
    requires next in r.flist ==> k <= j && j + 1 < |r.flist| && r.flist[j + 1] == next
    requires prev == 0 || link == next
    ensures prev == if next in r.flist then r.flist[j] else 0
  {
    hide BlocksOk, Aligned;
    if k < |r.flist| {
      if k + 1 < |r.flist| && next in r.flist { DistinctAt(r.flist, k + 1, j + 1); }
    }
  }

  /** Once b heads the list, the block behind it is on the list exactly if it is a block. */
  lemma InListIff(h: Heap, b: nat, next: nat)
    requires Sound(h) && b in h.blocks && !h.blocks[b].free && next == EndOf(h, b)
             && (next in h.blocks ==> h.blocks[next].free)
    ensures var r, j := Release(h, b), IndexOf(h.flist, next);
            && next != 0 && r.flist != [] && r.flist[0] != next
            && (next in r.flist <==> next in h.blocks)
            && (next in h.blocks ==> j < |h.flist| && h.flist[j] == next && r.flist[j + 1] == next && r.flist[j] != 0)
  {
    hide Aligned;
    if next in h.blocks { InList(h, next); }
  }

  lemma HasBlock(h: Heap, b: nat)
    requires b in h.blocks
    ensures |h.blocks| > 0
  {
    assert b in h.blocks.Keys;
  }

  /** Changing the size of a free block touches no client byte. */
  lemma SizeKeepsUsed(m: seq<byte>, m': seq<byte>, r: Heap, b: nat)
    requires Sound(r) && InMemory(m, r) && b in r.blocks && r.blocks[b].free && |m'| == |m|
    requires forall x :: 0 <= x < |m| && !(b + 4 <= x < b + 8) ==> m'[x] == m[x]
    ensures KeepsUsed(m, m', r)
  {
    hide BlocksOk, ListOk;
    ChangedKeepsUsed(m, m', r, b, b, b);
  }

  /** What freeing the block at b does in the model, by what follows it. */
  lemma FreeCases(m: seq<byte>, h: Heap, b: nat)
    requires Sound(h) && InMemory(m, h) && b in h.blocks && !h.blocks[b].free
    ensures var n := EndOf(h, b);
            && n <= h.hi && (n == h.hi ==> n !in h.blocks)
            && (n == h.hi || n in h.blocks ==> FreesCleanly(m, h, b + HEADER))
            && FreeIfLive(h, b + HEADER) == if n in h.blocks && h.blocks[n].free then Join(h, b) else Release(h, b)
  {
    hide ListOk, Join, Release, Aligned;
  }

  /** The calls of a client that takes a heap of 1 MiB whole, gives it back, and takes and gives back 16 bytes less. */
  function SlackRun(lo: nat): seq<HeapOp> {
    [AllocOp(0xF_FFE0), FreeOp(lo + HEADER), AllocOp(0xF_FFD0), FreeOp(lo + HEADER)]
  }

  /** A heap of 1 MiB whose only block is the one at its start. */
  ghost predicate OneBlock(h: Heap, lo: nat, size: nat, free: bool) {
    h.lo == lo && h.hi == lo + 0x10_0000 && h.blocks == map[lo := Block(size, free)]
        && h.flist == if free then [lo] else []
  }

  lemma OneBlockTaken(h: Heap, lo: nat, n: u64)
    requires 0x1000 <= lo < TWO_32 && (n == 0xF_FFE0 || n == 0xF_FFD0) && OneBlock(h, lo, 0xF_FFE0, true)
    ensures Listed(h) && HeapModel.Alloc(h, n).1 == lo + HEADER && OneBlock(HeapModel.Alloc(h, n).0, lo, n, false)
  {
    assert AlignUp(n) == n;
    assert Fit(h, n) == 0;
    assert !Splits(h, n);
    var h' := Take(h, 0, n);
    assert h'.flist == [];
    assert h'.blocks == map[lo := Block(n, false)];
  }

  lemma OneBlockGiven(h: Heap, lo: nat, n: u64)
    requires 0x1000 <= lo < TWO_32 && OneBlock(h, lo, n, false)
    ensures Live(h, lo + HEADER) && OneBlock(FreeIfLive(h, lo + HEADER), lo, n, true)
  {
    assert EndOf(h, lo) !in h.blocks;
    assert Release(h, lo).flist == [lo];
    assert Release(h, lo).blocks == map[lo := Block(n, true)];
  }

  lemma OneBlockSteps(h: Heap, lo: nat, n: u64, op: HeapOp)
    requires 0x1000 <= lo < TWO_32 && (n == 0xF_FFE0 || n == 0xF_FFD0) && Sound(h)
    requires if op.AllocOp? then op.n == n && OneBlock(h, lo, 0xF_FFE0, true)
             else op == FreeOp(lo + HEADER) && OneBlock(h, lo, n, false)
    ensures Legal(h, op)
    ensures Step(h, op) == if op.AllocOp? then HeapModel.Alloc(h, n).0 else FreeIfLive(h, lo + HEADER)
    ensures OneBlock(Step(h, op), lo, n, op.FreeOp?)
  {
    hide HeapModel.Alloc, Step, Sound, HeapModel.Free, Overruns;
    SoundListed(h);
    SmallRequest(h, op);
    if op.AllocOp? { OneBlockTaken(h, lo, n); } else { OneBlockGiven(h, lo, n); }
    StepCases(h, op);
  }

  lemma SmallRequest(h: Heap, op: HeapOp)
    requires Listed(h) && Asked(op) <= TWO_64 - 16
    ensures !Overruns(h, op)
  {
  }

  /** Four calls, one at a time. */
  lemma FourSteps(h: Heap, ops: seq<HeapOp>)
    requires |ops| == 4
    requires Legal(h, ops[0]) && Legal(Step(h, ops[0]), ops[1]) && Legal(Step(Step(h, ops[0]), ops[1]), ops[2])
    requires Legal(Step(Step(Step(h, ops[0]), ops[1]), ops[2]), ops[3])
    ensures LegalRun(h, ops) && Run(h, ops) == Step(Step(Step(Step(h, ops[0]), ops[1]), ops[2]), ops[3])
  {
    hide Legal, Step;
    var h1 := Step(h, ops[0]);
    var h2 := Step(h1, ops[1]);
    var h3 := Step(h2, ops[2]);
    assert ops[3..][1..] == [] && LegalRun(h3, ops[3..]) && Run(h3, ops[3..]) == Step(h3, ops[3]);
    assert ops[2..][1..] == ops[3..] && LegalRun(h2, ops[2..]) && Run(h2, ops[2..]) == Run(h3, ops[3..]);
    assert ops[1..][1..] == ops[2..] && LegalRun(h1, ops[1..]) && Run(h1, ops[1..]) == Run(h2, ops[2..]);
  }

  /** The fourth word from the end of such a heap is far from its one header. */
  lemma TailKept(m: seq<byte>, m': seq<byte>, h: Heap, h': Heap, lo: nat, n: nat, n': nat, f: bool, f': bool)
    requires OneBlock(h, lo, n, f) && OneBlock(h', lo, n', f') && HeadersOnly(m, m', h, h') && h.hi + 32 <= |m|
    ensures U32(m', lo + 0xF_FFF0) == U32(m, lo + 0xF_FFF0)
  {
    hide U32;
    forall x | lo + 0xF_FFF0 <= x < lo + 0xF_FFF4 ensures m'[x] == m[x] {
      assert !InHeader(h, x) && !InHeader(h', x);
    }
    WordKept(m, m', lo + 0xF_FFF0);
  }

  lemma TailMistaken(m: seq<byte>, h: Heap, lo: nat)
    requires Sound(h) && InMemory(m, h) && OneBlock(h, lo, 0xF_FFD0, false) && U32(m, lo + 0xF_FFF0) == MAGIC_FREE
    ensures !FreesCleanly(m, h, lo + HEADER)
  {
  }

  /**
   A legal run that the code does not follow. The client writes the magic into the last bytes of its own block;
   they later belong to no block, behind one that is given back, and heap_free takes them for a free block.
   */
  method Lookalike(a: Allocator, lo: nat)
    requires Aligned(lo) && 0x1000 <= lo < TWO_32 && a.Valid() && a.model == Fresh(lo, lo + 0x10_0000)
    modifies a, a.mem
    ensures LegalRun(old(a.model), SlackRun(lo)) && !a.Holds(Run(old(a.model), SlackRun(lo)))
  {
    hide Represents, BlocksOk, ListOk, Aligned, KeepsUsed, U32, Tiled, HeapModel.Alloc, FreeIfLive, Step, Legal,
      Magic, FreesCleanly, HeadersOnly, Freeable;
    ghost var h0, ops := a.model, SlackRun(lo);
    SoundInMemory(a.mem[..], h0, a.freeList);
    OneBlockSteps(h0, lo, 0xF_FFE0, ops[0]);
    OneBlockTaken(h0, lo, 0xF_FFE0);
    var p := a.Alloc(0xF_FFE0);

    ghost var h1, m1 := a.model, a.mem[..];
    SoundInMemory(m1, h1, a.freeList);
    a.PutU32(p + 0xF_FFD0, MAGIC_FREE);
    ghost var m2 := a.mem[..];
    PayloadWrite(m1, m2, h1, a.freeList, lo);
    OneBlockSteps(h1, lo, 0xF_FFE0, ops[1]);
    OneBlockGiven(h1, lo, 0xF_FFE0);
    LegalFree(m2, h1, a.freeList, p);
    FreeCases(m2, h1, lo);
    var r := a.Free(p);

    ghost var h2, m3 := a.model, a.mem[..];
    TailKept(m2, m3, h1, h1, lo, 0xF_FFE0, 0xF_FFE0, false, false);
    SoundInMemory(m3, h2, a.freeList);
    OneBlockSteps(h2, lo, 0xF_FFD0, ops[2]);
    OneBlockTaken(h2, lo, 0xF_FFD0);
    p := a.Alloc(0xF_FFD0);

    ghost var h3, m4 := a.model, a.mem[..];
    TailKept(m3, m4, h2, h3, lo, 0xF_FFE0, 0xF_FFD0, true, false);
    SoundInMemory(m4, h3, a.freeList);
    OneBlockSteps(h3, lo, 0xF_FFD0, ops[3]);
    OneBlockGiven(h3, lo, 0xF_FFD0);
    LegalFree(m4, h3, a.freeList, p);
    TailMistaken(m4, h3, lo);
    FourSteps(h0, ops);
    r := a.Free(p);
  }

  lemma NothingKept(m: seq<byte>, h: Heap, b: nat)
    requires b in h.blocks
    ensures OthersKept(m, m, h, b) && HeadersOnly(m, m, h, h)
  {
    NothingChanged(m, Release(h, b));
  }

  /** What follows a block that is mistaken for a free one is no block, so freeing merges nothing in the model. */
  lemma LookalikeCounts(m: seq<byte>, h: Heap, b: nat)
    requires Sound(h) && InMemory(m, h) && b in h.blocks && !h.blocks[b].free && !FreesCleanly(m, h, b + HEADER)
    ensures |FreeIfLive(h, b + HEADER).blocks| == |h.blocks|
  {
    hide BlocksOk, ListOk;
    assert Release(h, b).blocks.Keys == h.blocks.Keys;
  }

  lemma InList(h: Heap, a: nat)
    requires Sound(h) && a in h.blocks && h.blocks[a].free
    ensures IndexOf(h.flist, a) < |h.flist| && h.flist[IndexOf(h.flist, a)] == a
  {
  }

  lemma WordKept(m: seq<byte>, m': seq<byte>, a: nat)
    requires a + 4 <= |m| == |m'| && forall x :: a <= x < a + 4 ==> m'[x] == m[x]
    ensures U32(m', a) == U32(m, a)
  {
  }
}
