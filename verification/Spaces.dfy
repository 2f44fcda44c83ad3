/** Address-space descriptors: the heap block, the reference count and the PML4 of vmm_create_address_space. */
module Spaces {
  import opened Bits
  import opened Words
  import opened HeapModel
  import opened HeapBytes
  import HeapAllocator
  import AddressSpaces
  import PT = PageTables
  import Vmm

  /** Bytes of the descriptor: the PML4's address, the reference count and the flags. */
  const DESCRIPTOR: nat := 16

  /** The fields of the descriptor at p. */
  ghost predicate IsDescriptor(m: seq<byte>, p: nat, pml4: nat, refcount: nat, flags: nat) {
    p + DESCRIPTOR <= |m| && U64(m, p) == pml4 && U32(m, p + 8) == refcount && U32(m, p + 12) == flags
  }

  /** p points to a live block with room for a descriptor. */
  ghost predicate HasDescriptor(h: Heap, p: nat) {
    Live(h, p) && h.blocks[p - HEADER].size >= DESCRIPTOR
  }

  /**
   What creating a space does: it answers NULL exactly when the heap has no room for the descriptor or
   no frame is free; then the page tables are as they were, and with a frame missing the descriptor's
   block is given back, cleanly if the bytes behind it never read as a free block. Otherwise the descriptor
   names a copy of the kernel's PML4 with one reference.
   */
  ghost predicate CreateOutcome(s: PT.State, s': PT.State, kernel: nat, h: Heap, h': Heap, m: seq<byte>, m': seq<byte>,
                                heapOk: bool, space: nat)
  {
    && Listed(h)
    && var (h1, p) := HeapModel.Alloc(h, DESCRIPTOR);
       var (s1, root) := AddressSpaces.CreateSpace(s, kernel);
       && space == (if p != 0 && root != 0 then p else 0)
       && s' == (if p == 0 then s else s1)
       && KeepsUsed(m, m', h)
       && (p == 0 ==> heapOk && h' == h && m' == m)
       && (space != 0 ==> heapOk && h' == h1 && HasDescriptor(h1, space) && IsDescriptor(m', space, root, 1, 0))
       && (p != 0 && root == 0 && HeapAllocator.FreesCleanly(m, h1, p) ==> heapOk && h' == FreeIfLive(h1, p))
  }

  /**
   What destroying a space does: nothing to NULL or the kernel's space; one reference less if there are
   others; else its descriptor is freed, as heap_free does. No table and no frame is given back.
   */
  ghost predicate DestroyOutcome(m: seq<byte>, m': seq<byte>, h: Heap, h': Heap, heapOk: bool, kernelSpace: nat,
                                 space: nat)
  {
    if space == 0 || space == kernelSpace then heapOk && h' == h && m' == m
    else
      && HEADER <= space && space + DESCRIPTOR <= |m| && HeapAllocator.OthersKept(m, m', h, space - HEADER)
      && (if U32(m, space + 8) > 1 then
            heapOk && h' == h && IsDescriptor(m', space, U64(m, space), U32(m, space + 8) - 1, U32(m, space + 12))
          else HeapAllocator.FreesCleanly(m, h, space) ==> heapOk && h' == FreeIfLive(h, space))
  }

  class Manager {
    const vm: Vmm.PageTableManager
    const heap: HeapAllocator.Allocator
    /** The address of the kernel's own descriptor, which is no heap block. */
    const kernelSpace: nat

    constructor (manager: Vmm.PageTableManager, allocator: HeapAllocator.Allocator, kernelDescriptor: nat)
      ensures vm == manager && heap == allocator && kernelSpace == kernelDescriptor
    {
      vm, heap, kernelSpace := manager, allocator, kernelDescriptor;
    }

    /** The assignments to the descriptor's fields. */
    method Fill(p: nat, pml4: u64)
      requires heap.Valid() && HasDescriptor(heap.model, p)
      modifies heap.mem
      ensures IsDescriptor(heap.mem[..], p, pml4, 1, 0)
      ensures HeapAllocator.OthersKept(old(heap.mem[..]), heap.mem[..], heap.model, p - HEADER)
      ensures heap.Valid()
    {
      hide Represents, U32, U64, Owned, Sound, InMemory, KeepsUsed;
      ghost var m := heap.mem[..];
      DescriptorInMemory(m, heap.model, heap.freeList, p);
      heap.PutU64(p, pml4);
      ghost var m1 := heap.mem[..];
      heap.PutU32(p + 8, 1);
      ghost var m2 := heap.mem[..];
      heap.PutU32(p + 12, 0);
      DoubleWordKept(m1, heap.mem[..], p);
      HeapAllocator.WordKept(m2, heap.mem[..], p + 8);
      PayloadWrite(m, heap.mem[..], heap.model, heap.freeList, p - HEADER);
      PayloadOthersKept(m, heap.mem[..], heap.model, heap.freeList, p - HEADER);
    }

    /**
     When no frame was free, the heap is that of the allocation undone exactly if the block could be freed
     cleanly.
     */
    ghost predicate UndoneIff(m: seq<byte>, h: Heap, root: nat)
      reads heap, heap.mem
    {
      && Listed(h)
      && (HeapModel.Alloc(h, DESCRIPTOR).1 != 0 && root == 0 ==>
         Undone(m, HeapModel.Alloc(h, DESCRIPTOR).0, HeapModel.Alloc(h, DESCRIPTOR).1))
    }

    ghost predicate Undone(m: seq<byte>, h1: Heap, p: nat)
      reads heap, heap.mem
    {
      heap.Holds(FreeIfLive(h1, p)) <==> HeapAllocator.FreesCleanly(m, h1, p)
    }

    /** vmm_create_address_space. */
    method Create() returns (space: nat)
      requires vm.Valid() && PT.IsRoot(vm.State(), vm.kernelPml4)
      requires heap.Valid() && heap.mem as object != vm.pmm.bitmap
      modifies heap, heap.mem, vm`ram, vm`tables, vm.pmm`freePages, vm.pmm.bitmap
      ensures vm.Valid()
      ensures CreateOutcome(old(vm.State()), vm.State(), vm.kernelPml4, old(heap.model), heap.model,
                old(heap.mem[..]), heap.mem[..], heap.Valid(), space)
      ensures UndoneIff(old(heap.mem[..]), old(heap.model), AddressSpaces.CreateSpace(old(vm.State()), vm.kernelPml4).1)
    {
      hide Represents, U32, U64, Owned, Sound, InMemory, KeepsUsed, PT.Inv, HeapModel.Alloc, Tiled, LostSlack,
        FreeIfLive, AddressSpaces.CreateSpace, HeapAllocator.FreesCleanly, HeapAllocator.OthersKept, Aligned, AlignUp,
        CreateOutcome, PT.SameSharing, PT.SameTranslations, PT.FramesGrew, AddressSpaces.Copied, IsDescriptor, Listed,
        HeadersOnly;
      ghost var h, m, s := heap.model, heap.mem[..], vm.State();
      HeapAllocator.SoundInMemory(m, h, heap.freeList);
      SoundListed(h);
      var p := heap.Alloc(DESCRIPTOR);
      if p == 0 {
        assert heap.mem[..] == m;
        NoRoom(s, vm.kernelPml4, h, m);
        return 0;
      }
      ghost var h1, m1 := heap.model, heap.mem[..];
      HeapAllocator.SoundInMemory(m1, h1, heap.freeList);
      RoomForDescriptor(h);
      RootIsWord(s, vm.kernelPml4);
      var root := vm.CreatePml4();
      if root == 0 {
        HeapAllocator.BehindKept(m, m1, h, DESCRIPTOR);
        heap.FreeBlock(p - HEADER);
        KeptThroughout(m, m1, heap.mem[..], h, p - HEADER);
        NoFrame(s, vm.kernelPml4, h, heap.model, m, heap.mem[..], heap.Valid());
        return 0;
      }
      Fill(p, root);
      KeptThroughout(m, m1, heap.mem[..], h, p - HEADER);
      Made(s, vm.kernelPml4, h, m, heap.mem[..]);
      space := p;
    }

    /** vmm_destroy_address_space. */
    method Destroy(space: nat)
      requires heap.Valid()
      requires space == 0 || space == kernelSpace || (HasDescriptor(heap.model, space) && space < heap.end)
      modifies heap, heap.mem
      ensures DestroyOutcome(old(heap.mem[..]), heap.mem[..], old(heap.model), heap.model, heap.Valid(),
                kernelSpace, space)
    {
      hide Represents, U32, U64, Owned, Sound, InMemory, KeepsUsed, FreeIfLive, HeapAllocator.FreesCleanly,
        HeapAllocator.OthersKept;
      if space == 0 { return; }
      if space == kernelSpace { return; }
      ghost var h, m := heap.model, heap.mem[..];
      DescriptorInMemory(m, h, heap.freeList, space);
      var count := heap.GetU32(space + 8);
      if count > 1 {
        heap.PutU32(space + 8, count - 1);
        DoubleWordKept(m, heap.mem[..], space);
        HeapAllocator.WordKept(m, heap.mem[..], space + 12);
        PayloadWrite(m, heap.mem[..], h, heap.freeList, space - HEADER);
        PayloadOthersKept(m, heap.mem[..], h, heap.freeList, space - HEADER);
        return;
      }
      heap.FreeBlock(space - HEADER);
    }
  }

  lemma RoomForDescriptor(h: Heap)
    requires Sound(h) && Listed(h) && HeapModel.Alloc(h, DESCRIPTOR).1 != 0
    ensures HasDescriptor(HeapModel.Alloc(h, DESCRIPTOR).0, HeapModel.Alloc(h, DESCRIPTOR).1)
    ensures HeapModel.Alloc(h, DESCRIPTOR).1 > HEADER
  {
    hide HeapModel.Alloc, BlocksOk, ListOk, Aligned, AlignUp;
    AllocLaw(h, DESCRIPTOR);
    AllocRoom(h, DESCRIPTOR);
  }

  /** A block just allocated without lost slack on a tiled heap can be given back. */
  lemma CleanAfterAlloc(m: seq<byte>, h: Heap, n: u64)
    requires Sound(h) && Listed(h) && HeapModel.Alloc(h, n).1 != 0
    requires Sound(HeapModel.Alloc(h, n).0) && InMemory(m, HeapModel.Alloc(h, n).0)
    requires Live(HeapModel.Alloc(h, n).0, HeapModel.Alloc(h, n).1)
    ensures Tiled(h) && LostSlack(h, n) == 0 ==>
              HeapAllocator.FreesCleanly(m, HeapModel.Alloc(h, n).0, HeapModel.Alloc(h, n).1)
  {
    hide HeapModel.Alloc, BlocksOk, ListOk, Owned, LostSlack;
    AllocTiling(h, n);
  }

  lemma NoRoom(s: PT.State, kernel: nat, h: Heap, m: seq<byte>)
    requires Listed(h) && HeapModel.Alloc(h, DESCRIPTOR).1 == 0
    ensures CreateOutcome(s, s, kernel, h, h, m, m, true, 0)
  {
    hide HeapModel.Alloc, AddressSpaces.CreateSpace;
    NothingChanged(m, h);
  }

  lemma NoFrame(s: PT.State, kernel: nat, h: Heap, h': Heap, m: seq<byte>, m': seq<byte>, heapOk: bool)
    requires Listed(h) && HeapModel.Alloc(h, DESCRIPTOR).1 != 0
    requires AddressSpaces.CreateSpace(s, kernel).1 == 0 && KeepsUsed(m, m', h)
    requires HeapAllocator.FreesCleanly(m, HeapModel.Alloc(h, DESCRIPTOR).0, HeapModel.Alloc(h, DESCRIPTOR).1) ==>
               heapOk && h' == FreeIfLive(HeapModel.Alloc(h, DESCRIPTOR).0, HeapModel.Alloc(h, DESCRIPTOR).1)
    ensures CreateOutcome(s, AddressSpaces.CreateSpace(s, kernel).0, kernel, h, h', m, m', heapOk, 0)
  {
    hide HeapModel.Alloc, AddressSpaces.CreateSpace, KeepsUsed, HeapAllocator.FreesCleanly, FreeIfLive;
  }

  lemma Made(s: PT.State, kernel: nat, h: Heap, m: seq<byte>, m': seq<byte>)
    requires Listed(h) && AddressSpaces.CreateSpace(s, kernel).1 != 0 && KeepsUsed(m, m', h)
    requires var (h1, p) := HeapModel.Alloc(h, DESCRIPTOR);
             p != 0 && HasDescriptor(h1, p) && IsDescriptor(m', p, AddressSpaces.CreateSpace(s, kernel).1, 1, 0)
    ensures CreateOutcome(s, AddressSpaces.CreateSpace(s, kernel).0, kernel, h, HeapModel.Alloc(h, DESCRIPTOR).0,
              m, m', true, HeapModel.Alloc(h, DESCRIPTOR).1)
  {
    hide HeapModel.Alloc, AddressSpaces.CreateSpace, KeepsUsed, Tiled, LostSlack, FreeIfLive, HasDescriptor,
      IsDescriptor;
  }

  lemma RootIsWord(s: PT.State, kernel: nat)
    requires PT.Inv(s) && PT.IsRoot(s, kernel)
    ensures AddressSpaces.CreateSpace(s, kernel).1 < TWO_64
  {
    AddressSpaces.CreateSpaceLaw(s, kernel);
  }

  /** The allocation keeps what was in use, and later changes to the new block alone keep it still. */
  lemma KeptThroughout(m: seq<byte>, m1: seq<byte>, m2: seq<byte>, h: Heap, a: nat)
    requires Sound(h) && Listed(h) && HeapModel.Alloc(h, DESCRIPTOR).1 == a + HEADER
    requires KeepsUsed(m, m1, h) && HeapAllocator.OthersKept(m1, m2, HeapModel.Alloc(h, DESCRIPTOR).0, a)
    ensures KeepsUsed(m, m2, h)
  {
    hide HeapModel.Alloc, BlocksOk, ListOk, Aligned, AlignUp;
    AllocLaw(h, DESCRIPTOR);
    AllocOwned(h, DESCRIPTOR);
    var h1 := HeapModel.Alloc(h, DESCRIPTOR).0;
    HeapAllocator.ReleaseOwned(h1, a);
    HeapAllocator.ReleaseKeepsSize(h1, a);
    hide Release;
    HeapAllocator.KeepsFewer(m1, m2, Release(h1, a), h);
    KeepsTwice(m, m1, m2, h);
  }

  lemma DescriptorInMemory(m: seq<byte>, h: Heap, head: nat, p: nat)
    requires Represents(m, h, head) && HasDescriptor(h, p)
    ensures HEADER <= p && p + DESCRIPTOR <= EndOf(h, p - HEADER) <= |m|
  {
    hide HeadersOk, LinksOk, ListOk, Aligned;
  }

  lemma DoubleWordKept(m: seq<byte>, m': seq<byte>, a: nat)
    requires a + 8 <= |m| == |m'| && forall x :: a <= x < a + 8 ==> m'[x] == m[x]
    ensures U64(m', a) == U64(m, a)
  {
  }

  /** Writing into the payload of a used block changes no byte that is not the block's. */
  lemma PayloadOthersKept(m: seq<byte>, m': seq<byte>, h: Heap, head: nat, a: nat)
    requires Represents(m, h, head) && a in h.blocks && !h.blocks[a].free && |m'| == |m|
    requires forall x :: 0 <= x < |m| && !(a + 32 <= x < EndOf(h, a)) ==> m'[x] == m[x]
    ensures HeapAllocator.OthersKept(m, m', h, a)
  {
    hide HeadersOk, LinksOk, ListOk, Aligned;
    forall b | b in h.blocks && !h.blocks[b].free && b != a ensures Agree(m, m', b, EndOf(h, b)) { Apart(h, b, a); }
    forall x | 0 <= x < |m| && !Owned(Release(h, a), x) ensures m'[x]
        == m[x] { HeapAllocator.ReleaseOwned(h, a); NotInBlock(h, a, x); }
  }
}
