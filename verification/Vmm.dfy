/** The page-table manager of kernel/mm/vmm.c, over physical memory and the frame allocator. */
module Vmm {
  import opened Bits
  import opened Pte
  import PT = PageTables
  import Mapping
  import AddressSpaces
  import opened BootMap
  import Frames
  import MemoryMap
  import Pmm

  class PageTableManager {
    /** Physical memory by page address. */
    var ram: PT.Memory
    const pmm: Pmm.FrameAllocator
    var kernelPml4: nat
    ghost var tables: map<nat, PT.Label>

    ghost function State(): PT.State
      reads this, pmm, pmm.bitmap
      requires pmm.Shaped()
    {
      PT.State(ram, pmm.ThePool(), tables)
    }

    ghost predicate Valid()
      reads this, pmm, pmm.bitmap
    {
      pmm.Valid() && PT.Inv(State())
    }

    /** Every page of the cover is backed by memory; there are no tables yet. */
    constructor (memory: PT.Memory, allocator: Pmm.FrameAllocator)
      requires allocator.Valid()
      requires forall a :: Frames.Covered(allocator.ThePool(), a) ==> a in memory && |memory[a]| == PT.ENTRIES
      ensures Valid() && pmm == allocator && ram == memory && tables == map[] && kernelPml4 == 0
    {
      ram := memory;
      pmm := allocator;
      kernelPml4 := 0;
      tables := map[];
    }

    method AllocTable(ghost l: PT.Label) returns (phys: nat)
      requires pmm.Valid()
      modifies this`ram, this`tables, pmm`freePages, pmm.bitmap
      ensures pmm.Valid() && (State(), phys) == PT.AllocTable(old(State()), l)
    {
      phys := pmm.AllocPage();
      if phys == 0 { return; }
      ram := ram[phys := PT.Zeros()];
      tables := tables[phys := l];
    }

    /** The table that entry i of t links to, created if the entry is empty; 0 when no frame is left. */
    method GetOrCreateTable(t: nat, i: nat) returns (phys: nat)
      requires pmm.Valid()
      requires t in ram && |ram[t]| == PT.ENTRIES && i < PT.ENTRIES
      modifies this`ram, this`tables, pmm`freePages, pmm.bitmap
      ensures pmm.Valid() && (State(), phys) == PT.GetOrCreateTable(old(State()), t, i)
    {
      if And(ram[t][i], PRESENT) != 0 { return And(ram[t][i], ADDR_MASK); }
      ghost var s := State();
      phys := AllocTable(PT.ChildLabel(PT.LabelOf(s, t), i, Frames.AllocPage(s.pool).1));
      if phys == 0 { return; }
      var page: seq<u64> := ram[t][i := PT.LinkEntry64(phys)];
      ram := ram[t := page];
    }

    method Map(root: nat, v: u64, p: u64, flags: u64) returns (r: int)
      requires Valid() && (root == 0 || PT.IsRoot(State(), root))
      modifies this`ram, this`tables, pmm`freePages, pmm.bitmap
      ensures Valid() && (State(), r) == Mapping.MapPage(old(State()), root, v, p, flags)
      ensures Mapping.MapOutcome(old(State()), State(), r, root, v, p, flags)
      ensures forall x :: PT.IsRoot(old(State()), x) ==> PT.IsRoot(State(), x)
    {
      hide PT.Inv, PT.GetOrCreateTable, PT.SameTranslations, PT.SameSharing, PT.FramesGrew, PT.TablesGrew,
        Mapping.Rewrote;
      ghost var s := State();
      Mapping.MapLaw(s, root, v, p, flags);
      if root == 0 { return -1; }
      Mapping.WalkOrCreatePages(s, root, v);
      if v % 4096 != 0 || p % 4096 != 0 { return -1; }
      var pdpt := GetOrCreateTable(root, Pml4Index(v));
      if pdpt == 0 { return -1; }
      var pd := GetOrCreateTable(pdpt, PdptIndex(v));
      if pd == 0 { return -1; }
      var pt := GetOrCreateTable(pd, PdIndex(v));
      if pt == 0 { return -1; }
      var page: seq<u64> := ram[pt][PtIndex(v) := LeafEntry(p, flags)];
      ram := ram[pt := page];
      r := 0;
    }

    method MapRange(root: nat, v: u64, p: u64, n: nat, flags: u64) returns (r: int)
      requires Valid() && (root == 0 || PT.IsRoot(State(), root))
      modifies this`ram, this`tables, pmm`freePages, pmm.bitmap
      ensures Valid() && (root == 0 || PT.IsRoot(State(), root))
      ensures (State(), r) == AddressSpaces.MapRange(old(State()), root, v, p, n, flags)
    {
      hide PT.Inv, PT.SameTranslations, PT.SameSharing, PT.FramesGrew, PT.TablesGrew, PT.IsRoot, Mapping.MapOutcome,
        Mapping.MapPage, Mapping.Missing;
      ghost var s := State();
      var i := 0;
      while i < n
        invariant 0 <= i <= n && Valid() && (root == 0 || PT.IsRoot(State(), root))
        invariant (State(), 0) == AddressSpaces.MapRange(s, root, v, p, i, flags)
      {
        r := Map(root, AddressSpaces.PageOf(v, i), AddressSpaces.PageOf(p, i), flags);
        if r != 0 {
          AddressSpaces.MapRangeStops(s, root, v, p, i + 1, n, flags);
          return;
        }
        i := i + 1;
      }
      r := 0;
    }

    method Unmap(root: nat, v: u64) returns (r: int)
      requires Valid() && (root == 0 || PT.IsRoot(State(), root))
      modifies this`ram
      ensures Valid() && (State(), r) == Mapping.UnmapPage(old(State()), root, v)
    {
      hide PT.Inv, PT.SameSharing, PT.FramesGrew, Mapping.Rewrote, Or, And;
      ghost var s := State();
      Mapping.UnmapLaw(s, root, v);
      if root == 0 { return -1; }
      if v % 4096 != 0 { return -1; }
      Mapping.WalkPages(s, root, v);
      var e4 := ram[root][Pml4Index(v)];
      if And(e4, PRESENT) == 0 { return -1; }
      var pdpt := And(e4, ADDR_MASK);
      var e3 := ram[pdpt][PdptIndex(v)];
      if And(e3, PRESENT) == 0 { return -1; }
      var pd := And(e3, ADDR_MASK);
      var e2 := ram[pd][PdIndex(v)];
      if And(e2, PRESENT) == 0 { return -1; }
      var pt := And(e2, ADDR_MASK);
      var page: seq<u64> := ram[pt][PtIndex(v) := 0];
      ram := ram[pt := page];
      r := 0;
    }

    method GetPhys(root: nat, v: u64) returns (phys: nat)
      requires Valid() && (root == 0 || PT.IsRoot(State(), root))
      ensures phys == Mapping.GetPhys(State(), root, v)
    {
      hide PT.Inv, Or, And;
      if root == 0 { return 0; }
      Mapping.WalkPages(State(), root, v);
      var e4 := ram[root][Pml4Index(v)];
      if And(e4, PRESENT) == 0 { return 0; }
      var pdpt := And(e4, ADDR_MASK);
      var e3 := ram[pdpt][PdptIndex(v)];
      if And(e3, PRESENT) == 0 { return 0; }
      var pd := And(e3, ADDR_MASK);
      var e2 := ram[pd][PdIndex(v)];
      if And(e2, HUGE) != 0 {
        return And(e2, 0x000F_FFFF_FFE0_0000) + v % 0x20_0000;
      }
      if And(e2, PRESENT) == 0 { return 0; }
      var pt := And(e2, ADDR_MASK);
      var e1 := ram[pt][PtIndex(v)];
      if And(e1, PRESENT) == 0 { return 0; }
      phys := Or(And(e1, ADDR_MASK), v % 4096);
    }

    /** The loop of vmm_create_address_space: the 512 entries of src, one by one. */
    method CopyEntries(dst: nat, src: nat)
      requires dst in ram && src in ram && dst != src && |ram[dst]| == |ram[src]| == PT.ENTRIES
      modifies this`ram
      ensures ram == old(ram)[dst := old(ram)[src]]
    {
      ghost var a := ram;
      var i := 0;
      while i < PT.ENTRIES
        invariant 0 <= i <= PT.ENTRIES
        invariant ram.Keys == a.Keys && |ram[dst]| == PT.ENTRIES
        invariant forall t :: t in a && t != dst ==> ram[t] == a[t]
        invariant forall j :: 0 <= j < i ==> ram[dst][j] == a[src][j]
      {
        var page: seq<u64> := ram[dst][i := ram[src][i]];
        ram := ram[dst := page];
        i := i + 1;
      }
      assert ram[dst] == a[src];
      assert ram == a[dst := a[src]];
    }

    /** The table part of vmm_create_address_space: a PML4 with the kernel's entries copied one by one. */
    method CreatePml4() returns (root: nat)
      requires Valid() && PT.IsRoot(State(), kernelPml4)
      modifies this`ram, this`tables, pmm`freePages, pmm.bitmap
      ensures Valid() && (State(), root) == AddressSpaces.CreateSpace(old(State()), kernelPml4)
    {
      hide PT.Inv, PT.SameTranslations, PT.SameSharing, PT.FramesGrew, Frames.AllocPage, AddressSpaces.Copied;
      ghost var s := State();
      AddressSpaces.CreateSpaceLaw(s, kernelPml4);
      NewPml4(s, kernelPml4);
      root := AllocTable(PT.ROOT);
      if root == 0 { return; }
      CopyEntries(root, kernelPml4);
    }

    // ----- vmm_init -----

    /** The identity loops of vmm_init (kernel, framebuffer); failures are ignored. */
    method MapIdentity(start: nat, n: nat, flags: u64)
      requires Valid() && PT.IsRoot(State(), kernelPml4) && start + n * 4096 <= TWO_64
      modifies this`ram, this`tables, pmm`freePages, pmm.bitmap
      ensures Valid() && PT.IsRoot(State(), kernelPml4)
      ensures State() == MapAll(old(State()), kernelPml4, IdentityPages(start, n, flags))
    {
      hide PT.Inv, PT.SameTranslations, PT.SameSharing, PT.FramesGrew, PT.TablesGrew, PT.IsRoot, Mapping.MapOutcome,
        Mapping.MapPage, Mapping.Missing;
      ghost var s := State();
      var i := 0;
      while i < n
        invariant 0 <= i <= n && Valid() && PT.IsRoot(State(), kernelPml4)
        invariant State() == MapAll(s, kernelPml4, IdentityPages(start, i, flags))
      {
        var addr: u64 := start + i * 4096;
        MapAllStep(s, kernelPml4, IdentityPages(start, i, flags), Identity(addr, flags));
        assert IdentityPages(start, i + 1, flags) == IdentityPages(start, i, flags) + [Identity(addr, flags)];
        var r := Map(kernelPml4, addr, addr, flags);
        i := i + 1;
      }
    }

    /** The loop of map_higher_half. */
    method MapHigherHalf(start: nat, n: nat, flags: u64)
      requires Valid() && PT.IsRoot(State(), kernelPml4) && start + n * 4096 <= TWO_64
      modifies this`ram, this`tables, pmm`freePages, pmm.bitmap
      ensures Valid() && PT.IsRoot(State(), kernelPml4)
      ensures State() == MapAll(old(State()), kernelPml4, HigherHalfPages(start, n, flags))
    {
      hide PT.Inv, PT.SameTranslations, PT.SameSharing, PT.FramesGrew, PT.TablesGrew, PT.IsRoot, Mapping.MapOutcome,
        Mapping.MapPage, Mapping.Missing;
      ghost var s := State();
      var i := 0;
      while i < n
        invariant 0 <= i <= n && Valid() && PT.IsRoot(State(), kernelPml4)
        invariant State() == MapAll(s, kernelPml4, HigherHalfPages(start, i, flags))
      {
        var phys: u64 := start + i * 4096;
        MapAllStep(s, kernelPml4, HigherHalfPages(start, i, flags), HigherHalf(phys, flags));
        assert HigherHalfPages(start, i + 1, flags) == HigherHalfPages(start, i, flags) + [HigherHalf(phys, flags)];
        var r := Map(kernelPml4, (KERNEL_VIRT_BASE + phys) % TWO_64, phys, flags);
        i := i + 1;
      }
    }

    /** The inner RAM loop: each page of a usable region, at both addresses. */
    method MapRegion(base: nat, n: nat)
      requires Valid() && PT.IsRoot(State(), kernelPml4) && base + n * 4096 <= TWO_64
      modifies this`ram, this`tables, pmm`freePages, pmm.bitmap
      ensures Valid() && PT.IsRoot(State(), kernelPml4)
      ensures State() == MapAll(old(State()), kernelPml4, RamPages(base, n))
    {
      hide PT.Inv, PT.SameTranslations, PT.SameSharing, PT.FramesGrew, PT.TablesGrew, PT.IsRoot, Mapping.MapOutcome,
        Mapping.MapPage, Mapping.Missing;
      ghost var s := State();
      var j := 0;
      while j < n
        invariant 0 <= j <= n && Valid() && PT.IsRoot(State(), kernelPml4)
        invariant State() == MapAll(s, kernelPml4, RamPages(base, j))
      {
        var phys: u64 := base + j * 4096;
        hide RamPages;
        RamPagesStep(s, kernelPml4, base, j, phys);
        var r := Map(kernelPml4, phys, phys, KERNEL_RW);
        r := Map(kernelPml4, (KERNEL_VIRT_BASE + phys) % TWO_64, phys, KERNEL_RW);
        j := j + 1;
      }
    }

    method MapRam()
      requires Valid() && PT.IsRoot(State(), kernelPml4) && RegionsInRange(pmm.regions)
      modifies this`ram, this`tables, pmm`freePages, pmm.bitmap
      ensures Valid() && PT.IsRoot(State(), kernelPml4)
      ensures State() == MapAll(old(State()), kernelPml4, RamPlan(pmm.regions))
    {
      hide PT.Inv, RamPages, PT.IsRoot;
      ghost var s := State();
      var i := 0;
      while i < |pmm.regions|
        invariant 0 <= i <= |pmm.regions| && Valid() && PT.IsRoot(State(), kernelPml4)
        invariant State() == MapAll(s, kernelPml4, RamPlan(pmm.regions[..i]))
      {
        var r := pmm.regions[i];
        assert pmm.regions[..i + 1][..i] == pmm.regions[..i];
        MapAllConcat(s, kernelPml4, RamPlan(pmm.regions[..i]), RegionPages(r));
        if r.flags == MemoryMap.USABLE { MapRegion(r.base, r.pages); }
        i := i + 1;
      }
      assert pmm.regions[..|pmm.regions|] == pmm.regions;
    }

    /** The mapping loops of vmm_init, in order. */
    method MapLayout(ghost l: Layout, kstart: nat, kpages: nat, fstart: nat, fpages: nat, hstart: nat, hpages: nat)
      requires Valid() && PT.IsRoot(State(), kernelPml4) && ValidLayout(l)
      requires l == Layout(kstart, kpages, pmm.regions, fstart, fpages, hstart, hpages)
      modifies this`ram, this`tables, pmm`freePages, pmm.bitmap
      ensures State() == MapAll(old(State()), kernelPml4, Plan(l))
      ensures Valid() && PT.IsRoot(State(), kernelPml4)
    {
      hide PT.Inv, PT.IsRoot, IdentityPages, HigherHalfPages, RamPlan, MapAll;
      ghost var s0 := State();
      MapIdentity(kstart, kpages, KERNEL_RW);
      MapRam();
      MapIdentity(fstart, fpages, MMIO);
      MapHigherHalf(kstart, kpages, KERNEL_RW);
      MapHigherHalf(hstart, hpages, KERNEL_RW);
      PlanInOrder(s0, kernelPml4, l);
    }

    /** The last part of vmm_init: both self-checks. */
    method CheckSelf(self: u64) returns (ok: bool)
      requires Valid() && PT.IsRoot(State(), kernelPml4)
      ensures ok <==> SelfCheck(State(), kernelPml4, self)
    {
      hide PT.Inv, PT.IsRoot, Mapping.GetPhys;
      var phys := GetPhys(kernelPml4, self);
      if phys != self { return false; }
      phys := GetPhys(kernelPml4, (KERNEL_VIRT_BASE + self) % TWO_64);
      ok := phys == self;
    }

    /** vmm_init up to the switch of CR3; false where the source panics. */
    method Init(kernelStart: nat, kernelEnd: nat, fbBase: nat, fbSize: nat, heapStart: nat, heapEnd: nat, self: u64)
      returns (ok: bool)
      requires kernelStart <= kernelEnd < TWO_64 - 4096 && fbBase + fbSize < TWO_64 - 4096
      requires heapStart < TWO_64 && heapEnd < TWO_64 - 4096
      requires RegionsInRange(pmm.regions)
      requires Valid()
      modifies this`ram, this`tables, this`kernelPml4, pmm`freePages, pmm.bitmap
      ensures InitOutcome(old(State()), State(), kernelPml4,
                LayoutOf(kernelStart, kernelEnd, pmm.regions, fbBase, fbSize, heapStart, heapEnd), self, ok)
      ensures Valid()
    {
      hide PT.Inv, PT.IsRoot, MapAll, Plan, PT.AllocTable, PT.FramesGrew, SelfCheck;
      ghost var l := LayoutOf(kernelStart, kernelEnd, pmm.regions, fbBase, fbSize, heapStart, heapEnd);
      LayoutInRange(kernelStart, kernelEnd, pmm.regions, fbBase, fbSize, heapStart, heapEnd);
      FreshRootLaw(State());
      var pml4 := AllocTable(PT.ROOT);
      if pml4 == 0 { return false; }
      kernelPml4 := pml4;
      var fpages, hpages := 0, 0;
      if fbBase != 0 { fpages := PageCount(fbBase, fbBase + fbSize); }
      if heapStart != 0 && heapEnd > heapStart { hpages := PageCount(heapStart, heapEnd); }
      MapLayout(l, MemoryMap.PageDown(kernelStart), PageCount(kernelStart, kernelEnd), MemoryMap.PageDown(fbBase),
        fpages, MemoryMap.PageDown(heapStart), hpages);
      ok := CheckSelf(self);
    }
  }

  /** The new PML4 and the kernel's are different pages of 512 words. */
  lemma NewPml4(s: PT.State, kernel: nat)
    requires PT.Inv(s) && PT.IsRoot(s, kernel)
    ensures kernel in s.mem && |s.mem[kernel]| == PT.ENTRIES
    ensures PT.AllocTable(s, PT.ROOT).1 != 0 ==> PT.AllocTable(s, PT.ROOT).1 != kernel
  {
    hide Frames.CountFree, Frames.AllocPage, PT.LinkOk;
    assert PT.TableOk(s, kernel);
    Frames.AllocPageLaw(s.pool);
  }

  lemma LayoutInRange(kernelStart: nat, kernelEnd: nat, regions: seq<MemoryMap.Region>, fbBase: nat, fbSize: nat,
      heapStart: nat, heapEnd: nat)
    requires kernelStart <= kernelEnd < TWO_64 - 4096 && fbBase + fbSize < TWO_64 - 4096
    requires heapStart < TWO_64 && heapEnd < TWO_64 - 4096 && RegionsInRange(regions)
    ensures ValidLayout(LayoutOf(kernelStart, kernelEnd, regions, fbBase, fbSize, heapStart, heapEnd))
  {
    PageCountFits(kernelStart, kernelEnd);
    PageCountFits(fbBase, fbBase + fbSize);
    if heapEnd > heapStart { PageCountFits(heapStart, heapEnd); }
  }

  lemma PageCountFits(start: nat, end: nat)
    requires start <= end < TWO_64 - 4096
    ensures MemoryMap.PageDown(start) % 4096 == 0
    ensures MemoryMap.PageDown(start) + PageCount(start, end) * 4096 == MemoryMap.PageUp(end) <= TWO_64
  {
  }

  /** Carrying out the five parts of the plan one after the other is carrying out the plan. */
  lemma PlanInOrder(s: PT.State, root: nat, l: Layout)
    requires ValidLayout(l)
    ensures MapAll(s, root, Plan(l)) ==
            MapAll(MapAll(MapAll(MapAll(MapAll(s, root,
              IdentityPages(l.kstart, l.kpages, KERNEL_RW)), root,
              RamPlan(l.regions)), root,
              IdentityPages(l.fstart, l.fpages, MMIO)), root,
              HigherHalfPages(l.kstart, l.kpages, KERNEL_RW)), root,
              HigherHalfPages(l.hstart, l.hpages, KERNEL_RW))
  {
    hide MapAll, IdentityPages, RamPlan, HigherHalfPages;
    var a, b := IdentityPages(l.kstart, l.kpages, KERNEL_RW), RamPlan(l.regions);
    var c, d := IdentityPages(l.fstart, l.fpages, MMIO), HigherHalfPages(l.kstart, l.kpages, KERNEL_RW);
    MapAllConcat(s, root, a, b);
    MapAllConcat(s, root, a + b, c);
    MapAllConcat(s, root, a + b + c, d);
    MapAllConcat(s, root, a + b + c + d, HigherHalfPages(l.hstart, l.hpages, KERNEL_RW));
  }
}
