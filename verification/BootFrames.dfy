/** What vmm_init leaves when the frames for its tables run out: it ignores failed maps and goes on. */
module BootFrames {
  import opened Bits
  import opened Frames
  import opened Pte
  import opened PageTables
  import opened Mapping
  import opened BootMap
  import opened BootTables
  import opened BootFinal
  import MemoryMap

  // ----- One map without frames -----

  /** Any call of vmm_map only adds links. */
  lemma MapLinksGrew(s: State, root: nat, v: u64, p: u64, flags: u64)
    requires Inv(s) && IsRoot(s, root)
    ensures LinksGrew(s, MapPage(s, root, v, p, flags).0)
  {
    hide Child, CountFree, Pml4Index, PdptIndex, PdIndex, PtIndex, Inv, WalkOrCreate, PtOf, LeafEntry, LinksGrew,
      Missing, Grew;
    if MapPage(s, root, v, p, flags).1 == 0 {
      MapGrew(s, root, v, p, flags);
    } else {
      WalkCreateGrew(s, root, v);
      GrewNothing(s);
    }
  }

  lemma GrewNothing(s: State)
    requires Inv(s)
    ensures LinksGrew(s, s)
  {
    hide Child, TableOk;
    NullNoTable(s);
  }

  /** A walk that cannot be completed has taken the last frame, and still has no page table. */
  lemma WalkFails(s: State, root: nat, v: u64)
    requires Inv(s) && IsRoot(s, root) && WalkOrCreate(s, root, v).1 == 0
    ensures var s' := WalkOrCreate(s, root, v).0;
            CountFree(s'.pool.used) == 0 && PtOf(s'.mem, root, v) == 0
  {
    hide CountFree, Pml4Index, PdptIndex, PdIndex, Grew, Inv, GetOrCreateTable, OnPath, Entry, Present, Frame;
    ChildOfNull(s.mem);
    WalkTyped(s, root, v);
    GetOrCreateLaw(s, root, Pml4Index(v), root, v);
    var (s1, pdpt) := GetOrCreateTable(s, root, Pml4Index(v));
    if pdpt != 0 {
      GrewParts(s, s1, root, v);
      WalkTyped(s1, root, v);
      ChildOfNull(s1.mem);
      GetOrCreateLaw(s1, pdpt, PdptIndex(v), root, v);
      var (s2, pd) := GetOrCreateTable(s1, pdpt, PdptIndex(v));
      if pd != 0 {
        GrewParts(s1, s2, root, v);
        WalkTyped(s2, root, v);
        StillOnWalk(s1, s2, root, v);
        GetOrCreateLaw(s2, pd, PdIndex(v), root, v);
      }
    }
  }

  /** A page table on a walk stays there, and none appears when no frame is free. */
  lemma WalksKept(s: State, s': State, root: nat, w: nat)
    requires Inv(s) && Inv(s') && IsRoot(s, root) && IsRoot(s', root) && LinksGrew(s, s') && FramesGrew(s, s')
    ensures PtOf(s.mem, root, w) != 0 ==> PtOf(s'.mem, root, w) == PtOf(s.mem, root, w)
    ensures CountFree(s.pool.used) == 0 ==>
              PtOf(s'.mem, root, w) == PtOf(s.mem, root, w) && CountFree(s'.pool.used) == 0
  {
    hide Child, CountFree, Pml4Index, PdptIndex, PdIndex, Inv;
    WalkTyped(s, root, w);
    WalkTyped(s', root, w);
    NullNoTable(s);
    ChildOfNull(s.mem);
    ChildOfNull(s'.mem);
    if CountFree(s.pool.used) == 0 { NoNewTables(s, s'); }
  }

  lemma NoNewTables(s: State, s': State)
    requires LinksGrew(s, s') && FramesGrew(s, s') && CountFree(s.pool.used) == 0
    ensures CountFree(s'.pool.used) == 0 && s'.tables.Keys == s.tables.Keys
  {
    hide Child, CountFree;
    var more := s'.tables.Keys - s.tables.Keys;
    assert s'.tables.Keys == s.tables.Keys + more;
    assert |more| == 0;
  }

  /** One request of a plan: what it does to the page of w, and to the frames. */
  lemma OneMap(s: State, root: nat, q: Request, w: nat)
    requires Inv(s) && IsRoot(s, root) && q.v % 4096 == 0 && q.p % 4096 == 0
    ensures var (s', r) := MapPage(s, root, q.v, q.p, q.flags);
            && Inv(s') && IsRoot(s', root)
            && (PtOf(s.mem, root, w) != 0 ==> PtOf(s'.mem, root, w) == PtOf(s.mem, root, w))
            && (CountFree(s.pool.used) == 0 ==>
                  PtOf(s'.mem, root, w) == PtOf(s.mem, root, w) && CountFree(s'.pool.used) == 0)
            && (r != 0 ==> CountFree(s'.pool.used) == 0 && PtOf(s'.mem, root, q.v) == 0 && PtOf(s.mem, root, q.v) == 0)
            && (r == 0 ==> PtOf(s'.mem, root, q.v) != 0)
            && Lookup(s'.mem, root, w) ==
               if r == 0 && Vpn(q.v) == Vpn(w) then Some(LeafEntry(q.p, q.flags)) else Lookup(s.mem, root, w)
  {
    hide Child, CountFree, Pml4Index, PdptIndex, PdIndex, PtIndex, Inv, WalkOrCreate, PtOf, Lookup, LeafEntry,
      LinksGrew, FramesGrew, TablesGrew, SameSharing, Vpn;
    var (s', r) := MapPage(s, root, q.v, q.p, q.flags);
    MapLaw(s, root, q.v, q.p, q.flags);
    MapLinksGrew(s, root, q.v, q.p, q.flags);
    WalksKept(s, s', root, w);
    WalkLinks(s, root, q.v);
    if r == 0 {
      MapGrew(s, root, q.v, q.p, q.flags);
    } else {
      WalkFails(s, root, q.v);
      WalksKept(s, s', root, q.v);
    }
  }

  // ----- All requests -----

  /**
   The page of w holds what its last request asked for, or it has no page table; asked for in vain, no frame is
   free.
   */
  ghost predicate AllOrNone(s: State, root: nat, reqs: seq<Request>, w: nat) {
    && Inv(s) && IsRoot(s, root)
    && Lookup(s.mem, root, w) == (if PtOf(s.mem, root, w) != 0 then PlanCell(reqs, w) else None)
    && (PtOf(s.mem, root, w) == 0 && PlanCell(reqs, w).Some? ==> CountFree(s.pool.used) == 0)
  }

  lemma SamePageWalk(mem: Memory, root: nat, v: nat, w: nat)
    requires Vpn(v) == Vpn(w)
    ensures PtOf(mem, root, v) == PtOf(mem, root, w)
  {
    hide Child, Pml4Index, PdptIndex, PdIndex, PtIndex, Vpn;
    SamePage(v, w);
  }

  lemma AllOrNoneStep(s: State, root: nat, reqs: seq<Request>, q: Request, w: nat)
    requires AllOrNone(s, root, reqs, w) && q.v % 4096 == 0 && q.p % 4096 == 0
    ensures AllOrNone(MapPage(s, root, q.v, q.p, q.flags).0, root, reqs + [q], w)
  {
    hide Child, CountFree, Inv, MapPage, PtOf, LeafEntry, Vpn;
    var s' := MapPage(s, root, q.v, q.p, q.flags).0;
    assert (reqs + [q])[..|reqs|] == reqs;
    OneMap(s, root, q, w);
    if Vpn(q.v) == Vpn(w) {
      SamePageWalk(s.mem, root, q.v, w);
      SamePageWalk(s'.mem, root, q.v, w);
    }
  }

  /**
   However many frames there are: each page asked for ends with what its last request asked for, or is not
   mapped at all, and then the frames have run out. What succeeded once is never lost.
   */
  lemma {:induction false} MapAllOrNone(s: State, root: nat, reqs: seq<Request>, w: nat)
    requires FreshRoot(s, root) && PageAligned(reqs)
    ensures AllOrNone(MapAll(s, root, reqs), root, reqs, w)
    decreases |reqs|
  {
    hide FreshRoot, AllOrNone, MapPage;
    if reqs == [] {
      NothingAsked(s, root, w);
    } else {
      var n := |reqs| - 1;
      MapAllOrNone(s, root, reqs[..n], w);
      AllOrNoneStep(MapAll(s, root, reqs[..n]), root, reqs[..n], reqs[n], w);
      assert reqs == reqs[..n] + [reqs[n]];
    }
  }

  lemma NothingAsked(s: State, root: nat, w: nat)
    requires FreshRoot(s, root)
    ensures AllOrNone(MapAll(s, root, []), root, [], w)
  {
    hide Child, PtOf, CountFree, Inv, Pml4Index, PdptIndex, PdIndex, Entry;
    EmptyLookup(s, root, w);
  }

  lemma {:induction false} FreshCells(s: State, root: nat, reqs: seq<Request>, w: nat)
    requires FreshRoot(s, root) && PageAligned(reqs) && TablesNeeded(reqs) <= CountFree(s.pool.used)
    ensures Lookup(MapAll(s, root, reqs).mem, root, w) == PlanCell(reqs, w)
  {
    hide FreshRoot, AllMapped, TablesNeeded, CountFree, MapAll, PlanCell, Lookup;
    EnoughFrames(s, root, reqs);
    FreshInv(s, root);
    MapAllLookup(s, root, reqs, w);
    EmptyLookup(s, root, w);
  }

  lemma FreshInv(s: State, root: nat)
    requires FreshRoot(s, root)
    ensures Inv(s) && IsRoot(s, root)
  {
  }

  /** Later requests do not undo that a page has its page table, and give it none once the frames are gone. */
  lemma {:induction false} MapMore(s: State, root: nat, reqs: seq<Request>, w: nat)
    requires Inv(s) && IsRoot(s, root) && PageAligned(reqs)
    ensures var s' := MapAll(s, root, reqs);
            && Inv(s') && IsRoot(s', root)
            && (PtOf(s.mem, root, w) != 0 ==> PtOf(s'.mem, root, w) != 0)
            && (CountFree(s.pool.used) == 0 ==>
                  PtOf(s'.mem, root, w) == PtOf(s.mem, root, w) && CountFree(s'.pool.used) == 0)
    decreases |reqs|
  {
    hide Inv, MapPage, PtOf, CountFree, Lookup, LeafEntry, Vpn;
    if reqs != [] {
      var n := |reqs| - 1;
      MapMore(s, root, reqs[..n], w);
      OneMap(MapAll(s, root, reqs[..n]), root, reqs[n], w);
    }
  }

  lemma Suffix(s: State, root: nat, reqs: seq<Request>, i: nat)
    requires i <= |reqs|
    ensures MapAll(s, root, reqs) == MapAll(MapAll(s, root, reqs[..i]), root, reqs[i..])
  {
    hide MapAll;
    MapAllConcat(s, root, reqs[..i], reqs[i..]);
    assert reqs == reqs[..i] + reqs[i..];
  }

  /** A request that fails leaves its page unmapped to the end. */
  lemma FailedStaysUnmapped(s: State, root: nat, reqs: seq<Request>, i: nat)
    requires FreshRoot(s, root) && PageAligned(reqs) && i < |reqs|
    requires MapPage(MapAll(s, root, reqs[..i]), root, reqs[i].v, reqs[i].p, reqs[i].flags).1 != 0
    ensures PtOf(MapAll(s, root, reqs).mem, root, reqs[i].v) == 0
  {
    hide FreshRoot, MapAll, MapPage, Inv, PtOf, CountFree, Lookup, LeafEntry, Vpn;
    var q := reqs[i];
    FreshInv(s, root);
    MapMore(s, root, reqs[..i], q.v);
    OneMap(MapAll(s, root, reqs[..i]), root, q, q.v);
    MapAllStep(s, root, reqs[..i], q);
    assert reqs[..i + 1] == reqs[..i] + [q];
    MapMore(MapAll(s, root, reqs[..i + 1]), root, reqs[i + 1..], q.v);
    Suffix(s, root, reqs, i + 1);
  }

  /** Every page asked for ends up mapped exactly when there is a frame for each slot the requests touch. */
  lemma EveryPageMapped(s: State, root: nat, reqs: seq<Request>)
    requires FreshRoot(s, root) && PageAligned(reqs)
    ensures (forall q :: q in reqs ==> Lookup(MapAll(s, root, reqs).mem, root, q.v).Some?)
            <==> TablesNeeded(reqs) <= CountFree(s.pool.used)
  {
    hide FreshRoot, MapAll, MapPage, CountFree, TablesNeeded, PlanCell, LeafEntry, Vpn;
    EnoughFrames(s, root, reqs);
    if TablesNeeded(reqs) <= CountFree(s.pool.used) {
      forall q | q in reqs ensures Lookup(MapAll(s, root, reqs).mem, root, q.v).Some? {
        FreshCells(s, root, reqs, q.v);
        var d := PlanCellLaw(reqs, q.v);
      }
    } else {
      var i :| 0 <= i < |reqs| && MapPage(MapAll(s, root, reqs[..i]), root, reqs[i].v, reqs[i].p, reqs[i].flags).1 != 0;
      FailedStaysUnmapped(s, root, reqs, i);
      assert reqs[i] in reqs;
    }
  }

  // ----- vmm_init -----

  /**
   vmm_init with any number of frames: each address has the entry of the closed form, or none and the frames are
   gone.
   */
  lemma FinalMapOrNone(s: State, root: nat, l: Layout, w: u64)
    requires FreshRoot(s, root) && InRange(l)
    ensures PageAt(w) < 0x1_0000_0000_0000
    ensures var s' := MapAll(s, root, Plan(l));
            && Lookup(s'.mem, root, w) == (if PtOf(s'.mem, root, w) != 0 then FinalCell(l, PageAt(w)) else None)
            && (PtOf(s'.mem, root, w) == 0 && FinalCell(l, PageAt(w)).Some? ==> CountFree(s'.pool.used) == 0)
  {
    hide FreshRoot, MapAll, Lookup, PtOf, CountFree, PlanCell, Plan, FinalCell, RegionsBelow, PageAt;
    PlanCellFinal(l, w);
    PlanAligned(l);
    MapAllOrNone(s, root, Plan(l), w);
  }

  /**
   Whatever vmm_init leaves mapped is writable, closed to user code and executable, and uncached exactly where the
   framebuffer is: the processor finds these rights on its whole way to the page.
   */
  lemma BootGrants(s: State, root: nat, l: Layout, w: u64)
    requires FreshRoot(s, root) && InRange(l)
    ensures PageAt(w) < 0x1_0000_0000_0000
    ensures var mem := MapAll(s, root, Plan(l)).mem;
            Lookup(mem, root, w).Some? ==>
              && AllSet(mem, root, w, WRITE_BIT) && !AllSet(mem, root, w, USER_BIT)
              && !AnySet(mem, root, w, NO_EXECUTE_BIT)
              && BootRights(Lookup(mem, root, w).value, DevicePage(l, PageAt(w)))
  {
    hide FreshRoot, Inv, MapAll, Lookup, PtOf, CountFree, Plan, FinalCell, RegionsBelow, PageAt, AllSet, AnySet, Bit,
      DevicePage;
    FinalMapOrNone(s, root, l, w);
    FreshInv(s, root);
    MapAllKeepsInv(s, root, Plan(l));
    if Lookup(MapAll(s, root, Plan(l)).mem, root, w).Some? {
      FinalRights(l, PageAt(w));
      RightsAreLeafs(MapAll(s, root, Plan(l)), root, w);
    }
  }

  lemma PhysOrNone(s: State, root: nat, l: Layout, w: u64)
    requires FreshRoot(s, root) && InRange(l)
    ensures PageAt(w) < 0x1_0000_0000_0000
    ensures var s' := MapAll(s, root, Plan(l));
            GetPhys(s', root, w) ==
            if PtOf(s'.mem, root, w) == 0 then 0
            else match FinalCell(l, PageAt(w)) case None => 0 case Some(e) => Frame(e) + w % 4096
  {
    hide Inv, MapAll, Lookup, GetPhys, Plan, PageAt, FinalCell, Entry, Frame, PtOf, CountFree, RegionsBelow;
    FinalMapOrNone(s, root, l, w);
    MapAllKeepsInv(s, root, Plan(l));
    GetPhysLaw(MapAll(s, root, Plan(l)), root, w);
  }

  /** The frame the closed form gives a page asked for at its own address. */
  lemma OwnCell(l: Layout, a: nat)
    requires InRange(l) && OwnPage(l, a)
    ensures a < IDENTITY_LIMIT && FinalCell(l, a).Some?
    ensures Frame(FinalCell(l, a).value) == if Keeps(l, a) then a else a + GIB_2
  {
    hide Frame, LeafEntry, RamTakes, PageIn, RamHas, RegionsBelow;
    OwnPageBelow(l, a);
    EntryFrame(a);
    if !Keeps(l, a) { TakenBelow(l, a); EntryFrame(a + GIB_2); }
  }

  /** The page that takes a lies 2 GiB above it, in range. */
  lemma TakenBelow(l: Layout, a: nat)
    requires InRange(l) && a < IDENTITY_LIMIT && !Keeps(l, a)
    ensures PageIn(l.kstart, l.kpages, Source(a)) || PageIn(l.hstart, l.hpages, Source(a))
            || RamHas(l.regions, Source(a))
    ensures PageAddress(a + GIB_2)
  {
    if RamTakes(l.regions, a) {
      var i :| 0 <= i < |l.regions| && RegionHas(l.regions[i], Source(a));
      assert RamHas(l.regions, Source(a));
    }
    OwnPageBelow(l, Source(a));
  }

  /** A byte of the kernel page at a passes the first check: its page has a page table and keeps its address. */
  ghost predicate PassesOwn(s: State, root: nat, l: Layout, a: nat, off: nat) {
    if PtOf(s.mem, root, a + off) != 0 then Keeps(l, a) else a + off == 0
  }

  /** ... and the second one: its higher-half page has a page table. */
  ghost predicate PassesHigh(s: State, root: nat, a: nat, off: nat) {
    PtOf(s.mem, root, (KERNEL_VIRT_BASE + a + off) % TWO_64) != 0 || a + off == 0
  }

  /**
   The self-checks of vmm_init with any number of frames: they pass exactly when the two pages looked at got
   their page tables and the first keeps its address. (vmm_get_phys answers 0 for "not mapped", so the byte at
   address 0 would pass unmapped.)
   */
  lemma SelfCheckOrNone(s: State, root: nat, l: Layout, a: nat, off: nat)
    requires FreshRoot(s, root) && InRange(l) && PageIn(l.kstart, l.kpages, a) && off < 4096
    ensures a + off < TWO_64
    ensures var s' := MapAll(s, root, Plan(l));
            SelfCheck(s', root, a + off) <==> PassesOwn(s', root, l, a, off) && PassesHigh(s', root, a, off)
  {
    hide FreshRoot, MapAll, GetPhys, PtOf, FinalCell, Frame, Plan, Keeps, OwnPage, HighPage, GetsHigh, RegionsBelow,
      PageAt, PageIn, LeafEntry, Source;
    KernelPage(l, a);
    OwnPageBelow(l, a);
    OwnCell(l, a);
    OwnAddress(a, off);
    PhysOrNone(s, root, l, a + off);
    FreeToTake(l, a);
    HighAddress(a, off);
    var w := (KERNEL_VIRT_BASE + a + off) % TWO_64;
    HighTakes(l, a, PageAt(w));
    EntryFrame(a);
    PhysOrNone(s, root, l, w);
    assert KERNEL_VIRT_BASE + (a + off) == KERNEL_VIRT_BASE + a + off;
  }

  /**
   vmm_init as a whole, from any well-formed state: it reaches the switch of CR3 exactly when there was a frame
   for the PML4, and the two pages of the self-checks came out as described.
   */
  lemma InitOrNone(s: State, s': State, root: nat, l: Layout, a: nat, off: nat, ok: bool)
    requires Inv(s) && InRange(l) && PageIn(l.kstart, l.kpages, a) && off < 4096 && a + off < TWO_64
    requires InitOutcome(s, s', root, l, a + off, ok)
    ensures ok <==> CountFree(s.pool.used) > 0 && PassesOwn(s', root, l, a, off) && PassesHigh(s', root, a, off)
  {
    hide Inv, FreshRoot, RegionsBelow, MapAll, Plan, SelfCheck, PassesOwn, PassesHigh, PageIn, AllocTable, CountFree;
    FreshRootLaw(s);
    if AllocTable(s, ROOT).1 != 0 { SelfCheckOrNone(AllocTable(s, ROOT).0, root, l, a, off); }
  }

  /**
   With memory below 2 GiB and any number of frames, nothing is mapped but planned pages, each to the frame it
   was planned for, at its own address or at KERNEL_VIRT_BASE above it.
   */
  lemma BootMapSound(s: State, root: nat, l: Layout, w: u64)
    requires FreshRoot(s, root) && LowMemory(l)
    ensures var s' := MapAll(s, root, Plan(l));
            Lookup(s'.mem, root, w).Some? ==>
              exists q :: Planned(l, q) && Vpn(q.v) == Vpn(w) && Frame(Lookup(s'.mem, root, w).value) == q.p &&
                          (q.v == q.p || q.v == KERNEL_VIRT_BASE + q.p)
  {
    hide FreshRoot, Inv, Planned, ValidLayout, MapAll, Lookup, Vpn, Frame, LeafEntry, Plan, PtOf, CountFree,
      RegionsBelow;
    var reqs := Plan(l);
    LowMemoryNoClash(l);
    PlanAligned(l);
    MapAllOrNone(s, root, reqs, w);
    var d := PlanCellLaw(reqs, w);
    if Lookup(MapAll(s, root, reqs).mem, root, w).Some? {
      PlanLaw(l, d);
      PlanProper(l, d);
      ProperEntry(d);
      HigherHalfAddress(if d.p < GIB_2 then d.p else 0, 0);
    }
  }

  // ----- A boot that passes its self-checks with most of RAM unmapped -----

  /** RAM from 1 MiB to 1 GiB, the kernel at its start and the heap behind it, and a framebuffer at 2 GiB. */
  const TIGHT: Layout :=
    Layout(0x10_0000, 16, [MemoryMap.Region(0x10_0000, 0x3_FF00, MemoryMap.CONVENTIONAL_MEMORY, MemoryMap.USABLE)],
      0x8000_0000, 768, 0x11_0000, 256)

  /** The kernel's identity pages, and the first page of RAM at both of its addresses. */
  function TightStart(): seq<Request> {
    IdentityPages(0x10_0000, 16, KERNEL_RW) + [Identity(0x10_0000, KERNEL_RW), HigherHalf(0x10_0000, KERNEL_RW)]
  }

  lemma {:induction false} RamPagesStart(base: nat, n: nat)
    requires n > 0 && base + n * 4096 <= TWO_64
    ensures |RamPages(base, n)| >= 2 && RamPages(base, n)[..2]
            == [Identity(base, KERNEL_RW), HigherHalf(base, KERNEL_RW)]
    decreases n
  {
    hide Identity, HigherHalf;
    if n > 1 {
      RamPagesStart(base, n - 1);
    } else {
      assert RamPages(base, 0) == [];
    }
  }

  lemma TightBegins()
    ensures InRange(TIGHT) && |Plan(TIGHT)| >= 18 && Plan(TIGHT)[..18] == TightStart()
  {
    hide RamPages, HigherHalfPages, Identity, HigherHalf;
    var r := TIGHT.regions[0];
    RamPagesStart(r.base, r.pages);
    assert TIGHT.regions[..0] == [];
    assert RamPlan(TIGHT.regions) == RamPages(r.base, r.pages);
    var k := IdentityPages(0x10_0000, 16, KERNEL_RW);
    assert |k| == 16;
    assert (k + RamPages(r.base, r.pages))[..18] == k + RamPages(r.base, r.pages)[..2];
  }

  /** All of them lie in two slots of each level. */
  lemma TightSlot(q: Request, level: nat)
    requires q in TightStart() && 1 <= level <= 3
    ensures Slot(q.v, level) == 0 || Slot(q.v, level) == HighSlot(level)
  {
    hide Slot, Vpn, IdentityPages;
    IdentityPagesLaw(0x10_0000, 16, KERNEL_RW, q);
    SlotVpn(q.v);
    if q.v == q.p { VpnBelow(q.v); } else { LowVpn(0x10_0000); }
  }

  lemma TightSlots(level: nat)
    requires 1 <= level <= 3
    ensures Slots(TightStart(), level) == {0, HighSlot(level)} && |Slots(TightStart(), level)| == 2
  {
    hide Slot, Slots, IdentityPages;
    var reqs := TightStart();
    forall x | x in Slots(reqs, level) ensures x == 0 || x == HighSlot(level) {
      var q := SlotsOf(reqs, level, x);
      TightSlot(q, level);
    }
    SlotIn(reqs, level, |reqs| - 1);
    SlotIn(reqs, level, |reqs| - 2);
    TightEnds(level);
  }

  lemma TightEnds(level: nat)
    requires 1 <= level <= 3
    ensures var reqs := TightStart();
            |reqs| == 18 && Slot(reqs[16].v, level) == 0 && Slot(reqs[17].v, level) == HighSlot(level) > 0
  {
    hide Slot, Vpn;
    SlotVpn(0x10_0000);
    SlotVpn(KERNEL_VIRT_BASE + 0x10_0000);
    LowVpn(0x10_0000);
  }

  /** With six frames the first requests take them all. */
  lemma TightState(s: State, root: nat)
    requires FreshRoot(s, root) && CountFree(s.pool.used) == 6
    ensures var s1 := MapAll(s, root, TightStart());
            && CountFree(s1.pool.used) == 0
            && PtOf(s1.mem, root, 0x10_0000) != 0 && PtOf(s1.mem, root, KERNEL_VIRT_BASE + 0x10_0000) != 0
            && PtOf(s1.mem, root, 0x20_0000) == 0
  {
    hide FreshRoot, AllMapped, CountFree, MapAll, PtOf, Slot, Slots, Inv;
    TightSlots(1);
    TightSlots(2);
    TightSlots(3);
    TightAligned();
    BuildAll(s, root, TightStart());
    TightEnds(1);
    var s1 := MapAll(s, root, TightStart());
    SlotVpn(0x20_0000);
    VpnBelow(0x20_0000);
    assert TableOf(s1.mem, root, 0x10_0000, 1) != 0;
    assert TableOf(s1.mem, root, KERNEL_VIRT_BASE + 0x10_0000, 1) != 0;
    assert TableOf(s1.mem, root, 0x20_0000, 1) == 0;
  }

  lemma TightAligned()
    ensures PageAligned(TightStart())
  {
  }

  /**
   With seven free frames, one of them for the PML4, vmm_init on this layout reaches the switch of CR3, although
   it leaves usable RAM unmapped: the page at 2 MiB translates to nothing.
   */
  lemma TightPasses(s: State, s': State, root: nat, off: nat, ok: bool)
    requires Inv(s) && CountFree(s.pool.used) == 7 && off < 4096
    requires InitOutcome(s, s', root, TIGHT, 0x10_0000 + off, ok)
    ensures ok && RamHas(TIGHT.regions, 0x20_0000) && Lookup(s'.mem, root, 0x20_0000) == None
  {
    hide Inv, Plan, FreshRoot, AllocTable, MapAll, CountFree, PtOf, SelfCheck, RegionsBelow;
    TightBegins();
    FreshRootLaw(s);
    FirstFrame(s);
    var s0 := AllocTable(s, ROOT).0;
    FreshInv(s0, root);
    TightState(s0, root);
    PlanAligned(TIGHT);
    Suffix(s0, root, Plan(TIGHT), 18);
    var s1, rest := MapAll(s0, root, TightStart()), Plan(TIGHT)[18..];
    MapAllKeepsInv(s0, root, TightStart());
    MapMore(s1, root, rest, 0x10_0000);
    MapMore(s1, root, rest, KERNEL_VIRT_BASE + 0x10_0000);
    MapMore(s1, root, rest, 0x20_0000);
    assert RegionHas(TIGHT.regions[0], 0x20_0000);
    TightKeeps(off);
    SelfCheckOrNone(s0, root, TIGHT, 0x10_0000, off);
    SamePageWalk(s'.mem, root, 0x10_0000 + off, 0x10_0000);
    SamePageWalk(s'.mem, root, KERNEL_VIRT_BASE + 0x10_0000 + off, KERNEL_VIRT_BASE + 0x10_0000);
  }

  lemma TightKeeps(off: nat)
    requires off < 4096
    ensures PageIn(TIGHT.kstart, TIGHT.kpages, 0x10_0000) && InRange(TIGHT) && Keeps(TIGHT, 0x10_0000)
    ensures Vpn(0x10_0000 + off) == Vpn(0x10_0000)
    ensures (KERNEL_VIRT_BASE + 0x10_0000 + off) % TWO_64 == KERNEL_VIRT_BASE + 0x10_0000 + off
    ensures Vpn(KERNEL_VIRT_BASE + 0x10_0000 + off) == Vpn(KERNEL_VIRT_BASE + 0x10_0000)
  {
    hide Vpn, Keeps, NoClash, OwnPage, HighPage;
    LowMemoryNoClash(TIGHT);
    KernelPage(TIGHT, 0x10_0000);
    NoClashKeeps(TIGHT, 0x10_0000);
    SameOffset(0x10_0000, off);
    SameOffset(KERNEL_VIRT_BASE + 0x10_0000, off);
  }
}
