/** The address space vmm_init ends with, page by page, wherever the memory lies; and when its self-checks pass. */
module BootFinal {
  import opened Bits
  import opened Frames
  import opened Pte
  import opened PageTables
  import opened Mapping
  import opened BootMap
  import opened BootTables
  import MemoryMap

  /** All memory of the layout lies below 2^48 - 2 GiB; only the wrap of the higher half can make addresses meet. */
  ghost predicate InRange(l: Layout) {
    && ValidLayout(l)
    && l.kstart + l.kpages * 4096 <= IDENTITY_LIMIT
    && l.hstart + l.hpages * 4096 <= IDENTITY_LIMIT
    && l.fstart + l.fpages * 4096 <= IDENTITY_LIMIT
    && RegionsBelow(l.regions)
  }

  ghost predicate RegionsBelow(regions: seq<MemoryMap.Region>) {
    && RegionsInRange(regions)
    && forall i :: 0 <= i < |regions| && regions[i].flags == MemoryMap.USABLE ==>
         regions[i].base % 4096 == 0 && regions[i].base + regions[i].pages * 4096 <= IDENTITY_LIMIT
  }

  /** The physical page whose higher-half request lands on the page at a (an address below 2^48). */
  function Source(a: nat): nat {
    if a < IDENTITY_LIMIT then a + GIB_2 else a - IDENTITY_LIMIT
  }

  /** The address of the page of w in the 48-bit space. */
  function PageAt(w: nat): nat {
    Vpn(w) * 4096
  }

  predicate RegionHas(r: MemoryMap.Region, a: nat) {
    r.flags == MemoryMap.USABLE && PageIn(r.base, r.pages, a)
  }

  ghost predicate RamHas(regions: seq<MemoryMap.Region>, a: nat) {
    exists i :: 0 <= i < |regions| && RegionHas(regions[i], a)
  }

  /** A RAM page lands on a by its higher-half request, and no later region asks for a itself. */
  ghost predicate RamTakes(regions: seq<MemoryMap.Region>, a: nat) {
    exists i :: 0 <= i < |regions| && RegionHas(regions[i], Source(a)) &&
                forall j :: i < j < |regions| ==> !RegionHas(regions[j], a)
  }

  /** The entry vmm_init leaves for the page at a. */
  ghost function FinalCell(l: Layout, a: nat): Option<u64>
    requires InRange(l) && a < 0x1_0000_0000_0000
  {
    if PageIn(l.hstart, l.hpages, Source(a)) || PageIn(l.kstart, l.kpages, Source(a)) then
      Some(LeafEntry(Source(a), KERNEL_RW))
    else if PageIn(l.fstart, l.fpages, a) then Some(LeafEntry(a, MMIO))
    else if RamTakes(l.regions, a) then Some(LeafEntry(Source(a), KERNEL_RW))
    else if RamHas(l.regions, a) || PageIn(l.kstart, l.kpages, a) then Some(LeafEntry(a, KERNEL_RW))
    else None
  }

  // ----- The last request for a page -----

  /** Later requests decide. */
  lemma {:induction false} PlanCellConcat(a: seq<Request>, b: seq<Request>, w: nat)
    ensures PlanCell(a + b, w) == if PlanCell(b, w).Some? then PlanCell(b, w) else PlanCell(a, w)
    decreases |b|
  {
    hide Vpn, LeafEntry;
    if b == [] {
      assert a + b == a;
    } else {
      assert (a + b)[..|a + b| - 1] == a + b[..|b| - 1];
      PlanCellConcat(a, b[..|b| - 1], w);
    }
  }

  lemma PageAtLaw(w: nat, p: nat)
    requires p % 4096 == 0 && p < IDENTITY_LIMIT
    ensures PageAt(w) < 0x1_0000_0000_0000 && PageAt(w) % 4096 == 0
    ensures Vpn(p) == Vpn(w) <==> p == PageAt(w)
    ensures Vpn((KERNEL_VIRT_BASE + p) % TWO_64) == Vpn(w) <==> p == Source(PageAt(w))
  {
    VpnBelow(p);
    HighVpn(p);
  }

  lemma HighVpn(p: nat)
    requires p % 4096 == 0 && p < IDENTITY_LIMIT
    ensures Vpn((KERNEL_VIRT_BASE + p) % TWO_64) == if p < GIB_2 then 0xF_FFF8_0000 + p / 4096 else (p - GIB_2) / 4096
  {
    if p < GIB_2 {
      LowVpn(p);
      assert (KERNEL_VIRT_BASE + p) % TWO_64 == KERNEL_VIRT_BASE + p;
    } else {
      assert (KERNEL_VIRT_BASE + p) % TWO_64 == p - GIB_2;
      VpnBelow(p - GIB_2);
    }
  }

  lemma IdentityCell(start: nat, n: nat, flags: u64, w: nat)
    requires start % 4096 == 0 && start + n * 4096 <= IDENTITY_LIMIT
    ensures PlanCell(IdentityPages(start, n, flags), w) ==
            if PageIn(start, n, PageAt(w)) then Some(LeafEntry(PageAt(w), flags)) else None
  {
    hide Vpn, LeafEntry, PlanCell, IdentityPages, PageAt;
    var reqs := IdentityPages(start, n, flags);
    var q := PlanCellLaw(reqs, w);
    if PlanCell(reqs, w).Some? {
      IdentityPagesLaw(start, n, flags, q);
      PageAtLaw(w, q.p);
    }
    if PageIn(start, n, PageAt(w)) {
      var x := Identity(PageAt(w), flags);
      IdentityPagesLaw(start, n, flags, x);
      PageAtLaw(w, x.p);
      assert x in reqs && Vpn(x.v) == Vpn(w);
    }
  }

  lemma HighCell(start: nat, n: nat, flags: u64, w: nat)
    requires start % 4096 == 0 && start + n * 4096 <= IDENTITY_LIMIT
    ensures PlanCell(HigherHalfPages(start, n, flags), w) ==
            if PageIn(start, n, Source(PageAt(w))) then Some(LeafEntry(Source(PageAt(w)), flags)) else None
  {
    hide Vpn, LeafEntry, PlanCell, HigherHalfPages, PageAt, Source;
    var reqs := HigherHalfPages(start, n, flags);
    var q := PlanCellLaw(reqs, w);
    if PlanCell(reqs, w).Some? {
      HigherHalfPagesLaw(start, n, flags, q);
      PageAtLaw(w, q.p);
    }
    if PageIn(start, n, Source(PageAt(w))) {
      var x := HigherHalf(Source(PageAt(w)), flags);
      HigherHalfPagesLaw(start, n, flags, x);
      PageAtLaw(w, x.p);
      assert x in reqs && Vpn(x.v) == Vpn(w);
    }
  }

  /** The entry a region's pages give the page at a: its second requests come after its first ones. */
  function RegionCell(base: nat, n: nat, a: nat): Option<u64>
    requires base + n * 4096 <= IDENTITY_LIMIT && a < 0x1_0000_0000_0000
  {
    if PageIn(base, n, Source(a)) then Some(LeafEntry(Source(a), KERNEL_RW))
    else if PageIn(base, n, a) then Some(LeafEntry(a, KERNEL_RW))
    else None
  }

  /** The cells two requests for the page p give a page: the second one where it hits, else the first. */
  lemma PairCell(reqs: seq<Request>, p: u64, w: nat)
    requires p % 4096 == 0 && p < IDENTITY_LIMIT
    ensures PlanCell(reqs + [Identity(p, KERNEL_RW), HigherHalf(p, KERNEL_RW)], w) ==
            if p == Source(PageAt(w)) then Some(LeafEntry(p, KERNEL_RW))
            else if p == PageAt(w) then Some(LeafEntry(p, KERNEL_RW))
            else PlanCell(reqs, w)
  {
    hide Vpn, LeafEntry, PageAt, Source;
    PageAtLaw(w, p);
    var one := reqs + [Identity(p, KERNEL_RW)];
    var two := reqs + [Identity(p, KERNEL_RW), HigherHalf(p, KERNEL_RW)];
    assert two[..|two| - 1] == one && one[..|one| - 1] == reqs;
  }

  lemma NoPagesCell(base: nat, a: nat)
    requires base <= IDENTITY_LIMIT && a < 0x1_0000_0000_0000
    ensures RegionCell(base, 0, a) == None
  {
  }

  lemma RegionCellStep(base: nat, n: nat, a: nat)
    requires n > 0 && base + n * 4096 <= IDENTITY_LIMIT && a < 0x1_0000_0000_0000
    ensures var p := base + (n - 1) * 4096;
            RegionCell(base, n, a) ==
            if p == Source(a) then Some(LeafEntry(p, KERNEL_RW))
            else if p == a then Some(LeafEntry(p, KERNEL_RW))
            else RegionCell(base, n - 1, a)
  {
    hide LeafEntry;
    LastPageIn(base, n, a);
    LastPageIn(base, n, Source(a));
    if a == base + (n - 1) * 4096 { PageBeyond(base, n, a); }
    hide PageIn, Source;
  }

  /** The page 2 GiB above the last page of a region is not in it. */
  lemma PageBeyond(base: nat, n: nat, a: nat)
    requires n > 0 && base + n * 4096 <= IDENTITY_LIMIT && a == base + (n - 1) * 4096
    ensures !PageIn(base, n, Source(a))
  {
  }

  lemma {:induction false} RegionCellLaw(base: nat, n: nat, w: nat)
    requires base % 4096 == 0 && base + n * 4096 <= IDENTITY_LIMIT
    ensures PageAt(w) < 0x1_0000_0000_0000
    ensures PlanCell(RamPages(base, n), w) == RegionCell(base, n, PageAt(w))
    decreases n
  {
    hide Vpn, LeafEntry, PlanCell, PageAt, RegionCell;
    PageAtLaw(w, 0);
    if n == 0 {
      EmptyCell(w);
      NoPagesCell(base, PageAt(w));
    } else {
      RegionCellLaw(base, n - 1, w);
      RegionCellStep(base, n, PageAt(w));
      PairCell(RamPages(base, n - 1), base + (n - 1) * 4096, w);
    }
  }

  lemma EmptyCell(w: nat)
    ensures PlanCell([], w) == None
  {
  }

  /** The entry all RAM regions together give the page at a. */
  ghost function RamCell(regions: seq<MemoryMap.Region>, a: nat): Option<u64>
    requires RegionsBelow(regions) && a < 0x1_0000_0000_0000
  {
    if RamTakes(regions, a) then Some(LeafEntry(Source(a), KERNEL_RW))
    else if RamHas(regions, a) then Some(LeafEntry(a, KERNEL_RW))
    else None
  }

  /** One more region: where it lands on a it takes it, where it has a it keeps it. */
  lemma RamStep(regions: seq<MemoryMap.Region>, a: nat)
    requires regions != []
    ensures var n := |regions| - 1;
            && (RamTakes(regions, a) <==>
                RegionHas(regions[n], Source(a)) || (RamTakes(regions[..n], a) && !RegionHas(regions[n], a)))
            && (RamHas(regions, a) <==> RegionHas(regions[n], a) || RamHas(regions[..n], a))
  {
    hide RegionHas, Source;
    var n := |regions| - 1;
    var before := regions[..n];
    if RamTakes(before, a) && !RegionHas(regions[n], a) {
      var i :| 0 <= i < n && RegionHas(before[i], Source(a)) && forall j :: i < j < n ==> !RegionHas(before[j], a);
      assert RegionHas(regions[i], Source(a));
      assert forall j :: i < j < n ==> regions[j] == before[j];
    }
    if RamTakes(regions, a) && !RegionHas(regions[n], Source(a)) {
      var i :| 0 <= i < |regions| && RegionHas(regions[i], Source(a))
               && forall j :: i < j < |regions| ==> !RegionHas(regions[j], a);
      assert RegionHas(before[i], Source(a));
      assert forall j :: i < j < n ==> regions[j] == before[j];
    }
    if RamHas(before, a) {
      var i :| 0 <= i < n && RegionHas(before[i], a);
      assert RegionHas(regions[i], a);
    }
    if RamHas(regions, a) && !RegionHas(regions[n], a) {
      var i :| 0 <= i < |regions| && RegionHas(regions[i], a);
      assert RegionHas(before[i], a);
    }
  }

  lemma {:induction false} RamCellLaw(regions: seq<MemoryMap.Region>, w: nat)
    requires RegionsBelow(regions)
    ensures PageAt(w) < 0x1_0000_0000_0000
    ensures PlanCell(RamPlan(regions), w) == RamCell(regions, PageAt(w))
    decreases |regions|
  {
    hide Vpn, LeafEntry, PlanCell, PageAt, RamPages, RamHas, RamTakes, PageIn;
    PageAtLaw(w, 0);
    if regions == [] {
      EmptyCell(w);
      NoRam(PageAt(w));
    } else {
      var n := |regions| - 1;
      RamCellLaw(regions[..n], w);
      RamStep(regions, PageAt(w));
      PlanCellConcat(RamPlan(regions[..n]), RegionPages(regions[n]), w);
      if regions[n].flags == MemoryMap.USABLE {
        RegionCellLaw(regions[n].base, regions[n].pages, w);
      } else {
        EmptyCell(w);
      }
    }
  }

  lemma NoRam(a: nat)
    ensures !RamTakes([], a) && !RamHas([], a)
  {
  }

  /** The plan's last request for each page is the one the closed form names. */
  lemma PlanCellFinal(l: Layout, w: nat)
    requires InRange(l)
    ensures PageAt(w) < 0x1_0000_0000_0000
    ensures PlanCell(Plan(l), w) == FinalCell(l, PageAt(w))
  {
    hide Vpn, LeafEntry, PlanCell, PageAt, PageIn, IdentityPages, HigherHalfPages, RamPlan, RamHas, RamTakes, Source;
    PageAtLaw(w, 0);
    IdentityCell(l.kstart, l.kpages, KERNEL_RW, w);
    RamCellLaw(l.regions, w);
    IdentityCell(l.fstart, l.fpages, MMIO, w);
    HighCell(l.kstart, l.kpages, KERNEL_RW, w);
    HighCell(l.hstart, l.hpages, KERNEL_RW, w);
    var k, r, f := IdentityPages(l.kstart, l.kpages, KERNEL_RW), RamPlan(l.regions),
        IdentityPages(l.fstart, l.fpages, MMIO);
    var hk, hh := HigherHalfPages(l.kstart, l.kpages, KERNEL_RW), HigherHalfPages(l.hstart, l.hpages, KERNEL_RW);
    PlanCellConcat(k, r, w);
    PlanCellConcat(k + r, f, w);
    PlanCellConcat(k + r + f, hk, w);
    PlanCellConcat(k + r + f + hk, hh, w);
  }

  /**
   The address space vmm_init ends with when no map fails, for every address: each page holds exactly
   the entry of the closed form, wherever memory lies below 2^48 - 2 GiB.
   */
  lemma FinalMap(s: State, root: nat, l: Layout, w: u64)
    requires FreshRoot(s, root) && InRange(l) && AllMapped(s, root, Plan(l))
    ensures PageAt(w) < 0x1_0000_0000_0000
    ensures Lookup(MapAll(s, root, Plan(l)).mem, root, w) == FinalCell(l, PageAt(w))
  {
    hide Inv, AllMapped, MapAll, Lookup, PlanCell, Plan, PageAt, FinalCell, Entry;
    PlanCellFinal(l, w);
    MapAllLookup(s, root, Plan(l), w);
    EmptyLookup(s, root, w);
  }

  /** The framebuffer's page at a, unless the kernel or the heap lands on it in the higher half. */
  predicate DevicePage(l: Layout, a: nat) {
    && PageIn(l.fstart, l.fpages, a)
    && !PageIn(l.hstart, l.hpages, Source(a)) && !PageIn(l.kstart, l.kpages, Source(a))
  }

  /** Writable, closed to user code, executable, and uncached exactly if it is a device's. */
  predicate BootRights(e: nat, device: bool) {
    && Bit(e, WRITE_BIT) && !Bit(e, USER_BIT) && !Bit(e, NO_EXECUTE_BIT)
    && Bit(e, WRITE_THROUGH_BIT) == Bit(e, NO_CACHE_BIT) == device
  }

  lemma BootFlags(p: u64)
    ensures BootRights(LeafEntry(p, KERNEL_RW), false) && BootRights(LeafEntry(p, MMIO), true)
  {
    hide LeafEntry, Bit;
    FlagBits();
    forall flags: u64, k: nat | k < 12 || k == NO_EXECUTE_BIT
      ensures k > 0 ==> (Bit(LeafEntry(p, flags), k) <==> Bit(flags, k))
    {
      LeafBits(p, flags, k);
    }
  }

  lemma FlagBits()
    ensures Bit(KERNEL_RW, 1) && !Bit(KERNEL_RW, 2) && !Bit(KERNEL_RW, 3) && !Bit(KERNEL_RW, 4)
    ensures Bit(MMIO, 1) && !Bit(MMIO, 2) && Bit(MMIO, 3) && Bit(MMIO, 4)
    ensures !Bit(KERNEL_RW, NO_EXECUTE_BIT) && !Bit(MMIO, NO_EXECUTE_BIT)
  {
    BitOfZero(0);
    BitOfZero(1);
    BitOfZero(2);
    assert Bit(1, 0) && !Bit(1, 1) && !Bit(1, 2) && !Bit(1, 3) && !Bit(3, 2) && !Bit(3, 3);
    assert Bit(3, 0) && Bit(3, 1) && Bit(6, 1) && Bit(6, 2) && Bit(0xD, 2) && Bit(0xD, 3) && !Bit(6, 0) && !Bit(0xD, 1);
    hide Bit;
    SmallWord(KERNEL_RW);
    SmallWord(MMIO);
  }

  /** Every entry of the closed form is writable and for the kernel alone; the framebuffer's are uncached. */
  lemma FinalRights(l: Layout, a: nat)
    requires InRange(l) && a < 0x1_0000_0000_0000 && FinalCell(l, a).Some?
    ensures BootRights(FinalCell(l, a).value, DevicePage(l, a))
  {
    hide LeafEntry, BootRights, PageIn, RamTakes, RamHas, RegionsBelow;
    BootFlags(a);
    if PageIn(l.hstart, l.hpages, Source(a)) || PageIn(l.kstart, l.kpages, Source(a)) || RamTakes(l.regions, a) {
      if Source(a) < TWO_64 { BootFlags(Source(a)); }
    }
  }

  // ----- Which pages keep their own address -----

  /** The page at a is asked for at its own address. */
  ghost predicate OwnPage(l: Layout, a: nat) {
    PageIn(l.kstart, l.kpages, a) || RamHas(l.regions, a) || PageIn(l.fstart, l.fpages, a)
  }

  /** The page at a is asked for in the higher half. */
  ghost predicate HighPage(l: Layout, a: nat) {
    PageIn(l.kstart, l.kpages, a) || RamHas(l.regions, a) || PageIn(l.hstart, l.hpages, a)
  }

  /**
   No request of the page 2 GiB above comes after the last request for a at its own address: that page
   is neither the kernel's nor the heap's, and it is the framebuffer that has a, or no RAM lands on it later.
   */
  ghost predicate Keeps(l: Layout, a: nat) {
    && !PageIn(l.kstart, l.kpages, Source(a)) && !PageIn(l.hstart, l.hpages, Source(a))
    && (PageIn(l.fstart, l.fpages, a) || !RamTakes(l.regions, a))
  }

  lemma EntryFrame(p: u64)
    requires PageAddress(p)
    ensures Frame(LeafEntry(p, KERNEL_RW)) == p && Frame(LeafEntry(p, MMIO)) == p
  {
    hide And, Or, LeafEntry, Frame;
    LeafLaw(p, KERNEL_RW);
    LeafLaw(p, MMIO);
    FlagsAddNothing(p);
    DeviceFlagsAddNothing(p);
  }

  lemma DeviceFlagsAddNothing(p: u64)
    ensures Or(p, Frame(MMIO)) == p
  {
    hide And, Or;
    AndHigh12(MMIO, 0xFF_FFFF_FFFF);
    AndZero(0xFF_FFFF_FFFF);
    OrZero(p);
  }

  /** What an address translates to at the end of vmm_init, from the closed form. */
  lemma FinalPhys(s: State, root: nat, l: Layout, w: u64)
    requires FreshRoot(s, root) && InRange(l) && AllMapped(s, root, Plan(l))
    ensures PageAt(w) < 0x1_0000_0000_0000
    ensures GetPhys(MapAll(s, root, Plan(l)), root, w) ==
            match FinalCell(l, PageAt(w)) case None => 0 case Some(e) => Frame(e) + w % 4096
  {
    hide Inv, AllMapped, MapAll, Lookup, GetPhys, Plan, PageAt, FinalCell, Entry, Frame;
    FinalMap(s, root, l, w);
    MapAllKeepsInv(s, root, Plan(l));
    GetPhysLaw(MapAll(s, root, Plan(l)), root, w);
  }

  lemma OwnAddress(a: nat, off: nat)
    requires a % 4096 == 0 && a < 0x1_0000_0000_0000 && off < 4096
    ensures PageAt(a + off) == a && (a + off) % 4096 == off
  {
    SameOffset(a, off);
    VpnBelow(a);
  }

  lemma OwnPageBelow(l: Layout, a: nat)
    requires InRange(l) && (OwnPage(l, a) || HighPage(l, a))
    ensures a % 4096 == 0 && a < IDENTITY_LIMIT
  {
  }

  /** Wherever the memory lies, a page asked for at its own address is reachable there exactly when nothing takes it. */
  lemma KeptAtOwn(s: State, root: nat, l: Layout, a: nat, off: nat)
    requires FreshRoot(s, root) && InRange(l) && AllMapped(s, root, Plan(l))
    requires OwnPage(l, a) && off < 4096
    ensures a + off < TWO_64
    ensures GetPhys(MapAll(s, root, Plan(l)), root, a + off) == a + off <==> Keeps(l, a)
    ensures !Keeps(l, a) ==> GetPhys(MapAll(s, root, Plan(l)), root, a + off) == a + GIB_2 + off
  {
    hide FreshRoot, AllMapped, MapAll, GetPhys, Plan, PageAt, Frame, LeafEntry, RamTakes, PageIn, RamHas;
    OwnPageBelow(l, a);
    OwnAddress(a, off);
    FinalPhys(s, root, l, a + off);
    EntryFrame(a);
    EntryFrame(a + GIB_2);
  }

  /** The address in the higher half, as the wrapping addition computes it, where a page is asked for. */
  lemma HighAddress(p: nat, off: nat)
    requires p % 4096 == 0 && p < IDENTITY_LIMIT && off < 4096
    ensures var w := (KERNEL_VIRT_BASE + p + off) % TWO_64;
            && Source(PageAt(w)) == p && w % 4096 == off
            && PageAt(w) == if p < GIB_2 then IDENTITY_LIMIT + p else p - GIB_2
  {
    hide PageAt;
    HighPlace(p, off);
    if p < GIB_2 {
      HighPageAt(p, off);
    } else {
      OwnAddress(p - GIB_2, off);
    }
  }

  lemma HighPlace(p: nat, off: nat)
    requires p % 4096 == 0 && p < IDENTITY_LIMIT && off < 4096
    ensures (KERNEL_VIRT_BASE + p + off) % TWO_64 == if p < GIB_2 then KERNEL_VIRT_BASE + p + off else p - GIB_2 + off
  {
  }

  lemma HighPageAt(p: nat, off: nat)
    requires p % 4096 == 0 && p < GIB_2 && off < 4096
    ensures PageAt(KERNEL_VIRT_BASE + p + off) == IDENTITY_LIMIT + p && (KERNEL_VIRT_BASE + p + off) % 4096 == off
  {
    SameOffset(KERNEL_VIRT_BASE + p, off);
    LowVpn(p);
  }

  /**
   The page asked for in the higher half at p gets that address: below 2 GiB, or where the page 2 GiB lower
   loses it.
   */
  ghost predicate GetsHigh(l: Layout, p: nat) {
    p < GIB_2 || !Keeps(l, p - GIB_2)
  }

  /** A page asked for in the higher half is reachable there exactly when no page keeps the address it wraps to. */
  lemma KeptHigh(s: State, root: nat, l: Layout, p: nat, off: nat)
    requires FreshRoot(s, root) && InRange(l) && AllMapped(s, root, Plan(l))
    requires HighPage(l, p) && off < 4096
    ensures GetPhys(MapAll(s, root, Plan(l)), root, (KERNEL_VIRT_BASE + p + off) % TWO_64) == p + off <==>
            GetsHigh(l, p)
  {
    hide FreshRoot, AllMapped, MapAll, GetPhys, Plan, PageAt, Frame, LeafEntry, Source, Keeps, HighPage;
    OwnPageBelow(l, p);
    HighAddress(p, off);
    var w := (KERNEL_VIRT_BASE + p + off) % TWO_64;
    FinalPhys(s, root, l, w);
    EntryFrame(p);
    if GetsHigh(l, p) {
      HighTakes(l, p, PageAt(w));
    } else {
      EntryFrame(p - GIB_2);
      HighLoses(l, p);
    }
  }

  lemma HighTakes(l: Layout, p: nat, a: nat)
    requires InRange(l) && HighPage(l, p) && GetsHigh(l, p) && a == if p < GIB_2 then IDENTITY_LIMIT + p else p - GIB_2
    ensures a < 0x1_0000_0000_0000 && FinalCell(l, a) == Some(LeafEntry(p, KERNEL_RW))
  {
    hide LeafEntry;
    OwnPageBelow(l, p);
    if p < GIB_2 && !PageIn(l.kstart, l.kpages, p) && !PageIn(l.hstart, l.hpages, p) {
      assert !PageIn(l.fstart, l.fpages, a);
      assert forall j :: 0 <= j < |l.regions| ==> !RegionHas(l.regions[j], a);
    }
  }

  lemma HighLoses(l: Layout, p: nat)
    requires InRange(l) && HighPage(l, p) && !GetsHigh(l, p)
    ensures p < IDENTITY_LIMIT
    ensures var a := p - GIB_2;
            FinalCell(l, a) == None || FinalCell(l, a) == Some(LeafEntry(a, KERNEL_RW))
                || FinalCell(l, a) == Some(LeafEntry(a, MMIO))
  {
    hide LeafEntry, RamTakes, RamHas, PageIn;
    OwnPageBelow(l, p);
  }

  /** Nothing keeps the lower address if it belongs to no page, or if the upper page is the kernel's. */
  lemma FreeToTake(l: Layout, p: nat)
    requires HighPage(l, p) && (p < GIB_2 || PageIn(l.kstart, l.kpages, p) || !OwnPage(l, p - GIB_2))
             && p < IDENTITY_LIMIT
    ensures GetsHigh(l, p)
  {
    hide PageIn;
    if p >= GIB_2 && RamHas(l.regions, p) && !PageIn(l.kstart, l.kpages, p) {
      var i :| 0 <= i < |l.regions| && RegionHas(l.regions[i], p);
      assert RegionHas(l.regions[i], Source(p - GIB_2));
      assert forall j :: 0 <= j < |l.regions| ==> !RegionHas(l.regions[j], p - GIB_2);
    }
  }

  // ----- Everything reachable, and the self-checks -----

  /** Byte off of the page at a translates to itself. */
  predicate OwnReached(s: State, root: nat, a: nat, off: nat) {
    GetPhys(s, root, (a + off) % TWO_64) == a + off
  }

  /** Byte off of the page at p is reached in the higher half, as the wrapping addition places it. */
  predicate HighReached(s: State, root: nat, p: nat, off: nat) {
    GetPhys(s, root, (KERNEL_VIRT_BASE + p + off) % TWO_64) == p + off
  }

  /** Every page asked for is reachable at each of the addresses it was asked for at. */
  ghost predicate Reachable(s: State, root: nat, l: Layout) {
    && (forall a: nat, off: nat :: OwnPage(l, a) && off < 4096 ==> OwnReached(s, root, a, off))
    && (forall p: nat, off: nat :: HighPage(l, p) && off < 4096 ==> HighReached(s, root, p, off))
  }

  /** No page is asked for at an address where the higher half of another one wraps to. */
  ghost predicate NoClash(l: Layout) {
    forall a: nat :: OwnPage(l, a) ==> !HighPage(l, a + GIB_2)
  }

  lemma NoClashKeeps(l: Layout, a: nat)
    requires InRange(l) && NoClash(l) && OwnPage(l, a)
    ensures Keeps(l, a)
  {
    hide PageIn, RegionHas;
    OwnPageBelow(l, a);
    assert !HighPage(l, Source(a));
  }

  /** One address cannot translate to both. */
  lemma OneOfTwo(s: State, root: nat, a: nat)
    requires a % 4096 == 0 && a + GIB_2 < IDENTITY_LIMIT
    ensures !(OwnReached(s, root, a, 0) && HighReached(s, root, a + GIB_2, 0))
  {
    hide GetPhys;
    HighPlace(a + GIB_2, 0);
    assert (KERNEL_VIRT_BASE + (a + GIB_2) + 0) % TWO_64 == (a + 0) % TWO_64;
  }

  /**
   vmm_init leaves everything reachable that it maps, at its own address and in the higher half,
   exactly when no two of its pages lie 2 GiB apart with the upper one in the kernel, RAM or the heap
   and the lower one in the kernel, RAM or the framebuffer.
   */
  lemma AllReachable(s: State, root: nat, l: Layout)
    requires FreshRoot(s, root) && InRange(l) && AllMapped(s, root, Plan(l))
    ensures Reachable(MapAll(s, root, Plan(l)), root, l) <==> NoClash(l)
  {
    hide FreshRoot, RegionsBelow, AllMapped, MapAll, Plan, GetPhys, OwnPage, HighPage, Keeps, OwnReached, HighReached,
      GetsHigh;
    var s' := MapAll(s, root, Plan(l));
    if NoClash(l) {
      forall a: nat, off: nat | OwnPage(l, a) && off < 4096
        ensures OwnReached(s', root, a, off)
      {
        NoClashKeeps(l, a);
        OwnReachedExact(s, root, l, a, off);
      }
      forall p: nat, off: nat | HighPage(l, p) && off < 4096
        ensures HighReached(s', root, p, off)
      {
        OwnPageBelow(l, p);
        if p >= GIB_2 { LowerNotOwn(l, p - GIB_2); }
        FreeToTake(l, p);
        HighReachedExact(s, root, l, p, off);
      }
    } else {
      var a: nat :| OwnPage(l, a) && HighPage(l, a + GIB_2);
      OwnPageBelow(l, a);
      OwnPageBelow(l, a + GIB_2);
      OneOfTwo(s', root, a);
    }
  }

  lemma LowerNotOwn(l: Layout, a: nat)
    requires NoClash(l) && HighPage(l, a + GIB_2)
    ensures !OwnPage(l, a)
  {
    hide OwnPage, HighPage;
  }

  lemma OwnReachedExact(s: State, root: nat, l: Layout, a: nat, off: nat)
    requires FreshRoot(s, root) && InRange(l) && AllMapped(s, root, Plan(l)) && OwnPage(l, a) && off < 4096
    ensures OwnReached(MapAll(s, root, Plan(l)), root, a, off) <==> Keeps(l, a)
  {
    hide FreshRoot, AllMapped, MapAll, Plan, GetPhys, OwnPage, HighPage, Keeps;
    KeptAtOwn(s, root, l, a, off);
  }

  lemma HighReachedExact(s: State, root: nat, l: Layout, p: nat, off: nat)
    requires FreshRoot(s, root) && InRange(l) && AllMapped(s, root, Plan(l)) && HighPage(l, p) && off < 4096
    ensures HighReached(MapAll(s, root, Plan(l)), root, p, off) <==> GetsHigh(l, p)
  {
    hide FreshRoot, AllMapped, MapAll, Plan, GetPhys, GetsHigh, HighPage;
    KeptHigh(s, root, l, p, off);
  }

  lemma KernelPage(l: Layout, a: nat)
    requires InRange(l) && PageIn(l.kstart, l.kpages, a)
    ensures OwnPage(l, a) && HighPage(l, a) && a + 4096 <= TWO_64
  {
  }

  lemma KernelPageReached(s: State, root: nat, l: Layout, a: nat, off: nat)
    requires FreshRoot(s, root) && InRange(l) && AllMapped(s, root, Plan(l))
    requires PageIn(l.kstart, l.kpages, a) && OwnPage(l, a) && HighPage(l, a) && off < 4096
    ensures OwnReached(MapAll(s, root, Plan(l)), root, a, off) <==> Keeps(l, a)
    ensures HighReached(MapAll(s, root, Plan(l)), root, a, off)
  {
    hide FreshRoot, RegionsBelow, AllMapped, MapAll, Plan, OwnReached, HighReached, OwnPage, HighPage, Keeps, PageIn,
      GetsHigh;
    OwnReachedExact(s, root, l, a, off);
    OwnPageBelow(l, a);
    FreeToTake(l, a);
    HighReachedExact(s, root, l, a, off);
  }

  lemma SelfChecksAre(s: State, root: nat, a: nat, off: nat)
    requires a + off < TWO_64
    ensures SelfCheck(s, root, a + off) <==> OwnReached(s, root, a, off) && HighReached(s, root, a, off)
  {
    hide GetPhys;
    assert KERNEL_VIRT_BASE + a + off == KERNEL_VIRT_BASE + (a + off);
  }

  /**
   vmm_init passes both self-checks on a byte of the kernel page at a exactly when that page keeps its own
   address.
   */
  lemma SelfCheckExact(s: State, root: nat, l: Layout, a: nat, off: nat)
    requires FreshRoot(s, root) && InRange(l) && AllMapped(s, root, Plan(l))
    requires PageIn(l.kstart, l.kpages, a) && off < 4096
    ensures a + off < TWO_64 && (SelfCheck(MapAll(s, root, Plan(l)), root, a + off) <==> Keeps(l, a))
  {
    hide FreshRoot, RegionsBelow, AllMapped, MapAll, Plan, SelfCheck, OwnReached, HighReached, OwnPage, HighPage,
      Keeps, PageIn;
    KernelPage(l, a);
    KernelPageReached(s, root, l, a, off);
    SelfChecksAre(MapAll(s, root, Plan(l)), root, a, off);
  }

  lemma PlanAligned(l: Layout)
    requires InRange(l)
    ensures PageAligned(Plan(l))
  {
    hide Plan, PageIn, Planned;
    forall i | 0 <= i < |Plan(l)| ensures Plan(l)[i].v % 4096 == 0 && Plan(l)[i].p % 4096 == 0 {
      PlanLaw(l, Plan(l)[i]);
      PlannedAligned(l, Plan(l)[i]);
    }
  }

  lemma PlannedAligned(l: Layout, q: Request)
    requires InRange(l) && Planned(l, q)
    ensures q.v % 4096 == 0 && q.p % 4096 == 0
  {
  }

  /**
   vmm_init itself, from any well-formed state with a frame for the PML4 and one for each slot its plan
   touches: it reaches the switch of CR3 exactly when the kernel page of the self-check keeps its address.
   */
  lemma InitExact(s: State, s': State, root: nat, l: Layout, a: nat, off: nat, ok: bool)
    requires Inv(s) && InRange(l) && PageIn(l.kstart, l.kpages, a) && off < 4096 && a + off < TWO_64
    requires TablesNeeded(Plan(l)) < CountFree(s.pool.used)
    requires InitOutcome(s, s', root, l, a + off, ok)
    ensures ok <==> Keeps(l, a)
  {
    hide Inv, FreshRoot, RegionsBelow, AllMapped, MapAll, Plan, Keeps, SelfCheck, TablesNeeded, PageAligned, PageIn,
      AllocTable, CountFree;
    FreshRootLaw(s);
    var (s0, pml4) := AllocTable(s, ROOT);
    PlanAligned(l);
    FirstFrame(s);
    EnoughFrames(s0, root, Plan(l));
    SelfCheckExact(s0, root, l, a, off);
  }

  lemma FirstFrame(s: State)
    requires Inv(s)
    ensures var (s', root) := AllocTable(s, ROOT);
            root != 0 ==> CountFree(s'.pool.used) == CountFree(s.pool.used) - 1
  {
    hide CountFree, AllocPage, TableOk;
    AllocPageLaw(s.pool);
  }

  /** Memory below 2 GiB is the plain case: nothing clashes, so every page keeps its address. */
  lemma LowMemoryNoClash(l: Layout)
    requires LowMemory(l)
    ensures InRange(l) && NoClash(l)
  {
  }

  /** With memory below 2 GiB and frames for the PML4 and the tables, vmm_init reaches the switch of CR3. */
  lemma InitSucceeds(s: State, s': State, root: nat, l: Layout, a: nat, off: nat, ok: bool)
    requires Inv(s) && LowMemory(l) && PageIn(l.kstart, l.kpages, a) && off < 4096 && a + off < TWO_64
    requires 2 * (1 + 2 + 1024) + l.fpages / 512 + l.fpages / 0x4_0000 + l.fpages / 0x800_0000
             + 6 < CountFree(s.pool.used)
    requires InitOutcome(s, s', root, l, a + off, ok)
    ensures ok
  {
    hide Inv, Plan, Keeps, InitOutcome, TablesNeeded, Framebuffer, OwnPage, HighPage, NoClash, CountFree, RegionsBelow;
    LowMemoryNoClash(l);
    PlanNeeds(l);
    FramebufferNeeds(l);
    KernelPage(l, a);
    NoClashKeeps(l, a);
    InitExact(s, s', root, l, a, off, ok);
  }

  // ----- How many tables other layouts need -----

  /** Kernel, heap and RAM end below top. */
  ghost predicate EndsBelow(l: Layout, top: nat) {
    && l.kstart + l.kpages * 4096 <= top && l.hstart + l.hpages * 4096 <= top
    && forall i :: 0 <= i < |l.regions| && l.regions[i].flags == MemoryMap.USABLE ==>
       l.regions[i].base + l.regions[i].pages * 4096 <= top
  }

  /** Bytes in a slot of a level. */
  function SlotBytes(level: nat): (n: nat)
    ensures n > 0
  {
    if level >= 3 then 0x80_0000_0000 else if level == 2 then 0x4000_0000 else 0x20_0000
  }

  lemma SlotBelow(p: nat, top: nat, level: nat)
    requires p % 4096 == 0 && p < top && p < IDENTITY_LIMIT && 1 <= level <= 3
    ensures Slot(p, level) in Range(0, top / SlotBytes(level) + 1)
  {
    hide Slot, Vpn;
    SlotVpn(p);
    VpnBelow(p);
    SlotDivision(p, level);
    DivisionGrows(p, top, level);
  }

  lemma SlotDivision(p: nat, level: nat)
    requires p % 4096 == 0 && 1 <= level <= 3
    ensures p / SlotBytes(level) ==
            if level == 3 then p / 4096 / 512 / 512 / 512
            else if level == 2 then p / 4096 / 512 / 512
            else p / 4096 / 512
  {
  }

  lemma DivisionGrows(p: nat, top: nat, level: nat)
    requires p <= top
    ensures p / SlotBytes(level) <= top / SlotBytes(level)
  {
  }

  lemma PlannedSlotBelow(l: Layout, top: nat, q: Request, level: nat)
    requires InRange(l) && EndsBelow(l, top) && q in Plan(l) && 1 <= level <= 3
    ensures Slot(q.v, level) in
            Range(0, top / SlotBytes(level) + 1) + Range(HighSlot(level), LowSlots(level))
                + Slots(Framebuffer(l), level)
  {
    hide Slot, Slots, Plan, Range, LowSlots, HighSlot, SlotBytes;
    PlanLaw(l, q);
    PlannedWhere(l, top, q);
    if q in Framebuffer(l) {
      var i :| 0 <= i < |Framebuffer(l)| && Framebuffer(l)[i] == q;
      SlotIn(Framebuffer(l), level, i);
    } else if q.p < GIB_2 && q.v == KERNEL_VIRT_BASE + q.p {
      LowSlot(q.p, level);
    } else {
      SlotBelow(q.v, top, level);
    }
  }

  lemma PlannedWhere(l: Layout, top: nat, q: Request)
    requires InRange(l) && EndsBelow(l, top) && Planned(l, q)
    ensures || q in Framebuffer(l)
            || (q.p % 4096 == 0 && q.p < GIB_2 && q.v == KERNEL_VIRT_BASE + q.p)
            || (q.v % 4096 == 0 && q.v < top && q.v < IDENTITY_LIMIT)
  {
    hide PageIn;
    IdentityPagesLaw(l.fstart, l.fpages, MMIO, q);
    if !(PageIn(l.fstart, l.fpages, q.p) && q == Identity(q.p, MMIO)) {
      PlannedBelow(l, top, q);
      HighPlace(q.p, 0);
    }
  }

  lemma PlannedBelow(l: Layout, top: nat, q: Request)
    requires InRange(l) && EndsBelow(l, top) && Planned(l, q)
             && !(PageIn(l.fstart, l.fpages, q.p) && q == Identity(q.p, MMIO))
    ensures q.p % 4096 == 0 && q.p < top && q.p < IDENTITY_LIMIT
            && (q == Identity(q.p, KERNEL_RW) || q == HigherHalf(q.p, KERNEL_RW))
  {
  }

  /** Slots up to the end of memory, the highest 2 GiB, and those of the framebuffer. */
  lemma PlanSlotsBelow(l: Layout, top: nat, level: nat)
    requires InRange(l) && EndsBelow(l, top) && 1 <= level <= 3
    ensures |Slots(Plan(l), level)| <= top / SlotBytes(level) + 1 + LowSlots(level) + |Slots(Framebuffer(l), level)|
  {
    hide Slot, Slots, Plan, Range, LowSlots, HighSlot, Framebuffer, SlotBytes, EndsBelow, RegionsBelow;
    var low, high, fb := Range(0, top / SlotBytes(level) + 1), Range(HighSlot(level), LowSlots(level)),
        Slots(Framebuffer(l), level);
    forall x | x in Slots(Plan(l), level) ensures x in low + high + fb {
      var q := SlotsOf(Plan(l), level, x);
      PlannedSlotBelow(l, top, q, level);
    }
    SubsetSize(Slots(Plan(l), level), low + high + fb);
    RangeSize(0, top / SlotBytes(level) + 1);
    RangeSize(HighSlot(level), LowSlots(level));
  }

  /** RAM from 1 MiB to 3 GiB, the kernel at its start and the heap behind it, and a framebuffer of 3 MiB above. */
  const THREE_GIB: Layout :=
    Layout(0x10_0000, 16, [MemoryMap.Region(0x10_0000, 0xB_FF00, MemoryMap.CONVENTIONAL_MEMORY, MemoryMap.USABLE)],
      0xC000_0000, 768, 0x11_0000, 256)

  lemma ThreeGibClash()
    ensures InRange(THREE_GIB) && !Keeps(THREE_GIB, 0x10_0000) && OwnPage(THREE_GIB, 0x10_0000)
    ensures PageIn(THREE_GIB.kstart, THREE_GIB.kpages, 0x10_0000)
  {
    assert RegionHas(THREE_GIB.regions[0], Source(0x10_0000));
    assert RamTakes(THREE_GIB.regions, 0x10_0000);
  }

  lemma ThreeGibNeeds()
    ensures InRange(THREE_GIB) && TablesNeeded(Plan(THREE_GIB)) <= 2576
  {
    hide Plan, Slots, RegionsBelow, IdentityPages;
    ThreeGibClash();
    PlanSlotsBelow(THREE_GIB, 0xC000_0000, 3);
    PlanSlotsBelow(THREE_GIB, 0xC000_0000, 2);
    PlanSlotsBelow(THREE_GIB, 0xC000_0000, 1);
    ConsecutiveSlots(0xC000_0000, 768, MMIO, 3, 0x800_0000);
    ConsecutiveSlots(0xC000_0000, 768, MMIO, 2, 0x4_0000);
    ConsecutiveSlots(0xC000_0000, 768, MMIO, 1, 512);
  }

  /** With the kernel there and frames for every table, vmm_init leaves its first page translated to 2 GiB + 1 MiB. */
  lemma ThreeGibLost(s: State, root: nat)
    requires FreshRoot(s, root) && InRange(THREE_GIB) && 2576 <= CountFree(s.pool.used)
    ensures GetPhys(MapAll(s, root, Plan(THREE_GIB)), root, 0x10_0000) == 0x8010_0000
  {
    hide FreshRoot, MapAll, Plan, GetPhys, RegionsBelow, AllMapped, TablesNeeded, CountFree;
    ThreeGibClash();
    ThreeGibNeeds();
    PlanAligned(THREE_GIB);
    EnoughFrames(s, root, Plan(THREE_GIB));
    KeptAtOwn(s, root, THREE_GIB, 0x10_0000, 0);
  }

  /** ... and panics at its self-check, on any byte of that page. */
  lemma ThreeGibFails(s: State, s': State, root: nat, off: nat, ok: bool)
    requires Inv(s) && 2576 < CountFree(s.pool.used) && off < 4096
    requires InitOutcome(s, s', root, THREE_GIB, 0x10_0000 + off, ok)
    ensures !ok
  {
    hide Inv, Plan, InitOutcome, TablesNeeded, RegionsBelow, CountFree, Keeps;
    ThreeGibClash();
    ThreeGibNeeds();
    InitExact(s, s', root, THREE_GIB, 0x10_0000, off, ok);
  }
}
