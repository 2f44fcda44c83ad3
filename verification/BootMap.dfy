/** The mappings vmm_init asks for, and the address space that results. */
module BootMap {
  import opened Bits
  import opened Frames
  import opened Pte
  import opened PageTables
  import opened Mapping
  import MemoryMap

  const KERNEL_VIRT_BASE: u64 := 0xFFFF_FFFF_8000_0000
  const GIB_2: nat := 0x8000_0000
  /** Identity addresses below this bound cannot meet higher-half ones modulo 2^48. */
  const IDENTITY_LIMIT: nat := 0xFFFF_8000_0000

  datatype Request = Request(v: u64, p: u64, flags: u64)

  function Identity(p: u64, flags: u64): Request { Request(p, p, flags) }
  function HigherHalf(p: u64, flags: u64): Request { Request((KERNEL_VIRT_BASE + p) % TWO_64, p, flags) }

  /** n consecutive pages from start, at their own addresses. */
  function IdentityPages(start: nat, n: nat, flags: u64): seq<Request>
    requires start + n * 4096 <= TWO_64
  {
    seq(n, i requires 0 <= i < n => Identity(start + i * 4096, flags))
  }

  /** n consecutive pages from start, at their higher-half addresses. */
  function HigherHalfPages(start: nat, n: nat, flags: u64): seq<Request>
    requires start + n * 4096 <= TWO_64
  {
    seq(n, i requires 0 <= i < n => HigherHalf(start + i * 4096, flags))
  }

  /** n pages of RAM from base, each at its own and then at its higher-half address. */
  function RamPages(base: nat, n: nat): seq<Request>
    requires base + n * 4096 <= TWO_64
  {
    if n == 0 then []
    else
      var p: u64 := base + (n - 1) * 4096;
      RamPages(base, n - 1) + [Identity(p, KERNEL_RW), HigherHalf(p, KERNEL_RW)]
  }

  /** Every region ends within the 64-bit address range. */
  ghost predicate RegionsInRange(regions: seq<MemoryMap.Region>) {
    forall i :: 0 <= i < |regions| ==> regions[i].base + regions[i].pages * 4096 <= TWO_64
  }

  function RegionPages(r: MemoryMap.Region): seq<Request>
    requires r.base + r.pages * 4096 <= TWO_64
  {
    if r.flags == MemoryMap.USABLE then RamPages(r.base, r.pages) else []
  }

  function RamPlan(regions: seq<MemoryMap.Region>): seq<Request>
    requires RegionsInRange(regions)
  {
    if regions == [] then []
    else RamPlan(regions[..|regions| - 1]) + RegionPages(regions[|regions| - 1])
  }

  /** The boot-time layout: page-aligned kernel, framebuffer and heap intervals, and the RAM regions. */
  datatype Layout = Layout(kstart: nat, kpages: nat, regions: seq<MemoryMap.Region>,
                           fstart: nat, fpages: nat, hstart: nat, hpages: nat)

  ghost predicate ValidLayout(l: Layout) {
    && l.kstart % 4096 == 0 && l.fstart % 4096 == 0 && l.hstart % 4096 == 0
    && l.kstart + l.kpages * 4096 <= TWO_64
    && l.fstart + l.fpages * 4096 <= TWO_64
    && l.hstart + l.hpages * 4096 <= TWO_64
    && RegionsInRange(l.regions)
  }

  /** Every request of vmm_init, in order. */
  function Plan(l: Layout): seq<Request>
    requires ValidLayout(l)
  {
    IdentityPages(l.kstart, l.kpages, KERNEL_RW) + RamPlan(l.regions) + IdentityPages(l.fstart, l.fpages, MMIO)
    + HigherHalfPages(l.kstart, l.kpages, KERNEL_RW) + HigherHalfPages(l.hstart, l.hpages, KERNEL_RW)
  }

  /** Carrying out requests in order; like the source, failures are ignored. */
  function MapAll(s: State, root: nat, reqs: seq<Request>): State {
    if reqs == [] then s
    else
      var q := reqs[|reqs| - 1];
      MapPage(MapAll(s, root, reqs[..|reqs| - 1]), root, q.v, q.p, q.flags).0
  }

  ghost predicate AllMapped(s: State, root: nat, reqs: seq<Request>) {
    forall i :: 0 <= i < |reqs| ==>
      MapPage(MapAll(s, root, reqs[..i]), root, reqs[i].v, reqs[i].p, reqs[i].flags).1 == 0
  }

  /** The entry of w after all requests succeeded: that of the last request for its page. */
  function PlanCell(reqs: seq<Request>, w: nat): Option<u64> {
    if reqs == [] then None
    else
      var q := reqs[|reqs| - 1];
      if Vpn(q.v) == Vpn(w) then Some(LeafEntry(q.p, q.flags)) else PlanCell(reqs[..|reqs| - 1], w)
  }

  lemma {:induction false} MapAllConcat(s: State, root: nat, a: seq<Request>, b: seq<Request>)
    ensures MapAll(s, root, a + b) == MapAll(MapAll(s, root, a), root, b)
    decreases |b|
  {
    hide MapPage;
    if b == [] {
      assert a + b == a;
    } else {
      assert (a + b)[..|a + b| - 1] == a + b[..|b| - 1];
      MapAllConcat(s, root, a, b[..|b| - 1]);
    }
  }

  /** One more request at the end. */
  lemma MapAllStep(s: State, root: nat, a: seq<Request>, q: Request)
    ensures MapAll(s, root, a + [q]) == MapPage(MapAll(s, root, a), root, q.v, q.p, q.flags).0
  {
    hide MapPage;
    assert (a + [q])[..|a|] == a;
  }

  /** The two maps of one more page of RAM. */
  lemma RamPagesStep(s: State, root: nat, base: nat, j: nat, p: u64)
    requires p == base + j * 4096 && base + (j + 1) * 4096 <= TWO_64
    ensures MapAll(s, root, RamPages(base, j + 1)) ==
            MapPage(MapPage(MapAll(s, root, RamPages(base, j)), root, p, p, KERNEL_RW).0,
              root, (KERNEL_VIRT_BASE + p) % TWO_64, p, KERNEL_RW).0
  {
    hide MapPage, MapAll;
    var before := RamPages(base, j);
    MapAllStep(s, root, before, Identity(p, KERNEL_RW));
    MapAllStep(s, root, before + [Identity(p, KERNEL_RW)], HigherHalf(p, KERNEL_RW));
    assert RamPages(base, j + 1) == before + [Identity(p, KERNEL_RW)] + [HigherHalf(p, KERNEL_RW)];
  }

  /** Mapping requests through root keeps every state well formed and root an address space. */
  lemma {:induction false} MapAllKeepsInv(s: State, root: nat, reqs: seq<Request>)
    requires Inv(s) && IsRoot(s, root)
    ensures var s' := MapAll(s, root, reqs);
            Inv(s') && IsRoot(s', root)
    decreases |reqs|
  {
    hide Inv, FramesGrew, TablesGrew, Rewrote, SameSharing, SameTranslations, MapPage, Missing, CountFree;
    if reqs != [] {
      var n := |reqs| - 1;
      MapAllKeepsInv(s, root, reqs[..n]);
      var s1 := MapAll(s, root, reqs[..n]);
      MapLaw(s1, root, reqs[n].v, reqs[n].p, reqs[n].flags);
    }
  }

  /** Once all requests succeeded, the last request for a page decides; other pages are as before. */
  lemma {:induction false} MapAllLookup(s: State, root: nat, reqs: seq<Request>, w: nat)
    requires Inv(s) && IsRoot(s, root) && AllMapped(s, root, reqs)
    ensures Lookup(MapAll(s, root, reqs).mem, root, w) ==
            if PlanCell(reqs, w).Some? then PlanCell(reqs, w) else Lookup(s.mem, root, w)
    decreases |reqs|
  {
    hide Inv, FramesGrew, TablesGrew, SameSharing, SameTranslations, MapPage, Missing, Lookup, LeafEntry, Vpn;
    if reqs != [] {
      var n := |reqs| - 1;
      assert forall i :: 0 <= i < n ==> reqs[..n][..i] == reqs[..i];
      MapAllLookup(s, root, reqs[..n], w);
      MapAllKeepsInv(s, root, reqs[..n]);
      MapLaw(MapAll(s, root, reqs[..n]), root, reqs[n].v, reqs[n].p, reqs[n].flags);
      assert reqs[..n] == reqs[..|reqs| - 1];
    }
  }

  // ----- What the plan maps -----

  /** q maps an address below the identity limit to itself, or a page below 2 GiB to the higher half. */
  predicate Proper(q: Request) {
    && q.p % 4096 == 0
    && (q.flags == KERNEL_RW || q.flags == MMIO)
    && ((q == Identity(q.p, q.flags) && q.p < IDENTITY_LIMIT) || (q == HigherHalf(q.p, q.flags) && q.p < GIB_2))
  }

  /** All planned pages are in range: kernel, RAM and heap below 2 GiB, the framebuffer below the limit. */
  ghost predicate LowMemory(l: Layout) {
    && ValidLayout(l)
    && l.kstart + l.kpages * 4096 <= GIB_2
    && l.hstart + l.hpages * 4096 <= GIB_2
    && l.fstart + l.fpages * 4096 <= IDENTITY_LIMIT
    && (forall i :: 0 <= i < |l.regions| && l.regions[i].flags == MemoryMap.USABLE ==>
          l.regions[i].base % 4096 == 0 && l.regions[i].base + l.regions[i].pages * 4096 <= GIB_2)
  }

  /** a is a page address of [start, start + 4096 * pages). */
  predicate PageIn(start: nat, pages: nat, a: nat) {
    a % 4096 == start % 4096 && start <= a < start + pages * 4096
  }

  ghost predicate IsRamPage(l: Layout, a: nat) {
    exists i :: 0 <= i < |l.regions| && l.regions[i].flags == MemoryMap.USABLE
        && PageIn(l.regions[i].base, l.regions[i].pages, a)
  }

  /** The requests of the plan, as a set of pages. */
  ghost predicate Planned(l: Layout, q: Request) {
    || ((PageIn(l.kstart, l.kpages, q.p) || IsRamPage(l, q.p)) && q == Identity(q.p, KERNEL_RW))
    || ((PageIn(l.kstart, l.kpages, q.p) || IsRamPage(l, q.p) || PageIn(l.hstart, l.hpages, q.p))
       && q == HigherHalf(q.p, KERNEL_RW))
    || (PageIn(l.fstart, l.fpages, q.p) && q == Identity(q.p, MMIO))
  }

  lemma IdentityPagesLaw(start: nat, n: nat, flags: u64, q: Request)
    requires start + n * 4096 <= TWO_64
    ensures q in IdentityPages(start, n, flags) <==> PageIn(start, n, q.p) && q == Identity(q.p, flags)
  {
    var qs := IdentityPages(start, n, flags);
    if PageIn(start, n, q.p) && q == Identity(q.p, flags) {
      assert qs[(q.p - start) / 4096] == q;
    }
  }

  lemma HigherHalfPagesLaw(start: nat, n: nat, flags: u64, q: Request)
    requires start + n * 4096 <= TWO_64
    ensures q in HigherHalfPages(start, n, flags) <==> PageIn(start, n, q.p) && q == HigherHalf(q.p, flags)
  {
    hide HigherHalf;
    var qs := HigherHalfPages(start, n, flags);
    if PageIn(start, n, q.p) && q == HigherHalf(q.p, flags) {
      assert qs[(q.p - start) / 4096] == q;
    }
    if q in qs {
      var i :| 0 <= i < n && qs[i] == q;
      HigherHalfFields(start + i * 4096, flags);
    }
  }

  lemma HigherHalfFields(p: u64, flags: u64)
    ensures HigherHalf(p, flags).p == p && HigherHalf(p, flags).flags == flags
  {
  }

  lemma {:induction false} RamPagesLaw(base: nat, n: nat, q: Request)
    requires base + n * 4096 <= TWO_64
    ensures q in RamPages(base, n) <==>
            PageIn(base, n, q.p) && (q == Identity(q.p, KERNEL_RW) || q == HigherHalf(q.p, KERNEL_RW))
  {
    hide Identity, HigherHalf, PageIn;
    if n == 0 {
      NoPageIn(base, q.p);
    } else {
      var p := base + (n - 1) * 4096;
      RamPagesLaw(base, n - 1, q);
      LastPageIn(base, n, q.p);
      HigherHalfFields(p, KERNEL_RW);
      IdentityFields(p, KERNEL_RW);
    }
  }

  lemma NoPageIn(base: nat, a: nat)
    ensures !PageIn(base, 0, a)
  {
  }

  /** The pages of a run are those of a run one shorter and its last page. */
  lemma LastPageIn(base: nat, n: nat, a: nat)
    requires n > 0
    ensures PageIn(base, n, a) <==> a == base + (n - 1) * 4096 || PageIn(base, n - 1, a)
  {
  }

  lemma IdentityFields(p: u64, flags: u64)
    ensures Identity(p, flags).p == p && Identity(p, flags).flags == flags
  {
  }

  lemma {:induction false} RamPlanLaw(regions: seq<MemoryMap.Region>, q: Request)
    requires RegionsInRange(regions)
    ensures q in RamPlan(regions) <==>
            (exists i :: 0 <= i < |regions| && regions[i].flags == MemoryMap.USABLE
                && PageIn(regions[i].base, regions[i].pages, q.p))
            && (q == Identity(q.p, KERNEL_RW) || q == HigherHalf(q.p, KERNEL_RW))
  {
    hide PageIn;
    if regions != [] {
      var n := |regions| - 1;
      RamPlanLaw(regions[..n], q);
      RamPagesLaw(regions[n].base, regions[n].pages, q);
    }
  }

  lemma PlanLaw(l: Layout, q: Request)
    requires ValidLayout(l)
    ensures q in Plan(l) <==> Planned(l, q)
  {
    hide PageIn, IdentityPages, HigherHalfPages, RamPlan, Identity, HigherHalf;
    IdentityPagesLaw(l.kstart, l.kpages, KERNEL_RW, q);
    RamPlanLaw(l.regions, q);
    IdentityPagesLaw(l.fstart, l.fpages, MMIO, q);
    HigherHalfPagesLaw(l.kstart, l.kpages, KERNEL_RW, q);
    HigherHalfPagesLaw(l.hstart, l.hpages, KERNEL_RW, q);
  }

  lemma PlanProper(l: Layout, q: Request)
    requires LowMemory(l) && Planned(l, q)
    ensures Proper(q)
  {
  }

  /** Two proper requests for the same virtual page ask for the same physical page. */
  lemma NoConflict(q1: Request, q2: Request)
    requires Proper(q1) && Proper(q2) && Vpn(q1.v) == Vpn(q2.v)
    ensures q1.p == q2.p && q1.v == q2.v
  {
    ProperVpn(q1);
    ProperVpn(q2);
  }

  lemma ProperVpn(q: Request)
    requires Proper(q)
    ensures q == Identity(q.p, q.flags) ==> Vpn(q.v) == q.p / 4096 < 0xF_FFF8_0000
    ensures q == HigherHalf(q.p, q.flags) && q.p < GIB_2 ==> Vpn(q.v) == 0xF_FFF8_0000 + q.p / 4096
  {
    if q == HigherHalf(q.p, q.flags) && q.p < GIB_2 { HigherVpn(q.p); }
  }

  lemma HigherVpn(p: nat)
    requires p % 4096 == 0 && p < GIB_2
    ensures (KERNEL_VIRT_BASE + p) % TWO_64 == KERNEL_VIRT_BASE + p
    ensures Vpn(KERNEL_VIRT_BASE + p) == 0xF_FFF8_0000 + p / 4096
  {
  }

  /** The deciding request for a page is one of the plan, and there is one whenever any names the page. */
  lemma {:induction false} PlanCellLaw(reqs: seq<Request>, w: nat) returns (q: Request)
    ensures PlanCell(reqs, w).Some? <==> exists x :: x in reqs && Vpn(x.v) == Vpn(w)
    ensures PlanCell(reqs, w).Some? ==>
              q in reqs && Vpn(q.v) == Vpn(w) && PlanCell(reqs, w) == Some(LeafEntry(q.p, q.flags))
  {
    hide Vpn, LeafEntry;
    if reqs == [] {
      q := Request(0, 0, 0);
    } else {
      var n := |reqs| - 1;
      q := PlanCellLaw(reqs[..n], w);
      if Vpn(reqs[n].v) == Vpn(w) { q := reqs[n]; }
    }
  }

  lemma ProperEntry(q: Request)
    requires Proper(q)
    ensures Frame(LeafEntry(q.p, q.flags)) == q.p
  {
    hide And, Or, LeafEntry;
    LeafLaw(q.p, q.flags);
    AndHigh12(q.flags, 0xFF_FFFF_FFFF);
    AndZero(0xFF_FFFF_FFFF);
    OrZero(q.p);
  }

  /** The address space at the start of vmm_init: a zeroed PML4. */
  ghost predicate FreshRoot(s: State, root: nat) {
    Inv(s) && IsRoot(s, root) && forall j: nat :: j < ENTRIES ==> Entry(s.mem, root, j) == 0
  }

  /** An address on a planned page translates to the byte of the same offset in the planned frame. */
  lemma PlannedTranslates(s: State, root: nat, l: Layout, q: Request, w: u64)
    requires FreshRoot(s, root) && LowMemory(l) && AllMapped(s, root, Plan(l))
    requires Planned(l, q) && Vpn(w) == Vpn(q.v)
    ensures GetPhys(MapAll(s, root, Plan(l)), root, w) == q.p + w % 4096
  {
    hide Inv, Planned, ValidLayout, AllMapped, MapAll, Lookup, GetPhys, Vpn, Frame, LeafEntry, Proper, Plan;
    var reqs := Plan(l);
    MapAllKeepsInv(s, root, reqs);
    MapAllLookup(s, root, reqs, w);
    PlanLaw(l, q);
    var d := PlanCellLaw(reqs, w);
    PlanLaw(l, d);
    PlanProper(l, q);
    PlanProper(l, d);
    NoConflict(q, d);
    ProperEntry(d);
    GetPhysLaw(MapAll(s, root, reqs), root, w);
  }

  /** a lies in the pages of [start, start + 4096 * pages). */
  predicate ByteIn(start: nat, pages: nat, a: nat) {
    start <= a < start + pages * 4096
  }

  ghost predicate IsRamByte(l: Layout, a: nat) {
    exists i :: 0 <= i < |l.regions| && l.regions[i].flags == MemoryMap.USABLE
        && ByteIn(l.regions[i].base, l.regions[i].pages, a)
  }

  lemma SameOffset(p: nat, off: nat)
    requires p % 4096 == 0 && off < 4096
    ensures Vpn(p + off) == Vpn(p) && (p + off) % 4096 == off
  {
  }

  /** A planned page is translated at every one of its byte offsets. */
  lemma PlannedByte(s: State, root: nat, l: Layout, q: Request, off: nat)
    requires FreshRoot(s, root) && LowMemory(l) && AllMapped(s, root, Plan(l))
    requires Planned(l, q) && off < 4096
    ensures q.v % 4096 == 0 && q.v + off < TWO_64 && GetPhys(MapAll(s, root, Plan(l)), root, q.v + off) == q.p + off
  {
    hide Inv, Planned, LowMemory, AllMapped, MapAll, GetPhys, Vpn, Plan;
    PlanProper(l, q);
    SameOffset(q.v, off);
    PlannedTranslates(s, root, l, q, q.v + off);
  }

  /** The page of a byte of the layout is planned where vmm_init maps it. */
  lemma BytePlanned(l: Layout, a: nat)
    requires LowMemory(l)
    ensures var p := a - a % 4096;
            && (ByteIn(l.kstart, l.kpages, a) || IsRamByte(l, a) ==>
                  p < GIB_2 && Planned(l, Identity(p, KERNEL_RW)) && Planned(l, HigherHalf(p, KERNEL_RW)))
            && (ByteIn(l.hstart, l.hpages, a) ==> p < GIB_2 && Planned(l, HigherHalf(p, KERNEL_RW)))
            && (ByteIn(l.fstart, l.fpages, a) ==> p < IDENTITY_LIMIT && Planned(l, Identity(p, MMIO)))
  {
    var p := a - a % 4096;
    ByteToPage(l.kstart, l.kpages, a);
    ByteToPage(l.hstart, l.hpages, a);
    ByteToPage(l.fstart, l.fpages, a);
    if IsRamByte(l, a) {
      var i :| 0 <= i < |l.regions| && l.regions[i].flags == MemoryMap.USABLE
          && ByteIn(l.regions[i].base, l.regions[i].pages, a);
      ByteToPage(l.regions[i].base, l.regions[i].pages, a);
      assert IsRamPage(l, p);
    }
    if p < GIB_2 { HigherHalfFields(p, KERNEL_RW); }
  }

  lemma ByteToPage(start: nat, pages: nat, a: nat)
    requires start % 4096 == 0
    ensures ByteIn(start, pages, a) ==> PageIn(start, pages, a - a % 4096)
  {
  }

  lemma HigherHalfAddress(p: u64, off: nat)
    requires p < GIB_2
    ensures HigherHalf(p, KERNEL_RW).v + off == KERNEL_VIRT_BASE + (p + off)
  {
  }

  /**
   After vmm_init with memory below 2 GiB and enough frames for the tables: every byte of the kernel
   and of usable RAM is reachable at its own address and in the higher half, every byte of the heap
   in the higher half, every byte of the framebuffer at its own address.
   */
  lemma BootMapComplete(s: State, root: nat, l: Layout, a: u64)
    requires FreshRoot(s, root) && LowMemory(l) && AllMapped(s, root, Plan(l))
    ensures var s' := MapAll(s, root, Plan(l));
            && (ByteIn(l.kstart, l.kpages, a) || IsRamByte(l, a) ==>
                  GetPhys(s', root, a) == a && KERNEL_VIRT_BASE + a < TWO_64
                      && GetPhys(s', root, KERNEL_VIRT_BASE + a) == a)
            && (ByteIn(l.hstart, l.hpages, a) ==>
                  KERNEL_VIRT_BASE + a < TWO_64 && GetPhys(s', root, KERNEL_VIRT_BASE + a) == a)
            && (ByteIn(l.fstart, l.fpages, a) ==> GetPhys(s', root, a) == a)
  {
    hide FreshRoot, Planned, LowMemory, AllMapped, MapAll, GetPhys, Vpn, Plan, ByteIn, IsRamByte, HigherHalf;
    BytePlanned(l, a);
    var p, off := a - a % 4096, a % 4096;
    if ByteIn(l.kstart, l.kpages, a) || IsRamByte(l, a) {
      PlannedByte(s, root, l, Identity(p, KERNEL_RW), off);
    }
    if ByteIn(l.kstart, l.kpages, a) || IsRamByte(l, a) || ByteIn(l.hstart, l.hpages, a) {
      PlannedByte(s, root, l, HigherHalf(p, KERNEL_RW), off);
      HigherHalfFields(p, KERNEL_RW);
      HigherHalfAddress(p, off);
    }
    if ByteIn(l.fstart, l.fpages, a) {
      PlannedByte(s, root, l, Identity(p, MMIO), off);
    }
  }

  /**
   Why the layout must lie below 2 GiB: there the higher-half request of vmm_init goes where it is
   meant to, and from 2 GiB on its address wraps and it takes over the page at p - 2 GiB.
   */
  lemma HigherHalfWraps(s: State, root: nat, p: u64)
    requires Inv(s) && IsRoot(s, root) && PageAddress(p)
    requires var q := HigherHalf(p, KERNEL_RW); MapPage(s, root, q.v, q.p, q.flags).1 == 0
    ensures var q := HigherHalf(p, KERNEL_RW);
            var s' := MapPage(s, root, q.v, q.p, q.flags).0;
            && (q.v == KERNEL_VIRT_BASE + p <==> p < GIB_2)
            && GetPhys(s', root, if p < GIB_2 then KERNEL_VIRT_BASE + p else p - GIB_2) == p
  {
    hide Inv, MapPage, GetPhys, Frame, And, Or;
    HigherHalfPlace(p);
    var q := HigherHalf(p, KERNEL_RW);
    FlagsAddNothing(p);
    MapThenGetPhys(s, root, q.v, p, KERNEL_RW, q.v);
  }

  lemma FlagsAddNothing(p: u64)
    ensures Or(p, Frame(KERNEL_RW)) == p
  {
    hide And, Or;
    AndHigh12(KERNEL_RW, 0xFF_FFFF_FFFF);
    AndZero(0xFF_FFFF_FFFF);
    OrZero(p);
  }

  lemma HigherHalfPlace(p: u64)
    requires PageAddress(p)
    ensures HigherHalf(p, KERNEL_RW).v == if p < GIB_2 then KERNEL_VIRT_BASE + p else p - GIB_2
    ensures HigherHalf(p, KERNEL_RW).v % 4096 == 0
  {
  }

  /** A page of the run that pmm_alloc_pages hands out is ordinary RAM if every free page is. */
  lemma RunIsRam(l: Layout, pool: Pool, n: nat, p: nat)
    requires ValidPool(pool) && n > 0 && AllocPages(pool, n).1 != 0
    requires MemoryMap.FreeOnlyRam(l.regions, pool)
    requires p % 4096 == 0 && ByteIn(AllocPages(pool, n).1, n, p)
    ensures MemoryMap.IsConventional(l.regions, p)
  {
    hide CountFree, AllocPages;
    AllocPagesLaw(pool, n);
    var base := AllocPages(pool, n).1;
    assert Covered(pool, p) && FrameIndex(pool, base) <= FrameIndex(pool, p) < FrameIndex(pool, base) + n;
    assert Free(pool, p);
  }

  lemma ConventionalByte(l: Layout, a: nat)
    requires LowMemory(l) && MemoryMap.IsConventional(l.regions, a - a % 4096)
    ensures IsRamByte(l, a)
  {
    var p := a - a % 4096;
    var r :| r in l.regions && r.flags == MemoryMap.USABLE && r.base <= p < r.base + r.pages * 4096;
    var i :| 0 <= i < |l.regions| && l.regions[i] == r;
    PageThenByte(r.base, r.pages, a);
    assert ByteIn(l.regions[i].base, l.regions[i].pages, a);
  }

  lemma PageThenByte(start: nat, pages: nat, a: nat)
    requires start % 4096 == 0 && ByteIn(start, pages, a - a % 4096)
    ensures ByteIn(start, pages, a)
  {
  }

  /** The heap is taken from RAM, so vmm_init leaves each of its bytes reachable at both addresses too. */
  lemma HeapAtBoth(s: State, root: nat, l: Layout, pool: Pool, a: u64)
    requires FreshRoot(s, root) && LowMemory(l) && AllMapped(s, root, Plan(l))
    requires ValidPool(pool) && MemoryMap.FreeOnlyRam(l.regions, pool)
    requires l.hpages > 0 && l.hstart == AllocPages(pool, l.hpages).1 != 0 && ByteIn(l.hstart, l.hpages, a)
    ensures var s' := MapAll(s, root, Plan(l));
            && GetPhys(s', root, a) == a
            && KERNEL_VIRT_BASE + a < TWO_64 && GetPhys(s', root, KERNEL_VIRT_BASE + a) == a
  {
    hide Inv, FreshRoot, AllMapped, MapAll, GetPhys, Plan, MemoryMap.FreeOnlyRam, AllocPages, MemoryMap.IsConventional;
    BootMapComplete(s, root, l, a);
    assert ByteIn(l.hstart, l.hpages, a - a % 4096);
    RunIsRam(l, pool, l.hpages, a - a % 4096);
    ConventionalByte(l, a);
  }

  lemma EmptyLookup(s: State, root: nat, w: nat)
    requires FreshRoot(s, root)
    ensures Lookup(s.mem, root, w) == None
  {
    hide Inv, Present, Frame, PdptIndex, PdIndex, PtIndex;
    ZeroAbsent();
    ChildOfNull(s.mem);
    assert Entry(s.mem, root, Pml4Index(w)) == 0;
  }

  // ----- Taking the first PML4, and the self-check -----

  /** alloc_table for a PML4: a zeroed top-level table at a formerly free frame. */
  lemma FreshRootLaw(s: State)
    requires Inv(s)
    ensures var (s', root) := AllocTable(s, ROOT);
            && (root == 0 <==> CountFree(s.pool.used) == 0)
            && (root == 0 ==> s' == s)
            && (root != 0 ==>
                  && FreshRoot(s', root) && FramesGrew(s, s')
                  && s'.tables == s.tables[root := ROOT] && root !in s.tables)
  {
    hide Present, Frame, CountFree, AllocPage, TableOk;
    AllocPageLaw(s.pool);
    var (s', root) := AllocTable(s, ROOT);
    if root != 0 {
      assert root !in s.tables by { if root in s.tables { TableUsed(s, root); } }
      forall t | t in s'.tables ensures TableOk(s', t) { FreshTableOk(s, s', root, t); }
      assert s'.tables.Keys == s.tables.Keys + {root};
    }
  }

  lemma TableUsed(s: State, t: nat)
    requires Inv(s) && t in s.tables
    ensures Used(s.pool, t)
  {
    assert TableOk(s, t);
  }

  /** A zeroed table at a frame just taken is well formed, and so are the tables there were. */
  lemma FreshTableOk(s: State, s': State, root: nat, t: nat)
    requires Inv(s) && t in s'.tables && root !in s.tables && Used(s'.pool, root)
    requires s'.mem == s.mem[root := Zeros()] && s'.tables == s.tables[root := ROOT]
    requires forall b :: b != root ==> (Used(s'.pool, b) <==> Used(s.pool, b))
    ensures TableOk(s', t)
  {
    hide Present, Frame, CountFree, Used, IsLink;
    if t != root {
      assert TableOk(s, t);
      if s.tables[t].level >= 2 {
        forall i | 0 <= i < ENTRIES ensures LinkOk(s', t, i) { assert LinkOk(s, t, i); }
      }
    }
  }

  function LayoutOf(kernelStart: nat, kernelEnd: nat, regions: seq<MemoryMap.Region>, fbBase: nat, fbSize: nat,
                    heapStart: nat, heapEnd: nat): Layout
    requires kernelStart <= kernelEnd
  {
    Layout(MemoryMap.PageDown(kernelStart), PageCount(kernelStart, kernelEnd), regions,
           MemoryMap.PageDown(fbBase), if fbBase == 0 then 0 else PageCount(fbBase, fbBase + fbSize),
           MemoryMap.PageDown(heapStart),
           if heapStart == 0 || heapEnd <= heapStart then 0 else PageCount(heapStart, heapEnd))
  }

  /** Number of pages that meet [start, end). */
  function PageCount(start: nat, end: nat): nat
    requires start <= end
  {
    (MemoryMap.PageUp(end) - MemoryMap.PageDown(start)) / 4096
  }

  /** The page at a reaches into [start, end); an empty interval counts where it lies inside a page. */
  predicate Meets(start: nat, end: nat, a: nat) {
    a % 4096 == 0 && a < end && start < a + 4096
  }

  lemma Rounded(start: nat, end: nat) returns (lo: nat, hi: nat)
    requires start <= end
    ensures MemoryMap.PageDown(start) == 4096 * lo <= start < 4096 * lo + 4096
    ensures 4096 * lo + PageCount(start, end) * 4096 == 4096 * hi && end <= 4096 * hi < end + 4096
  {
    lo, hi := MemoryMap.PageDown(start) / 4096, MemoryMap.PageUp(end) / 4096;
  }

  lemma PagesMet(start: nat, end: nat, a: nat)
    requires start <= end
    ensures PageIn(MemoryMap.PageDown(start), PageCount(start, end), a) <==> Meets(start, end, a)
  {
    hide MemoryMap.PageDown, PageCount;
    var lo, hi := Rounded(start, end);
    if a % 4096 == 0 {
      var k := a / 4096;
      assert a == 4096 * k;
    }
  }

  /**
   The layout vmm_init works on: the pages of kernel, framebuffer and heap are exactly those that reach into their
   bytes; without a framebuffer base, or without a heap, there are none.
   */
  lemma LayoutOfLaw(kernelStart: nat, kernelEnd: nat, regions: seq<MemoryMap.Region>, fbBase: nat, fbSize: nat,
                    heapStart: nat, heapEnd: nat, a: nat)
    requires kernelStart <= kernelEnd
    ensures var l := LayoutOf(kernelStart, kernelEnd, regions, fbBase, fbSize, heapStart, heapEnd);
            && l.regions == regions
            && (PageIn(l.kstart, l.kpages, a) <==> Meets(kernelStart, kernelEnd, a))
            && (PageIn(l.fstart, l.fpages, a) <==> fbBase != 0 && Meets(fbBase, fbBase + fbSize, a))
            && (PageIn(l.hstart, l.hpages, a) <==>
                heapStart != 0 && heapStart < heapEnd && Meets(heapStart, heapEnd, a))
  {
    hide MemoryMap.PageDown, PageCount, Meets, PageIn;
    PagesMet(kernelStart, kernelEnd, a);
    if fbBase != 0 { PagesMet(fbBase, fbBase + fbSize, a); }
    if heapStart != 0 && heapStart < heapEnd { PagesMet(heapStart, heapEnd, a); }
    NoPageIn(MemoryMap.PageDown(fbBase), a);
    NoPageIn(MemoryMap.PageDown(heapStart), a);
  }

  /** Both self-checks of vmm_init. */
  predicate SelfCheck(s: State, root: nat, self: u64) {
    GetPhys(s, root, self) == self && GetPhys(s, root, (KERNEL_VIRT_BASE + self) % TWO_64) == self
  }

  /** What vmm_init does to the state: a fresh PML4, the whole plan in order, and the verdict of the self-checks. */
  ghost predicate InitOutcome(s: State, s': State, root: nat, l: Layout, self: u64, ok: bool) {
    var (s0, pml4) := AllocTable(s, ROOT);
    && ValidLayout(l)
    && (pml4 == 0 ==> !ok && s' == s)
    && (pml4 != 0 ==>
          && root == pml4 && FreshRoot(s0, root)
          && s' == MapAll(s0, root, Plan(l))
          && (ok <==> SelfCheck(s', root, self)))
  }
}
