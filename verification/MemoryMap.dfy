/**
 The firmware's memory map: the region table, the interval to cover and the free pages that pmm_init makes of it,
 descriptor by descriptor and address by address.
 */
module MemoryMap {
  import opened Bits
  import opened Frames

  const MAX_REGIONS: nat := 128

  const USABLE: nat := 0x1
  const RESERVED: nat := 0x2
  const ACPI: nat := 0x8

  const BOOT_SERVICES_CODE: nat := 3
  const BOOT_SERVICES_DATA: nat := 4
  const CONVENTIONAL_MEMORY: nat := 7
  const ACPI_RECLAIM_MEMORY: nat := 9

  /** An entry of the UEFI memory map. */
  datatype Descriptor = Descriptor(kind: nat, start: nat, pages: nat)

  datatype Region = Region(base: nat, pages: nat, kind: nat, flags: nat)

  function Classify(kind: nat): nat {
    if kind == CONVENTIONAL_MEMORY then USABLE
    else if kind == BOOT_SERVICES_CODE || kind == BOOT_SERVICES_DATA then USABLE
    else if kind == ACPI_RECLAIM_MEMORY then ACPI
    else RESERVED
  }

  const LOW_MEMORY: nat := 0x10_0000

  /** Usable memory at or above the first MiB. */
  predicate IsRam(d: Descriptor) {
    d.pages > 0 && d.start >= LOW_MEMORY && Classify(d.kind) == USABLE
  }

  function End(d: Descriptor): nat {
    d.start + d.pages * PAGE_SIZE
  }

  /** The regions a descriptor adds to the table: at most one. */
  function Keep(d: Descriptor): seq<Region> {
    if d.pages == 0 then []
    else if d.start < LOW_MEMORY then [Region(d.start, d.pages, d.kind, RESERVED)]
    else if Classify(d.kind) == USABLE || d.pages >= 256 then [Region(d.start, d.pages, d.kind, Classify(d.kind))]
    else []
  }

  function AddRegion(regions: seq<Region>, more: seq<Region>): seq<Region> {
    if |regions| >= MAX_REGIONS then regions else regions + more
  }

  /** The region table pass 1 builds; regions beyond the 128th are dropped. */
  function Register(descs: seq<Descriptor>): seq<Region> {
    if descs == [] then []
    else AddRegion(Register(descs[..|descs| - 1]), Keep(descs[|descs| - 1]))
  }

  function RamPages(descs: seq<Descriptor>): nat {
    if descs == [] then 0
    else
      var d := descs[|descs| - 1];
      RamPages(descs[..|descs| - 1]) + if IsRam(d) then d.pages else 0
  }

  /** A memory map as the firmware promises it: page aligned, 52-bit, and without overlaps. */
  ghost predicate ValidMap(descs: seq<Descriptor>) {
    && (forall i :: 0 <= i < |descs| ==> descs[i].start % PAGE_SIZE == 0 && End(descs[i]) <= TWO_52)
    && (forall i, j :: 0 <= i < j < |descs| && descs[i].pages > 0 && descs[j].pages > 0 ==>
          End(descs[i]) <= descs[j].start || End(descs[j]) <= descs[i].start)
  }

  /** [lo, hi) is the smallest interval that holds all RAM descriptors; there is at least one. */
  ghost predicate Covers(descs: seq<Descriptor>, lo: nat, hi: nat) {
    && (forall d :: d in descs && IsRam(d) ==> lo <= d.start && End(d) <= hi)
    && (exists d :: d in descs && IsRam(d) && d.start == lo)
    && (exists d :: d in descs && IsRam(d) && End(d) == hi)
  }

  predicate IsBoot(r: Region) {
    r.kind == BOOT_SERVICES_CODE || r.kind == BOOT_SERVICES_DATA
  }

  /** The page frame at address a is ordinary RAM of a registered region above the first MiB. */
  ghost predicate IsConventional(regions: seq<Region>, a: nat) {
    exists r :: r in regions && r.kind == CONVENTIONAL_MEMORY && r.flags == USABLE &&
                r.base <= a < r.base + r.pages * PAGE_SIZE
  }

  /** A page of the cover is free exactly when it is ordinary RAM and no part of the kernel or the stack. */
  ghost predicate FreeIsRam(regions: seq<Region>, p: Pool, kernelStart: nat, kernelEnd: nat, stackBottom: nat,
                            stackTop: nat)
  {
    forall a :: Covered(p, a) ==>
      (Free(p, a) <==>
       IsConventional(regions, a) && !IsImage(p, kernelStart, kernelEnd, a) && !IsImage(p, stackBottom, stackTop, a))
  }

  /** Every free page is ordinary RAM. */
  ghost predicate FreeOnlyRam(regions: seq<Region>, p: Pool) {
    forall a :: Free(p, a) ==> IsConventional(regions, a)
  }

  /**
   pmm_init leaves only ordinary RAM free, and reserving a region, as the kernel does before heap_init, keeps
   that.
   */
  lemma FreeStaysRam(regions: seq<Region>, p: Pool, kernelStart: nat, kernelEnd: nat, stackBottom: nat, stackTop: nat,
                     base: nat, n: nat)
    ensures FreeIsRam(regions, p, kernelStart, kernelEnd, stackBottom, stackTop) ==> FreeOnlyRam(regions, p)
    ensures FreeOnlyRam(regions, p) ==> FreeOnlyRam(regions, SetRegion(p, base, n, true))
  {
    hide IsConventional, IsImage;
  }

  function PageDown(a: nat): nat { a / PAGE_SIZE * PAGE_SIZE }
  function PageUp(a: nat): nat { (a + PAGE_SIZE - 1) / PAGE_SIZE * PAGE_SIZE }

  /** The frame at a lies in the pages of [start, end), provided start lies in the cover. */
  predicate IsImage(p: Pool, start: nat, end: nat, a: nat) {
    Covered(p, PageDown(start)) && PageDown(start) <= a < PageUp(end)
  }

  // ----- Descriptor by descriptor -----

  /** Types 3, 4 and 7 are RAM the kernel may use, from 1 MiB on. */
  lemma RamKinds(d: Descriptor)
    ensures IsRam(d) <==> d.pages > 0 && d.start >= 0x10_0000 && d.kind in {3, 4, 7}
  {
  }

  // ----- The region table -----

  /** The descriptors pass 1 wants in the table: those below 1 MiB, usable ones, and other large ones. */
  predicate Wanted(d: Descriptor) {
    d.pages > 0 && (d.start < 0x10_0000 || d.kind in {3, 4, 7} || d.pages >= 256)
  }

  /** The region of a descriptor: reserved below 1 MiB, else usable, ACPI tables, or reserved by its type. */
  function RegionOf(d: Descriptor): Region {
    Region(d.start, d.pages, d.kind,
      if d.start < 0x10_0000 then 2 else if d.kind in {3, 4, 7} then 1 else if d.kind == 9 then 8 else 2)
  }

  lemma KeepExact(d: Descriptor)
    ensures Keep(d) == if Wanted(d) then [RegionOf(d)] else []
  {
  }

  /** The wanted descriptors among the first n. */
  function WantedBefore(descs: seq<Descriptor>, n: nat): set<nat>
    requires n <= |descs|
  {
    set i | 0 <= i < n && Wanted(descs[i])
  }

  /** Descriptor i is wanted, and fewer than 128 are before it. */
  predicate Stands(descs: seq<Descriptor>, i: nat) {
    i < |descs| && Wanted(descs[i]) && |WantedBefore(descs, i)| < 128
  }

  lemma WantedStep(descs: seq<Descriptor>, n: nat)
    requires n < |descs|
    ensures |WantedBefore(descs, n + 1)| == |WantedBefore(descs, n)| + if Wanted(descs[n]) then 1 else 0
  {
    hide Wanted;
    if Wanted(descs[n]) {
      assert WantedBefore(descs, n + 1) == WantedBefore(descs, n) + {n};
    } else {
      assert WantedBefore(descs, n + 1) == WantedBefore(descs, n);
    }
  }

  lemma WantedPrefix(descs: seq<Descriptor>, n: nat, i: nat)
    requires i <= n <= |descs|
    ensures WantedBefore(descs[..n], i) == WantedBefore(descs, i)
  {
    hide Wanted;
  }

  /** src lists, in order, the descriptors of the table, and it has every one of the first 128 wanted. */
  ghost predicate Sources(descs: seq<Descriptor>, regs: seq<Region>, src: seq<nat>) {
    && |src| == |regs|
    && (forall k :: 0 <= k < |src| ==> src[k] < |descs| && regs[k] == RegionOf(descs[src[k]]))
    && (forall j, k :: 0 <= j < k < |src| ==> src[j] < src[k])
    && (forall i: nat :: i in src <==> Stands(descs, i))
    && |src| == (if |WantedBefore(descs, |descs|)| < 128 then |WantedBefore(descs, |descs|)| else 128)
  }

  lemma StandsPrefix(descs: seq<Descriptor>, n: nat, i: nat)
    requires i < n <= |descs|
    ensures Stands(descs[..n], i) <==> Stands(descs, i)
  {
    hide Wanted, WantedBefore;
    WantedPrefix(descs, n, i);
  }

  /** The sources after one more descriptor. */
  lemma SourcesGrow(descs: seq<Descriptor>, regs: seq<Region>, src: seq<nat>, src': seq<nat>)
    requires descs != [] && Sources(descs[..|descs| - 1], regs, src)
    requires src' == if Wanted(descs[|descs| - 1]) && |regs| < 128 then src + [|descs| - 1] else src
    ensures forall i: nat :: i in src' <==> Stands(descs, i)
  {
    hide Wanted, RegionOf, WantedBefore;
    var n := |descs| - 1;
    WantedStep(descs, n);
    WantedPrefix(descs, n, n);
    forall i: nat ensures i in src' <==> Stands(descs, i) {
      if i < n { StandsPrefix(descs, n, i); }
      assert i in src <==> Stands(descs[..n], i);
    }
  }

  /** The table after one more descriptor, row by row. */
  lemma RowsGrow(descs: seq<Descriptor>, regs: seq<Region>, src: seq<nat>, regs': seq<Region>, src': seq<nat>)
    requires descs != [] && Sources(descs[..|descs| - 1], regs, src)
    requires
      && src' == (if Wanted(descs[|descs| - 1]) && |regs| < 128 then src + [|descs| - 1] else src)
      && regs' == if |regs| < 128 then regs + Keep(descs[|descs| - 1]) else regs
    ensures |src'| == |regs'|
    ensures forall k :: 0 <= k < |src'| ==> src'[k] < |descs| && regs'[k] == RegionOf(descs[src'[k]])
    ensures forall j, k :: 0 <= j < k < |src'| ==> src'[j] < src'[k]
  {
    var n := |descs| - 1;
    KeepExact(descs[n]);
    hide Wanted, RegionOf, Keep, WantedBefore, Stands;
    forall k | 0 <= k < |src'| ensures src'[k] < |descs| && regs'[k] == RegionOf(descs[src'[k]]) {
      if k < |src| {
        assert descs[..n][src[k]] == descs[src[k]];
      }
    }
  }

  lemma SourcesStep(descs: seq<Descriptor>, regs: seq<Region>, src: seq<nat>) returns (src': seq<nat>)
    requires descs != [] && Sources(descs[..|descs| - 1], regs, src)
    ensures Sources(descs, AddRegion(regs, Keep(descs[|descs| - 1])), src')
  {
    hide Wanted, RegionOf, Keep, WantedBefore, Stands;
    var n := |descs| - 1;
    WantedStep(descs, n);
    WantedPrefix(descs, n, n);
    src' := if Wanted(descs[n]) && |regs| < 128 then src + [n] else src;
    SourcesGrow(descs, regs, src, src');
    RowsGrow(descs, regs, src, AddRegion(regs, Keep(descs[n])), src');
  }

  /**
   The table holds, in their order, the regions of exactly the first 128 wanted descriptors; what is wanted after
   128 others is lost.
   */
  lemma {:induction false} TableExact(descs: seq<Descriptor>) returns (src: seq<nat>)
    ensures Sources(descs, Register(descs), src)
    decreases |descs|
  {
    hide Wanted, RegionOf, Keep, AddRegion, Sources;
    if descs == [] {
      src := [];
      EmptySources();
    } else {
      src := TableExact(descs[..|descs| - 1]);
      src := SourcesStep(descs, Register(descs[..|descs| - 1]), src);
    }
  }

  lemma EmptySources()
    ensures Sources([], Register([]), [])
  {
    assert WantedBefore([], 0) == {};
  }

  // ----- The free pages -----

  /** a lies in ordinary RAM from 1 MiB up whose descriptor made it into the table. */
  ghost predicate InMemory(descs: seq<Descriptor>, a: nat) {
    exists i :: 0 <= i < |descs| && Conventional(descs, i) && descs[i].start <= a < End(descs[i])
  }

  predicate Conventional(descs: seq<Descriptor>, i: nat) {
    Stands(descs, i) && descs[i].kind == 7 && descs[i].start >= 0x10_0000
  }

  lemma ConventionalAt(descs: seq<Descriptor>, a: nat)
    ensures IsConventional(Register(descs), a) <==> InMemory(descs, a)
  {
    hide Register, WantedBefore;
    var src := TableExact(descs);
    var regs := Register(descs);
    if IsConventional(regs, a) {
      var r :| r in regs && r.kind == CONVENTIONAL_MEMORY && r.flags == USABLE &&
               r.base <= a < r.base + r.pages * PAGE_SIZE;
      var k :| 0 <= k < |regs| && regs[k] == r;
      assert src[k] in src;
      assert Conventional(descs, src[k]);
    }
    if InMemory(descs, a) {
      var i :| 0 <= i < |descs| && Conventional(descs, i) && descs[i].start <= a < End(descs[i]);
      var k :| 0 <= k < |src| && src[k] == i;
      assert regs[k] in regs;
    }
  }

  /** The page at a holds a byte of [start, end), and the page of start lies in the cover. */
  predicate ImagePage(p: Pool, start: nat, end: nat, a: nat) {
    Covered(p, start - start % 4096) && start < a + 4096 && a < end
  }

  lemma ImagePageLaw(p: Pool, start: nat, end: nat, a: nat)
    requires a % 4096 == 0
    ensures IsImage(p, start, end, a) <==> ImagePage(p, start, end, a)
  {
    assert PageDown(start) == start - start % 4096;
    var up := PageUp(end);
    assert up % 4096 == 0 && end <= up < end + 4096;
  }

  /** The bitmap's free pages, in terms of the firmware's map. */
  ghost predicate FreeIsMemory(descs: seq<Descriptor>, p: Pool, kernelStart: nat, kernelEnd: nat, stackBottom: nat,
                               stackTop: nat)
  {
    forall a :: Covered(p, a) ==>
      (Free(p, a) <==>
       InMemory(descs, a) && !ImagePage(p, kernelStart, kernelEnd, a) && !ImagePage(p, stackBottom, stackTop, a))
  }

  /**
   After pmm_init a covered page is free exactly when it lies in ordinary RAM from 1 MiB up, whose descriptor is
   among the first 128 wanted ones, and holds no byte of the kernel or the stack.
   */
  lemma FreeExact(descs: seq<Descriptor>, p: Pool, kernelStart: nat, kernelEnd: nat, stackBottom: nat, stackTop: nat)
    requires ValidPool(p) && FreeIsRam(Register(descs), p, kernelStart, kernelEnd, stackBottom, stackTop)
    ensures FreeIsMemory(descs, p, kernelStart, kernelEnd, stackBottom, stackTop)
  {
    hide Register, InMemory, IsConventional, IsImage, ImagePage, Free;
    forall a | Covered(p, a)
      ensures Free(p, a) <==>
              InMemory(descs, a) && !ImagePage(p, kernelStart, kernelEnd, a) && !ImagePage(p, stackBottom, stackTop, a)
    {
      assert a % 4096 == 0;
      ConventionalAt(descs, a);
      ImagePageLaw(p, kernelStart, kernelEnd, a);
      ImagePageLaw(p, stackBottom, stackTop, a);
    }
  }

  /** No wanted descriptor is lost exactly when there are at most 128 of them. */
  lemma NoneLost(descs: seq<Descriptor>)
    ensures (forall i: nat :: i < |descs| && Wanted(descs[i]) ==> Stands(descs, i)) <==>
            |WantedBefore(descs, |descs|)| <= 128
  {
    hide Wanted;
    if |WantedBefore(descs, |descs|)| <= 128 {
      forall i: nat | i < |descs| && Wanted(descs[i]) ensures Stands(descs, i) {
        assert WantedBefore(descs, i) + {i} <= WantedBefore(descs, |descs|);
        Smaller(WantedBefore(descs, i) + {i}, WantedBefore(descs, |descs|));
      }
    } else {
      var i := LateOne(descs, |descs|);
    }
  }

  /** Among more than 128 wanted descriptors one comes after 128 others. */
  lemma {:induction false} LateOne(descs: seq<Descriptor>, n: nat) returns (i: nat)
    requires n <= |descs| && |WantedBefore(descs, n)| > 128
    ensures i < n && Wanted(descs[i]) && |WantedBefore(descs, i)| >= 128
    decreases n
  {
    hide Wanted;
    assert WantedBefore(descs, 0) == {};
    i := n - 1;
    WantedStep(descs, i);
    if !Wanted(descs[i]) { i := LateOne(descs, n - 1); }
  }

  /** Ordinary RAM in 129 pieces of a page each, with gaps between them. */
  function Pieces(): seq<Descriptor> {
    seq(129, i requires 0 <= i < 129 => Descriptor(7, 0x10_0000 + i * 0x2000, 1))
  }

  /** The last of them is counted as memory, and no part of what pmm_init may leave free. */
  lemma PieceLost()
    ensures ValidMap(Pieces()) && 0x20_0000 in RamSet(Pieces()) && !InMemory(Pieces(), 0x20_0000)
  {
    hide RamSet, Wanted;
    forall i: nat | i < 129 ensures Wanted(Pieces()[i]) && IsRam(Pieces()[i]) { RamKinds(Pieces()[i]); PieceWanted(i); }
    AllWanted(Pieces(), 128);
    RamSetLaw(Pieces(), 0x20_0000);
    assert 0x20_0000 == Pieces()[128].start + 0 * PAGE_SIZE;
    assert 0x20_0000 in PagesOf(Pieces()[128]);
    assert !Stands(Pieces(), 128);
  }

  lemma PieceWanted(i: nat)
    requires i < 129
    ensures Wanted(Pieces()[i])
  {
  }

  lemma {:induction false} AllWanted(descs: seq<Descriptor>, n: nat)
    requires n <= |descs| && forall i :: 0 <= i < n ==> Wanted(descs[i])
    ensures |WantedBefore(descs, n)| == n
    decreases n
  {
    hide Wanted;
    if n == 0 {
      assert WantedBefore(descs, 0) == {};
    } else {
      AllWanted(descs, n - 1);
      WantedStep(descs, n - 1);
    }
  }

  lemma {:induction false} Smaller(a: set<nat>, b: set<nat>)
    requires a <= b
    ensures |a| <= |b|
    decreases |a|
  {
    if a != {} {
      var x :| x in a;
      Smaller(a - {x}, b - {x});
    }
  }

  // ----- The page total -----

  /** The page addresses of a descriptor. */
  function PagesOf(d: Descriptor): set<nat> {
    set k | 0 <= k < d.pages :: d.start + k * PAGE_SIZE
  }

  function RamSet(descs: seq<Descriptor>): set<nat> {
    if descs == [] then {}
    else RamSet(descs[..|descs| - 1]) + if IsRam(descs[|descs| - 1]) then PagesOf(descs[|descs| - 1]) else {}
  }

  lemma {:induction false} PagesOfSize(d: Descriptor)
    ensures |PagesOf(d)| == d.pages
    decreases d.pages
  {
    if d.pages == 0 {
      assert PagesOf(d) == {};
    } else {
      var e := d.(pages := d.pages - 1);
      PagesOfSize(e);
      var x := d.start + (d.pages - 1) * PAGE_SIZE;
      assert PagesOf(d) == PagesOf(e) + {x};
      assert x !in PagesOf(e);
    }
  }

  lemma {:induction false} RamSetLaw(descs: seq<Descriptor>, a: nat)
    ensures a in RamSet(descs) <==> exists i :: 0 <= i < |descs| && IsRam(descs[i]) && a in PagesOf(descs[i])
    decreases |descs|
  {
    hide IsRam, PagesOf;
    if descs != [] {
      var n := |descs| - 1;
      RamSetLaw(descs[..n], a);
      assert forall i :: 0 <= i < n ==> descs[..n][i] == descs[i];
    }
  }

  /** pmm_stat_total_pages: the number of pages in usable descriptors, none counted twice. */
  lemma {:induction false} TotalCounts(descs: seq<Descriptor>)
    requires ValidMap(descs)
    ensures RamPages(descs) == |RamSet(descs)|
    decreases |descs|
  {
    hide IsRam, PagesOf, ValidMap;
    if descs != [] {
      var n := |descs| - 1;
      PrefixValid(descs);
      TotalCounts(descs[..n]);
      PagesOfSize(descs[n]);
      if IsRam(descs[n]) { NewPages(descs); }
    }
  }

  lemma PrefixValid(descs: seq<Descriptor>)
    requires ValidMap(descs) && descs != []
    ensures ValidMap(descs[..|descs| - 1])
  {
  }

  lemma NewPages(descs: seq<Descriptor>)
    requires ValidMap(descs) && descs != [] && IsRam(descs[|descs| - 1])
    ensures RamSet(descs[..|descs| - 1]) !! PagesOf(descs[|descs| - 1])
  {
    var n := |descs| - 1;
    forall a | a in RamSet(descs[..n]) ensures a !in PagesOf(descs[n]) {
      RamSetLaw(descs[..n], a);
      var i :| 0 <= i < n && IsRam(descs[..n][i]) && a in PagesOf(descs[..n][i]);
      PageInDescriptor(descs[i], a);
      if a in PagesOf(descs[n]) { PageInDescriptor(descs[n], a); }
    }
  }

  lemma PageInDescriptor(d: Descriptor, a: nat)
    requires a in PagesOf(d)
    ensures d.pages > 0 && d.start <= a < End(d)
  {
    var k :| 0 <= k < d.pages && a == d.start + k * PAGE_SIZE;
    assert (d.pages - 1 - k) * PAGE_SIZE >= 0;
  }
}
