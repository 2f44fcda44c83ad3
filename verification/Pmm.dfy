/** The physical frame allocator of kernel/mm/pmm.c. */
module Pmm {
  import opened Bits
  import opened Bitmap
  import opened Frames
  import opened MemoryMap

  const BITMAP_BYTES: nat := 131072

  /** The bitmap index of a region's first page; the subtraction wraps for regions below the cover. */
  function StartBit(r: Region, lo: nat): nat {
    (r.base - lo) % TWO_64 / PAGE_SIZE
  }

  predicate HasBit(r: Region, lo: nat, b: nat) {
    StartBit(r, lo) <= b < StartBit(r, lo) + r.pages
  }

  /** Bit b belongs to a usable region among the first k. */
  ghost predicate InUsable(regions: seq<Region>, k: nat, lo: nat, b: nat)
    requires k <= |regions|
  {
    exists i :: 0 <= i < k && regions[i].flags == USABLE && HasBit(regions[i], lo, b)
  }

  /** Bit b belongs to a boot-services region among the first k. */
  ghost predicate InBoot(regions: seq<Region>, k: nat, lo: nat, b: nat)
    requires k <= |regions|
  {
    exists i :: 0 <= i < k && IsBoot(regions[i]) && HasBit(regions[i], lo, b)
  }

  class FrameAllocator {
    var bitmap: array<bv8>
    var pages: nat
    var freePages: nat
    var totalPages: nat
    var coverLo: nat
    var coverHi: nat
    var regions: seq<Region>

    /** The bitmap holds one bit for each page of the cover. */
    ghost predicate Shaped()
      reads this
    {
      && bitmap.Length == BITMAP_BYTES
      && pages <= 8 * BITMAP_BYTES
      && coverHi == coverLo + pages * PAGE_SIZE
    }

    ghost function Used(): (u: seq<bool>)
      reads this, bitmap
      requires Shaped()
      ensures |u| == pages
    {
      BitsOf(bitmap[..], pages)
    }

    ghost function ThePool(): Pool
      reads this, bitmap
      requires Shaped()
    {
      Pool(coverLo, Used())
    }

    /** The cached count of free pages agrees with the bitmap. */
    ghost predicate Valid()
      reads this, bitmap
    {
      Shaped() && ValidPool(ThePool()) && freePages == CountFree(Used())
    }

    constructor ()
      ensures bitmap.Length == BITMAP_BYTES && fresh(bitmap)
    {
      bitmap := new bv8[BITMAP_BYTES];
      pages, freePages, totalPages, coverLo, coverHi := 0, 0, 0, 0, 0;
      regions := [];
    }

    method Test(i: nat) returns (b: bool)
      requires Shaped() && i < pages
      ensures b == Used()[i]
    {
      b := (bitmap[i / 8] >> (i % 8)) & 1 != 0;
    }

    method Set(i: nat)
      requires Shaped() && i < pages
      modifies bitmap
      ensures Shaped() && Used() == old(Used())[i := true]
    {
      hide ByteBit, BitsOf;
      ghost var before := bitmap[..];
      var byte := bitmap[i / 8] | (1 << (i % 8));
      assert byte == ByteWith(before[i / 8], i % 8, true);
      hide ByteWith;
      bitmap[i / 8] := byte;
      assert bitmap[..] == before[i / 8 := byte];
      WriteBit(before, bitmap[..], pages, i, true);
    }

    method Clear(i: nat)
      requires Shaped() && i < pages
      modifies bitmap
      ensures Shaped() && Used() == old(Used())[i := false]
    {
      hide ByteBit, BitsOf;
      ghost var before := bitmap[..];
      var byte := bitmap[i / 8] & !(1 << (i % 8));
      assert byte == ByteWith(before[i / 8], i % 8, false);
      hide ByteWith;
      bitmap[i / 8] := byte;
      assert bitmap[..] == before[i / 8 := byte];
      WriteBit(before, bitmap[..], pages, i, false);
    }

    /** The bit of a page of the cover, or -1. */
    function PhysToBit(phys: nat): int
      reads this
    {
      if phys < coverLo || phys >= coverHi then -1
      else if phys % PAGE_SIZE != 0 then -1
      else (phys - coverLo) / PAGE_SIZE
    }

    function BitToPhys(bit: nat): nat
      reads this
    {
      coverLo + bit * PAGE_SIZE
    }

    lemma PhysToBitLaw(phys: nat)
      requires Shaped() && ValidPool(ThePool())
      ensures PhysToBit(phys) == if Covered(ThePool(), phys) then FrameIndex(ThePool(), phys) else -1
      ensures PhysToBit(phys) < pages
    {
    }

    method AllocPage() returns (phys: nat)
      requires Valid()
      modifies this`freePages, bitmap
      ensures Valid() && (ThePool(), phys) == Frames.AllocPage(old(ThePool()))
    {
      hide BitsOf, CountFree, Frames.AllocPage, FreeRun, LowestRun;
      phys := 0;
      ghost var pool := ThePool();
      CountZero(pool.used);
      if freePages == 0 {
        NoneFree(pool);
        return 0;
      }
      var i := 0;
      while i < pages
        invariant i <= pages && unchanged(this, bitmap)
        invariant forall j :: 0 <= j < i ==> pool.used[j]
      {
        var used := Test(i);
        if !used {
          FoundFree(pool, i);
          Set(i);
          freePages := freePages - 1;
          return BitToPhys(i);
        }
        i := i + 1;
      }
      // The final "return NULL" of the source is dead: the count was not zero.
      assert false;
    }

    method AllocPages(count: nat) returns (phys: nat)
      requires Valid()
      modifies this`freePages, bitmap
      ensures Valid() && (ThePool(), phys) == Frames.AllocPages(old(ThePool()), count)
    {
      hide BitsOf, CountFree, Frames.AllocPages, Searched;
      ghost var pool := ThePool();
      if count == 0 {
        NoPages(pool, 0);
        return 0;
      }
      if count == 1 {
        RunOfOne(pool);
        phys := AllocPage();
        return;
      }
      if count > freePages {
        NoRun(pool.used, count);
        NoPages(pool, count);
        return 0;
      }
      var run := 0;
      var i := 0;
      SearchStart(pool.used, count);
      while i < pages
        invariant run <= i <= pages && run < count && unchanged(this, bitmap)
        invariant Searched(pool.used, count, run, i)
      {
        var used := Test(i);
        SearchStep(pool.used, count, run, i);
        if used {
          run := 0;
          i := i + 1;
          continue;
        }
        run := run + 1;
        if run == count {
          var start := i + 1 - count;
          FoundRun(pool, start, count);
          MarkRun(start, count);
          freePages := freePages - count;
          return BitToPhys(start);
        }
        i := i + 1;
      }
      SearchEnd(pool.used, count, run);
      NoPages(pool, count);
      return 0;
    }

    /** Sets the bits of a run, as the inner loop of pmm_alloc_pages does. */
    method MarkRun(start: nat, count: nat)
      requires Shaped() && start + count <= pages
      modifies bitmap
      ensures Shaped() && Used() == SetRange(old(Used()), start, count, true)
    {
      hide BitsOf;
      var j := 0;
      while j < count
        invariant 0 <= j <= count && Shaped()
        invariant Used() == SetRange(old(Used()), start, j, true)
      {
        Set(start + j);
        j := j + 1;
      }
    }

    /** pmm_free_pages: used pages of the run that lie in the cover become free, each counted once. */
    method FreeFrames(phys: nat, count: nat)
      requires Valid()
      modifies this`freePages, bitmap
      ensures Valid() && ThePool() == FreePages(old(ThePool()), phys, count)
    {
      hide BitsOf, CountFree;
      ghost var before := Used();
      if phys == 0 || count == 0 {
        NothingToFree(ThePool(), phys, count);
        return;
      }
      PhysToBitLaw(phys);
      var bit := PhysToBit(phys);
      if bit < 0 { return; }
      var i := 0;
      while i < count
        invariant 0 <= i <= count && Valid()
        invariant Used() == SetRange(before, bit, i, false)
      {
        var b := bit + i;
        if b >= pages { break; }
        var used := Test(b);
        if used {
          CountSet(Used(), b, false);
          Clear(b);
          freePages := freePages + 1;
        }
        i := i + 1;
      }
      assert Used() == SetRange(before, bit, count, false);
    }

    /** pmm_region_set_used, in either direction. */
    method RegionSetUsed(base: nat, count: nat, used: bool)
      requires Valid()
      modifies this`freePages, bitmap
      ensures Valid() && ThePool() == SetRegion(old(ThePool()), base, count, used)
    {
      hide BitsOf, CountFree;
      ghost var before := Used();
      PhysToBitLaw(PageDown(base));
      var bit := PhysToBit(PageDown(base));
      if bit < 0 { return; }
      var i := 0;
      while i < count
        invariant 0 <= i <= count && Valid()
        invariant Used() == SetRange(before, bit, i, used)
      {
        var b := bit + i;
        if b >= pages { break; }
        var was := Test(b);
        CountSet(Used(), b, used);
        if used && !was {
          Set(b);
          freePages := freePages - 1;
        } else if !used && was {
          Clear(b);
          freePages := freePages + 1;
        }
        i := i + 1;
      }
      assert Used() == SetRange(before, bit, count, used);
    }

    // ----- pmm_init -----

    /** Pass 1: the region table, the interval to cover, and the page total. */
    method RegisterRegions(descs: seq<Descriptor>) returns (lo: nat, hi: nat)
      requires ValidMap(descs)
      modifies this`regions, this`totalPages
      ensures regions == Register(descs) && exists src :: Sources(descs, regions, src)
      ensures totalPages == RamPages(descs) == |RamSet(descs)|
      ensures totalPages > 0 ==> Covers(descs, lo, hi)
      ensures totalPages == 0 ==> forall d :: d in descs ==> !IsRam(d)
    {
      hide Register, Covers, RamPages, Classify, RamSet, Sources, Wanted;
      regions, totalPages := [], 0;
      lo, hi := TWO_64 - 1, 0;
      ScanNothing();
      var i := 0;
      assert descs[..0] == [];
      while i < |descs|
        invariant 0 <= i <= |descs|
        invariant regions == Register(descs[..i]) && Scanned(descs[..i], lo, hi, totalPages)
      {
        var d := descs[i];
        ScanStep(descs, i, lo, hi, totalPages);
        i := i + 1;
        if d.pages == 0 { continue; }
        if d.start < LOW_MEMORY {
          regions := AddRegion(regions, [Region(d.start, d.pages, d.kind, RESERVED)]);
          continue;
        }
        var flags := Classify(d.kind);
        if flags != USABLE {
          if d.pages >= 256 {
            regions := AddRegion(regions, [Region(d.start, d.pages, d.kind, flags)]);
          }
          continue;
        }
        regions := AddRegion(regions, [Region(d.start, d.pages, d.kind, flags)]);
        if d.start < lo { lo := d.start; }
        if d.start + d.pages * PAGE_SIZE > hi { hi := d.start + d.pages * PAGE_SIZE; }
        totalPages := totalPages + d.pages;
      }
      assert descs[..|descs|] == descs;
      TotalCounts(descs);
      ghost var src := TableExact(descs);
    }

    /** Pass 2: every page of the cover starts out used. */
    method FillBitmap()
      requires Shaped()
      modifies bitmap
      ensures Shaped() && forall b :: 0 <= b < pages ==> Used()[b]
    {
      hide BitsOf, ByteBit;
      var bytes := (pages + 7) / 8;
      var i := 0;
      while i < bytes
        invariant 0 <= i <= bytes && Shaped()
      {
        bitmap[i] := 0;
        i := i + 1;
      }
      i := 0;
      while i < pages
        invariant 0 <= i <= pages && Shaped()
        invariant forall b :: 0 <= b < i ==> Used()[b]
      {
        Set(i);
        i := i + 1;
      }
    }

    /** The usable regions lie in the cover and do not overlap one another. */
    ghost predicate RegionsFit()
      reads this
    {
      && coverLo <= TWO_52
      && (forall i :: 0 <= i < |regions| && regions[i].flags == USABLE ==>
            coverLo <= regions[i].base < TWO_52 && StartBit(regions[i], coverLo) + regions[i].pages <= pages)
      && (forall i, j, b: nat :: 0 <= i < j < |regions| && regions[i].flags == USABLE && regions[j].flags == USABLE ==>
            !(HasBit(regions[i], coverLo, b) && HasBit(regions[j], coverLo, b)))
    }

    /** Pass 3: the pages of usable regions become free, and are counted. */
    method FreeUsable() returns (free: nat)
      requires Shaped() && RegionsFit() && forall b :: 0 <= b < pages ==> Used()[b]
      modifies bitmap
      ensures Shaped() && free == CountFree(Used())
      ensures forall b: nat :: b < pages ==> (!Used()[b] <==> InUsable(regions, |regions|, coverLo, b))
    {
      hide BitsOf, CountFree, StartBit;
      AllUsed(Used());
      free := 0;
      var i := 0;
      while i < |regions|
        invariant 0 <= i <= |regions| && Shaped() && free == CountFree(Used())
        invariant forall b: nat :: b < pages ==> (!Used()[b] <==> InUsable(regions, i, coverLo, b))
      {
        var r := regions[i];
        ghost var before := Used();
        if r.flags == USABLE {
          var startBit := StartBit(r, coverLo);
          var j := 0;
          while j < r.pages
            invariant 0 <= j <= r.pages && Shaped() && free == CountFree(Used())
            invariant Used() == SetRange(before, startBit, j, false)
          {
            if startBit + j >= pages { break; }
            assert HasBit(r, coverLo, startBit + j);
            assert Used()[startBit + j];
            CountSet(Used(), startBit + j, false);
            Clear(startBit + j);
            free := free + 1;
            j := j + 1;
          }
        }
        i := i + 1;
      }
    }

    /** The marking loop of passes 4, 5 and 6: pages not yet used become used and leave the count. */
    method MarkUsed(start: nat, count: nat, free: nat) returns (left: nat)
      requires Shaped() && free == CountFree(Used())
      modifies bitmap
      ensures Shaped() && left == CountFree(Used())
      ensures Used() == SetRange(old(Used()), start, count, true)
    {
      hide BitsOf, CountFree;
      left := free;
      var i := 0;
      while i < count
        invariant 0 <= i <= count && Shaped() && left == CountFree(Used())
        invariant Used() == SetRange(old(Used()), start, i, true)
      {
        var bit := start + i;
        if bit >= pages { break; }
        var used := Test(bit);
        if !used {
          CountSet(Used(), bit, true);
          Set(bit);
          left := left - 1;
        }
        i := i + 1;
      }
      assert Used() == SetRange(old(Used()), start, count, true);
    }

    /** Passes 4 and 5: the pages of an image (the kernel, the stack) become used. */
    method MarkImage(start: nat, end: nat, free: nat) returns (left: nat)
      requires Shaped() && ValidPool(ThePool()) && free == CountFree(Used()) && start <= end
      modifies bitmap
      ensures Shaped() && left == CountFree(Used())
      ensures forall b: nat :: b < pages ==>
                Used()[b] == (old(Used())[b] || IsImage(old(ThePool()), start, end, FrameAt(old(ThePool()), b)))
    {
      hide BitsOf, CountFree;
      var first, last := PageDown(start), PageUp(end);
      PhysToBitLaw(first);
      var bit := PhysToBit(first);
      left := free;
      if bit >= 0 {
        var count := (last - first) / PAGE_SIZE;
        left := MarkUsed(bit, count, free);
      }
    }

    /** Pass 6: the pages of boot-services regions become used. */
    method MarkBoot(free: nat) returns (left: nat)
      requires Shaped() && free == CountFree(Used())
      modifies bitmap
      ensures Shaped() && left == CountFree(Used())
      ensures forall b: nat :: b < pages ==> Used()[b] == (old(Used())[b] || InBoot(regions, |regions|, coverLo, b))
    {
      hide BitsOf, CountFree, StartBit;
      left := free;
      var i := 0;
      while i < |regions|
        invariant 0 <= i <= |regions| && Shaped() && left == CountFree(Used())
        invariant forall b: nat :: b < pages ==> Used()[b] == (old(Used())[b] || InBoot(regions, i, coverLo, b))
      {
        if IsBoot(regions[i]) {
          left := MarkUsed(StartBit(regions[i], coverLo), regions[i].pages, left);
        }
        i := i + 1;
      }
    }

    /** Passes 2 to 6. */
    method BuildBitmap(kernelStart: nat, kernelEnd: nat, stackBottom: nat, stackTop: nat)
      requires Shaped() && ValidPool(ThePool()) && GoodRegions(regions, coverLo, coverHi)
      requires kernelStart <= kernelEnd && stackBottom <= stackTop
      modifies this`freePages, bitmap
      ensures Valid()
      ensures FreeIsRam(regions, ThePool(), kernelStart, kernelEnd, stackBottom, stackTop)
    {
      hide BitsOf, CountFree, IsImage, InUsable, InBoot, FreeIsRam, GoodRegions;
      FillBitmap();
      FitFromMap(regions, coverLo, coverHi, pages);
      var free := FreeUsable();
      ghost var u3 := Used();
      free := MarkImage(kernelStart, kernelEnd, free);
      ghost var u4 := Used();
      free := MarkImage(stackBottom, stackTop, free);
      free := MarkBoot(free);
      freePages := free;
      SameImages(ThePool(), Pool(coverLo, u3), kernelStart, kernelEnd);
      SameImages(ThePool(), Pool(coverLo, u4), stackBottom, stackTop);
      FreePassesDone(regions, ThePool(), u3, kernelStart, kernelEnd, stackBottom, stackTop);
    }

    /** pmm_init; false where the source panics. */
    method Init(descs: seq<Descriptor>, kernelStart: nat, kernelEnd: nat, stackBottom: nat, stackTop: nat)
      returns (ok: bool)
      requires ValidMap(descs) && kernelStart <= kernelEnd && stackBottom <= stackTop
      requires bitmap.Length == BITMAP_BYTES
      modifies this, bitmap
      ensures bitmap == old(bitmap)
      ensures ok <==> exists lo: nat, hi: nat :: Covers(descs, lo, hi) && hi - lo <= 0x1_0000_0000
      ensures regions == Register(descs) && exists src :: Sources(descs, regions, src)
      ensures totalPages == |RamSet(descs)|
      ensures ok ==> Valid() && Covers(descs, coverLo, coverHi)
      ensures ok ==> FreeIsRam(regions, ThePool(), kernelStart, kernelEnd, stackBottom, stackTop)
      ensures ok ==> FreeIsMemory(descs, ThePool(), kernelStart, kernelEnd, stackBottom, stackTop)
    {
      hide BitsOf, CountFree, Covers, Register, RamPages, FreeIsRam, GoodRegions, RamSet, Sources, FreeIsMemory;
      freePages := 0;
      var lo, hi := RegisterRegions(descs);
      if totalPages == 0 {
        NoCover(descs);
        return false;
      }
      CoverAligned(descs, lo, hi);
      OneCover(descs, lo, hi);
      coverLo, coverHi := lo, hi;
      var coverPages := (hi - lo) / PAGE_SIZE;
      assert hi - lo == coverPages * PAGE_SIZE;
      if (coverPages + 7) / 8 > BITMAP_BYTES { return false; }
      pages := coverPages;
      RegionsOfMap(descs, lo, hi);
      BuildBitmap(kernelStart, kernelEnd, stackBottom, stackTop);
      FreeExact(descs, ThePool(), kernelStart, kernelEnd, stackBottom, stackTop);
      ok := true;
    }
  }

  lemma NoneFree(p: Pool)
    requires forall j :: 0 <= j < |p.used| ==> p.used[j]
    ensures Frames.AllocPage(p) == (p, 0)
  {
    assert FirstFree(p.used) == |p.used|;
  }

  lemma FoundFree(p: Pool, i: nat)
    requires ValidPool(p) && i < |p.used| && !p.used[i] && forall j :: 0 <= j < i ==> p.used[j]
    ensures Frames.AllocPage(p) == (p.(used := p.used[i := true]), FrameAt(p, i))
    ensures ValidPool(p.(used := p.used[i := true]))
    ensures CountFree(p.used) > 0 && CountFree(p.used[i := true]) == CountFree(p.used) - 1
  {
    assert FirstFree(p.used) == i;
    CountSet(p.used, i, true);
    CountZero(p.used);
  }

  /** What pass 1 knows after scanning descs. */
  ghost predicate Scanned(descs: seq<Descriptor>, lo: nat, hi: nat, total: nat) {
    && total == RamPages(descs)
    && (total > 0 ==> Covers(descs, lo, hi))
    && (total == 0 ==> lo == TWO_64 - 1 && hi == 0 && forall d :: d in descs ==> !IsRam(d))
  }

  lemma ScanNothing()
    ensures Register([]) == [] && Scanned([], TWO_64 - 1, 0, 0)
  {
  }

  lemma ScanStep(descs: seq<Descriptor>, i: nat, lo: nat, hi: nat, total: nat)
    requires ValidMap(descs) && i < |descs| && Scanned(descs[..i], lo, hi, total)
    ensures Register(descs[..i + 1]) == AddRegion(Register(descs[..i]), Keep(descs[i]))
    ensures var d := descs[i];
            if IsRam(d) then
              Scanned(descs[..i + 1], if d.start < lo then d.start else lo, if End(d) > hi then End(d) else hi,
                total + d.pages)
            else Scanned(descs[..i + 1], lo, hi, total)
  {
    hide Classify, Covers, Register, RamPages;
    assert descs[..i + 1] == descs[..i] + [descs[i]];
    RegisterStep(descs[..i], descs[i]);
    CoverStep(descs[..i], descs[i], lo, hi, total);
    assert forall x :: x in descs[..i + 1] <==> x in descs[..i] || x == descs[i];
  }

  lemma RegisterStep(before: seq<Descriptor>, d: Descriptor)
    ensures Register(before + [d]) == AddRegion(Register(before), Keep(d))
    ensures RamPages(before + [d]) == RamPages(before) + if IsRam(d) then d.pages else 0
  {
    hide Keep, AddRegion, IsRam;
    assert (before + [d])[..|before|] == before;
  }

  lemma CoverStep(before: seq<Descriptor>, d: Descriptor, lo: nat, hi: nat, total: nat)
    requires End(d) <= TWO_52 && Scanned(before, lo, hi, total)
    ensures IsRam(d) ==>
              Covers(before + [d], if d.start < lo then d.start else lo, if End(d) > hi then End(d) else hi)
    ensures !IsRam(d) && total > 0 ==> Covers(before + [d], lo, hi)
  {
    hide IsRam, RamPages;
    var after := before + [d];
    assert d in after;
    assert forall x :: x in after <==> x in before || x == d;
    if IsRam(d) { assert d.pages > 0 by { RamHasPages(d); } }
    if total > 0 {
      var l :| l in before && IsRam(l) && l.start == lo;
      var h :| h in before && IsRam(h) && End(h) == hi;
      assert l in after && h in after;
    }
  }

  lemma RamHasPages(d: Descriptor)
    ensures IsRam(d) ==> d.pages > 0 && d.start >= LOW_MEMORY
  {
  }

  lemma {:induction false} AllUsed(used: seq<bool>)
    requires forall b :: 0 <= b < |used| ==> used[b]
    ensures CountFree(used) == 0
  {
    if used != [] { AllUsed(used[..|used| - 1]); }
  }

  lemma NoCover(descs: seq<Descriptor>)
    requires forall d :: d in descs ==> !IsRam(d)
    ensures forall lo: nat, hi: nat :: !Covers(descs, lo, hi)
  {
  }

  /** There is only one covering interval. */
  lemma OneCover(descs: seq<Descriptor>, lo: nat, hi: nat)
    requires Covers(descs, lo, hi)
    ensures forall lo': nat, hi': nat :: Covers(descs, lo', hi') ==> lo' == lo && hi' == hi
  {
    hide IsRam;
  }

  lemma CoverAligned(descs: seq<Descriptor>, lo: nat, hi: nat)
    requires ValidMap(descs) && Covers(descs, lo, hi)
    ensures lo % PAGE_SIZE == 0 && hi % PAGE_SIZE == 0 && LOW_MEMORY <= lo < hi <= TWO_52
  {
    hide Classify;
    var l :| l in descs && IsRam(l) && l.start == lo;
    var h :| h in descs && IsRam(h) && End(h) == hi;
    assert End(l) <= hi;
  }

  /** What the bitmap passes rely on: aligned, disjoint regions, the usable ones inside the cover. */
  ghost predicate GoodRegions(regs: seq<Region>, lo: nat, hi: nat) {
    && (forall i :: 0 <= i < |regs| ==>
          regs[i].base % PAGE_SIZE == 0 && regs[i].pages > 0 && regs[i].base + regs[i].pages * PAGE_SIZE <= TWO_52)
    && (forall i :: 0 <= i < |regs| && regs[i].flags == USABLE ==>
          Classify(regs[i].kind) == USABLE && lo <= regs[i].base && regs[i].base + regs[i].pages * PAGE_SIZE <= hi)
    && (forall i, j :: 0 <= i < |regs| && 0 <= j < |regs| && i != j ==>
          regs[i].base + regs[i].pages * PAGE_SIZE <= regs[j].base ||
          regs[j].base + regs[j].pages * PAGE_SIZE <= regs[i].base)
  }

  lemma SourceFields(descs: seq<Descriptor>, regs: seq<Region>, src: seq<nat>, k: nat)
    requires Sources(descs, regs, src) && k < |src|
    ensures var r, d := regs[k], descs[src[k]];
            && d.pages > 0 && r.base == d.start && r.pages == d.pages && r.kind == d.kind
            && (r.flags == USABLE <==> IsRam(d))
  {
    hide WantedBefore;
    assert src[k] in src;
  }

  lemma RegionsOfMap(descs: seq<Descriptor>, lo: nat, hi: nat)
    requires ValidMap(descs) && Covers(descs, lo, hi)
    ensures GoodRegions(Register(descs), lo, hi)
  {
    var src := TableExact(descs);
    var regs := Register(descs);
    forall k | 0 <= k < |src|
      ensures var r, d := regs[k], descs[src[k]];
              && d in descs && d.pages > 0 && r.base == d.start && r.pages == d.pages && r.kind == d.kind
              && (r.flags == USABLE <==> IsRam(d))
    {
      SourceFields(descs, regs, src, k);
    }
    assert forall j, k :: 0 <= j < k < |src| ==> src[j] < src[k];
    hide Classify, Register, Sources, Stands, Wanted, RegionOf;
  }

  /** Bits and page addresses: a region at or above the cover has the bits of its pages, one below it has none. */
  lemma HasBitLaw(r: Region, lo: nat, b: nat)
    requires r.base % PAGE_SIZE == 0 && lo % PAGE_SIZE == 0 && r.base < TWO_52 && lo <= TWO_52
    requires b <= 8 * BITMAP_BYTES
    ensures HasBit(r, lo, b) <==> lo <= r.base && r.base <= lo + b * PAGE_SIZE < r.base + r.pages * PAGE_SIZE
    ensures lo <= r.base ==> StartBit(r, lo) == (r.base - lo) / PAGE_SIZE
  {
    if lo <= r.base {
      assert StartBit(r, lo) * PAGE_SIZE == r.base - lo;
    } else {
      assert (r.base - lo) % TWO_64 == r.base - lo + TWO_64;
    }
  }

  lemma FitFromMap(regs: seq<Region>, lo: nat, hi: nat, pages: nat)
    requires GoodRegions(regs, lo, hi) && lo % PAGE_SIZE == 0 && hi == lo + pages * PAGE_SIZE && hi <= TWO_52
    requires pages <= 8 * BITMAP_BYTES
    ensures forall i :: 0 <= i < |regs| && regs[i].flags == USABLE ==>
              lo <= regs[i].base < TWO_52 && StartBit(regs[i], lo) + regs[i].pages <= pages
    ensures forall i, j, b: nat :: 0 <= i < j < |regs| && regs[i].flags == USABLE && regs[j].flags == USABLE ==>
              !(HasBit(regs[i], lo, b) && HasBit(regs[j], lo, b))
  {
    hide StartBit, HasBit, Classify;
    forall i | 0 <= i < |regs| && regs[i].flags == USABLE
      ensures lo <= regs[i].base < TWO_52 && StartBit(regs[i], lo) + regs[i].pages <= pages
    {
      HasBitLaw(regs[i], lo, 0);
    }
    forall i, j, b: nat | 0 <= i < j < |regs| && regs[i].flags == USABLE && regs[j].flags == USABLE
      ensures !(HasBit(regs[i], lo, b) && HasBit(regs[j], lo, b))
    {
      HasBitEnd(regs[i], lo, b, pages);
      if b < pages {
        HasBitLaw(regs[i], lo, b);
        HasBitLaw(regs[j], lo, b);
      }
    }
  }

  lemma HasBitEnd(r: Region, lo: nat, b: nat, pages: nat)
    requires StartBit(r, lo) + r.pages <= pages
    ensures HasBit(r, lo, b) ==> b < pages
  {
  }

  lemma GoodKinds(regs: seq<Region>, lo: nat, hi: nat)
    requires GoodRegions(regs, lo, hi)
    ensures forall i :: 0 <= i < |regs| && regs[i].flags == USABLE ==>
              lo <= regs[i].base && (regs[i].kind == CONVENTIONAL_MEMORY || IsBoot(regs[i]))
  {
  }

  /** The bits in usable but not in boot-services regions are those of ordinary RAM. */
  lemma FreeSet(regs: seq<Region>, lo: nat, hi: nat, b: nat)
    requires GoodRegions(regs, lo, hi) && lo % PAGE_SIZE == 0 && lo <= TWO_52 && b < 8 * BITMAP_BYTES
    ensures InUsable(regs, |regs|, lo, b) && !InBoot(regs, |regs|, lo, b) <==>
            IsConventional(regs, lo + b * PAGE_SIZE)
  {
    hide StartBit, HasBit;
    forall i | 0 <= i < |regs|
      ensures HasBit(regs[i], lo, b) <==>
              lo <= regs[i].base && regs[i].base <= lo + b * PAGE_SIZE < regs[i].base + regs[i].pages * PAGE_SIZE
    {
      HasBitLaw(regs[i], lo, b);
    }
    GoodKinds(regs, lo, hi);
    hide GoodRegions;
    if IsConventional(regs, lo + b * PAGE_SIZE) {
      var r :| r in regs && r.kind == CONVENTIONAL_MEMORY && r.flags == USABLE &&
               r.base <= lo + b * PAGE_SIZE < r.base + r.pages * PAGE_SIZE;
      var i :| 0 <= i < |regs| && regs[i] == r;
      assert HasBit(regs[i], lo, b);
      assert InUsable(regs, |regs|, lo, b);
    }
    if InUsable(regs, |regs|, lo, b) && !InBoot(regs, |regs|, lo, b) {
      var i :| 0 <= i < |regs| && regs[i].flags == USABLE && HasBit(regs[i], lo, b);
      assert regs[i] in regs;
    }
  }

  lemma SameImages(p: Pool, q: Pool, start: nat, end: nat)
    requires p.lo == q.lo && |p.used| == |q.used|
    ensures forall a :: IsImage(p, start, end, a) == IsImage(q, start, end, a)
  {
  }

  /** What the passes leave free, in terms of addresses: u3 is the bitmap after pass 3. */
  lemma FreePassesDone(regs: seq<Region>, p: Pool, u3: seq<bool>, kernelStart: nat, kernelEnd: nat, stackBottom: nat,
      stackTop: nat)
    requires ValidPool(p) && |p.used| == |u3| <= 8 * BITMAP_BYTES
    requires GoodRegions(regs, p.lo, p.lo + |p.used| * PAGE_SIZE)
    requires forall b: nat :: b < |u3| ==> (!u3[b] <==> InUsable(regs, |regs|, p.lo, b))
    requires forall b: nat :: b < |u3| ==>
               p.used[b] == (u3[b] || IsImage(p, kernelStart, kernelEnd, FrameAt(p, b)) ||
                             IsImage(p, stackBottom, stackTop, FrameAt(p, b)) || InBoot(regs, |regs|, p.lo, b))
    ensures FreeIsRam(regs, p, kernelStart, kernelEnd, stackBottom, stackTop)
  {
    hide InUsable, InBoot, IsImage, GoodRegions, IsConventional;
    forall a | Covered(p, a)
      ensures Free(p, a) <==>
              IsConventional(regs, a) && !IsImage(p, kernelStart, kernelEnd, a) && !IsImage(p, stackBottom, stackTop, a)
    {
      var b := FrameIndex(p, a);
      assert a == FrameAt(p, b);
      FreeSet(regs, p.lo, p.lo + |p.used| * PAGE_SIZE, b);
    }
  }

  lemma NothingToFree(p: Pool, phys: nat, n: nat)
    requires ValidPool(p) && (phys == 0 || n == 0)
    ensures FreePages(p, phys, n) == p
  {
    if Covered(p, phys) { assert SetRange(p.used, FrameIndex(p, phys), 0, false) == p.used; }
  }

  /** The search has seen i bits: the last run of them are free, and no run of n ends among them. */
  ghost predicate Searched(used: seq<bool>, n: nat, run: nat, i: nat) {
    && run <= i <= |used|
    && (forall j :: i - run <= j < i ==> !used[j])
    && (run < i ==> used[i - run - 1])
    && (forall k: nat :: k + n <= i ==> !FreeRun(used, k, n))
  }

  lemma SearchStart(used: seq<bool>, n: nat)
    requires n > 0
    ensures Searched(used, n, 0, 0)
  {
  }

  lemma SearchStep(used: seq<bool>, n: nat, run: nat, i: nat)
    requires Searched(used, n, run, i) && run < n && i < |used|
    ensures used[i] ==> Searched(used, n, 0, i + 1)
    ensures !used[i] && run + 1 < n ==> Searched(used, n, run + 1, i + 1)
    ensures !used[i] && run + 1 == n ==>
              FreeRun(used, i + 1 - n, n) && forall k: nat :: k < i + 1 - n ==> !FreeRun(used, k, n)
  {
  }

  lemma SearchEnd(used: seq<bool>, n: nat, run: nat)
    requires Searched(used, n, run, |used|)
    ensures forall k: nat :: !FreeRun(used, k, n)
  {
  }

  lemma NoPages(p: Pool, n: nat)
    requires n == 0 || forall k: nat :: !FreeRun(p.used, k, n)
    ensures Frames.AllocPages(p, n) == (p, 0)
  {
  }

  lemma FoundRun(p: Pool, i: nat, n: nat)
    requires ValidPool(p) && n > 0 && FreeRun(p.used, i, n) && forall k: nat :: k < i ==> !FreeRun(p.used, k, n)
    ensures Frames.AllocPages(p, n) == (p.(used := SetRange(p.used, i, n, true)), FrameAt(p, i))
    ensures ValidPool(p.(used := SetRange(p.used, i, n, true)))
    ensures n <= CountFree(p.used) && CountFree(SetRange(p.used, i, n, true)) == CountFree(p.used) - n
  {
    hide CountFree;
    assert LowestRun(p.used, n, 0) == i;
    CountSetRange(p.used, i, n, true);
    RunCount(p.used, i, n);
  }

  lemma NoRun(used: seq<bool>, n: nat)
    requires n > CountFree(used)
    ensures forall k: nat :: !FreeRun(used, k, n)
  {
    forall k: nat | FreeRun(used, k, n) ensures false { RunCount(used, k, n); }
  }
}
