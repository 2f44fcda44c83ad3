/** The value the frame allocator manages: which 4 KiB frames of the covered range are in use. */
module Frames {

  const PAGE_SIZE: nat := 4096

  /** Frame i of the cover is the page at address lo + 4096 * i (g_cover_lo and the bitmap). */
  datatype Pool = Pool(lo: nat, used: seq<bool>)

  function FrameAt(p: Pool, i: nat): nat {
    p.lo + i * PAGE_SIZE
  }

  function FrameIndex(p: Pool, a: nat): nat
    requires a >= p.lo
  {
    (a - p.lo) / PAGE_SIZE
  }

  /** a is the address of a frame of the cover. */
  predicate Covered(p: Pool, a: nat) {
    && p.lo <= a < p.lo + |p.used| * PAGE_SIZE
    && (a - p.lo) % PAGE_SIZE == 0
  }

  predicate Used(p: Pool, a: nat) {
    Covered(p, a) && p.used[FrameIndex(p, a)]
  }

  predicate Free(p: Pool, a: nat) {
    Covered(p, a) && !p.used[FrameIndex(p, a)]
  }

  /** The cover is page aligned, above the first MiB, and within 52-bit physical addresses. */
  predicate ValidPool(p: Pool) {
    && p.lo % PAGE_SIZE == 0
    && 0x10_0000 <= p.lo
    && p.lo + |p.used| * PAGE_SIZE <= 0x10_0000_0000_0000
  }

  function CountFree(used: seq<bool>): (n: nat)
    ensures n <= |used|
  {
    if used == [] then 0
    else CountFree(used[..|used| - 1]) + (if used[|used| - 1] then 0 else 1)
  }

  /** Index of the lowest free frame, or the number of frames when every one is in use. */
  function FirstFree(used: seq<bool>): (i: nat)
    ensures i <= |used|
    ensures i < |used| ==> !used[i]
    ensures forall j :: 0 <= j < i ==> used[j]
  {
    if used == [] then 0
    else
      var i := FirstFree(used[..|used| - 1]);
      if i < |used| - 1 then i
      else if used[|used| - 1] then |used| else |used| - 1
  }

  /** n frames from start on are all free. */
  predicate FreeRun(used: seq<bool>, start: nat, n: nat) {
    start + n <= |used| && forall j :: start <= j < start + n ==> !used[j]
  }

  /** Frames [start, start + n) that lie in the cover take the value v; the others keep theirs. */
  function SetRange(used: seq<bool>, start: nat, n: nat, v: bool): (r: seq<bool>)
    ensures |r| == |used|
    ensures forall i :: 0 <= i < |r| ==> r[i] == if start <= i < start + n then v else used[i]
  {
    seq(|used|, i requires 0 <= i < |used| => if start <= i < start + n then v else used[i])
  }

  /** What pmm_alloc_page does to the pool, with the address it returns (0 stands for NULL). */
  function AllocPage(p: Pool): (Pool, nat) {
    var i := FirstFree(p.used);
    if i == |p.used| then (p, 0) else (p.(used := p.used[i := true]), FrameAt(p, i))
  }

  /** The least start from i on of a run of n free frames, or the number of frames if there is none. */
  function LowestRun(used: seq<bool>, n: nat, i: nat): (start: nat)
    requires i <= |used|
    ensures start < |used| ==> FreeRun(used, start, n)
    ensures start <= |used|
    ensures forall k :: i <= k < start ==> !FreeRun(used, k, n)
    decreases |used| - i
  {
    if i == |used| || FreeRun(used, i, n) then i else LowestRun(used, n, i + 1)
  }

  /** What pmm_alloc_pages does to the pool, with the address it returns (0 stands for NULL). */
  function AllocPages(p: Pool, n: nat): (Pool, nat) {
    var i := LowestRun(p.used, n, 0);
    if n == 0 || i == |p.used| then (p, 0)
    else (p.(used := SetRange(p.used, i, n, true)), FrameAt(p, i))
  }

  /** What pmm_free_pages does: frames past the end of the cover and addresses outside it are ignored. */
  function FreePages(p: Pool, a: nat, n: nat): Pool {
    if !Covered(p, a) then p else p.(used := SetRange(p.used, FrameIndex(p, a), n, false))
  }

  /** What pmm_region_set_used does; base is rounded down to a page. */
  function SetRegion(p: Pool, base: nat, n: nat, used: bool): Pool {
    var a := base / PAGE_SIZE * PAGE_SIZE;
    if !Covered(p, a) then p else p.(used := SetRange(p.used, FrameIndex(p, a), n, used))
  }

  lemma {:induction false} CountSet(used: seq<bool>, i: nat, v: bool)
    requires i < |used|
    ensures CountFree(used[i := v]) + (if used[i] then 0 else 1) == CountFree(used) + (if v then 0 else 1)
  {
    var n := |used| - 1;
    var u := used[i := v];
    if i == n {
      assert u[..n] == used[..n];
    } else {
      CountSet(used[..n], i, v);
      assert u[..n] == used[..n][i := v];
    }
  }

  lemma {:induction false} CountZero(used: seq<bool>)
    ensures CountFree(used) == 0 <==> FirstFree(used) == |used|
  {
    if used != [] { CountZero(used[..|used| - 1]); }
  }

  /** A run of n free frames needs at least n free frames altogether. */
  lemma {:induction false} RunCount(used: seq<bool>, start: nat, n: nat)
    requires FreeRun(used, start, n)
    ensures n <= CountFree(used)
    decreases |used|
  {
    if used != [] && n > 0 {
      var m := |used| - 1;
      RunCount(used[..m], start, if start + n == |used| then n - 1 else n);
    }
  }

  /** Marking a free run used, or a used run free, moves the count by its length. */
  lemma {:induction false} CountSetRange(used: seq<bool>, start: nat, n: nat, v: bool)
    requires start + n <= |used|
    requires forall j :: start <= j < start + n ==> used[j] != v
    ensures CountFree(SetRange(used, start, n, v)) == if v then CountFree(used) - n else CountFree(used) + n
  {
    if n == 0 {
      assert SetRange(used, start, 0, v) == used;
    } else {
      var u := SetRange(used, start, n - 1, v);
      CountSetRange(used, start, n - 1, v);
      CountSet(u, start + n - 1, v);
      assert SetRange(used, start, n, v) == u[start + n - 1 := v];
    }
  }

  /** pmm_alloc_page hands out the lowest free frame, marks just that one, and fails only when none is free. */
  lemma AllocPageLaw(p: Pool)
    requires ValidPool(p)
    ensures var (q, a) := AllocPage(p);
            && ValidPool(q) && q.lo == p.lo && |q.used| == |p.used|
            && (a == 0 <==> CountFree(p.used) == 0)
            && (a == 0 ==> q == p)
            && (a != 0 ==>
                  && Free(p, a) && Used(q, a) && a % PAGE_SIZE == 0 && a < 0x10_0000_0000_0000
                  && CountFree(q.used) == CountFree(p.used) - 1
                  && forall b :: b != a ==> (Used(q, b) <==> Used(p, b)))
  {
    CountZero(p.used);
    var i := FirstFree(p.used);
    if i < |p.used| {
      CountSet(p.used, i, true);
      var (q, a) := AllocPage(p);
      assert FrameIndex(p, a) == i;
      forall b | b != a && Covered(p, b)
        ensures FrameIndex(p, b) != i
      {
      }
    }
  }

  /** A single page is a run of one. */
  lemma {:induction false} RunOfOne(p: Pool)
    ensures AllocPages(p, 1) == AllocPage(p)
  {
    var i := LowestRun(p.used, 1, 0);
    if i < |p.used| {
      assert !p.used[i] by { assert FreeRun(p.used, i, 1); }
      assert forall j :: 0 <= j < i ==> p.used[j] by {
        forall j | 0 <= j < i ensures p.used[j] { assert !FreeRun(p.used, j, 1); }
      }
      assert FirstFree(p.used) == i;
      assert SetRange(p.used, i, 1, true) == p.used[i := true];
    } else {
      forall j | 0 <= j < |p.used| ensures p.used[j] { assert !FreeRun(p.used, j, 1); }
    }
  }

  /** a is a frame of the cover, one of n from the frame at base on, and base itself lies in the cover. */
  predicate InRun(p: Pool, base: nat, n: nat, a: nat) {
    Covered(p, base) && Covered(p, a) && base <= a < base + n * PAGE_SIZE
  }

  lemma RangeByAddress(p: Pool, base: nat, n: nat, v: bool, a: nat)
    requires Covered(p, base)
    ensures var q := p.(used := SetRange(p.used, FrameIndex(p, base), n, v));
            Used(q, a) <==> if InRun(p, base, n, a) then v else Used(p, a)
  {
    var q := p.(used := SetRange(p.used, FrameIndex(p, base), n, v));
    if Covered(p, a) {
      var i, j := FrameIndex(p, base), FrameIndex(p, a);
      assert base == FrameAt(p, i) && a == FrameAt(p, j) && FrameIndex(q, a) == j;
      assert a - base == (j - i) * PAGE_SIZE;
    }
  }

  /**
   pmm_region_set_used and pmm_free_pages, address by address: just the frames of the run change, to the state asked
   for; frames past the end of the cover are ignored, and so is a run that begins outside it.
   */
  lemma RegionLaw(p: Pool, base: nat, n: nat, used: bool, a: nat)
    ensures var q := SetRegion(p, base, n, used);
            && q.lo == p.lo && |q.used| == |p.used|
            && (Used(q, a) <==> if InRun(p, base - base % 4096, n, a) then used else Used(p, a))
    ensures var q := FreePages(p, base, n);
            && q.lo == p.lo && |q.used| == |p.used|
            && (Used(q, a) <==> Used(p, a) && !InRun(p, base, n, a))
  {
    hide Used;
    var down := base / PAGE_SIZE * PAGE_SIZE;
    assert down == base - base % 4096;
    if Covered(p, down) { RangeByAddress(p, down, n, used, a); }
    if Covered(p, base) { RangeByAddress(p, base, n, false, a); }
  }

  /**
   pmm_alloc_pages takes the lowest-addressed run of n free frames and fails exactly when there is
   none; giving the run back restores the pool. Asked for no pages it does nothing.
   */
  lemma AllocPagesLaw(p: Pool, n: nat)
    requires ValidPool(p)
    ensures AllocPages(p, 0) == (p, 0)
    ensures var (q, a) := AllocPages(p, n);
            n > 0 ==>
              && ValidPool(q)
              && (a == 0 <==> forall k: nat :: !FreeRun(p.used, k, n))
              && (a == 0 ==> q == p)
              && (a != 0 ==>
                    && Covered(p, a) && FreeRun(p.used, FrameIndex(p, a), n)
                    && (forall k: nat :: k < FrameIndex(p, a) ==> !FreeRun(p.used, k, n))
                    && q.used == SetRange(p.used, FrameIndex(p, a), n, true)
                    && CountFree(q.used) == CountFree(p.used) - n
                    && FreePages(q, a, n) == p)
  {
    hide CountFree;
    var (q, a) := AllocPages(p, n);
    var i := LowestRun(p.used, n, 0);
    if n == 0 {
    } else if a == 0 {
      forall k: nat ensures !FreeRun(p.used, k, n) {
        if k >= |p.used| { }
      }
    } else {
      assert FrameIndex(p, a) == i;
      CountSetRange(p.used, i, n, true);
      assert SetRange(q.used, i, n, false) == p.used;
    }
  }
}
