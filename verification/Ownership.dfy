/**
 Who holds which page frame: page tables, the heap, direct clients of the frame allocator, or the boot
 reservation.
 */
module Ownership {
  import opened Frames
  import opened Pte
  import opened PageTables
  import opened Mapping
  import opened AddressSpaces
  import BootMap

  datatype Kernel = Kernel(vm: State, heap: set<nat>, clients: set<nat>, reserved: set<nat>)

  /** No two of the sets share an element. */
  ghost predicate Apart(a: set<nat>, b: set<nat>, c: set<nat>, d: set<nat>) {
    a !! b && a !! c && a !! d && b !! c && b !! d && c !! d
  }

  /** Every frame of the cover has exactly one holder, or is free; the page tables are well formed. */
  ghost predicate Owned(k: Kernel) {
    && Inv(k.vm)
    && Apart(k.vm.tables.Keys, k.heap, k.clients, k.reserved)
    && (forall a :: Used(k.vm.pool, a) <==> a in k.vm.tables || a in k.heap || a in k.clients || a in k.reserved)
  }

  /** The addresses of n frames from a on. */
  function Run(a: nat, n: nat): set<nat> {
    set i | 0 <= i < n :: a + i * PAGE_SIZE
  }

  datatype Event =
    | VmCall(op: Op)
    | FirstSpace
    | NewSpace(kernel: nat)
    | TakePages(n: nat)
    | GivePages(a: nat, n: nat)
    | Walk(t: nat, i: nat)

  /** Callers name existing address spaces, clients give back only frames they hold, the processor walks only tables. */
  ghost predicate Allowed(k: Kernel, e: Event) {
    match e
    case VmCall(op) => op.root == 0 || IsRoot(k.vm, op.root)
    case FirstSpace => true
    case NewSpace(kernel) => IsRoot(k.vm, kernel)
    case TakePages(_) => true
    case GivePages(a, n) =>
      n > 0 ==>
        && Covered(k.vm.pool, a) && FrameIndex(k.vm.pool, a) + n <= |k.vm.pool.used|
        && Run(a, n) <= k.clients
    case Walk(t, i) => t in k.vm.tables && k.vm.tables[t].level >= 2 && i < ENTRIES
  }

  function After(k: Kernel, e: Event): Kernel {
    match e
    case VmCall(op) => k.(vm := Exec(k.vm, op).0)
    case FirstSpace => k.(vm := AllocTable(k.vm, ROOT).0)
    case NewSpace(kernel) => k.(vm := CreateSpace(k.vm, kernel).0)
    case TakePages(n) =>
      var (pool, a) := AllocPages(k.vm.pool, n);
      k.(vm := k.vm.(pool := pool), clients := k.clients + if a == 0 then {} else Run(a, n))
    case GivePages(a, n) =>
      if n == 0 then k
      else k.(vm := k.vm.(pool := FreePages(k.vm.pool, a, n)), clients := k.clients - Run(a, n))
    case Walk(t, i) => k.(vm := Touch(k.vm, t, i))
  }

  /** Changing the pool only at frames that are not tables keeps the page tables well formed. */
  lemma PoolChange(s: State, pool: Pool)
    requires Inv(s) && ValidPool(pool) && pool.lo == s.pool.lo && |pool.used| == |s.pool.used|
    requires forall t :: t in s.tables ==> Used(pool, t)
    ensures Inv(s.(pool := pool))
  {
    hide Present, Frame;
    var s' := s.(pool := pool);
    forall t | t in s'.tables
      ensures TableOk(s', t)
    {
      assert TableOk(s, t);
      if s.tables[t].level >= 2 {
        forall i | 0 <= i < ENTRIES
          ensures LinkOk(s', t, i)
        {
          assert LinkOk(s, t, i);
        }
      }
    }
  }

  lemma UsedInMemory(s: State)
    requires Inv(s)
    ensures forall a :: Used(s.pool, a) ==> a in s.mem && !Free(s.pool, a)
  {
    hide TableOk;
  }

  /** A page-table operation moves frames only from free to the tables and writes no page outside the tables. */
  lemma GrewOwned(k: Kernel, vm: State)
    requires Owned(k) && Inv(vm) && FramesGrew(k.vm, vm)
    requires forall t :: t in k.vm.tables ==> t in vm.tables
    requires forall t :: t in vm.tables && t !in k.vm.tables ==> Free(k.vm.pool, t)
    ensures Owned(k.(vm := vm))
    ensures forall a :: a in k.heap || a in k.clients || a in k.reserved ==>
            a in vm.mem && a in k.vm.mem && vm.mem[a] == k.vm.mem[a]
  {
    UsedInMemory(k.vm);
    hide Inv, CountFree, Used, Free, Apart;
    assert forall a :: a in k.heap || a in k.clients || a in k.reserved ==> Used(k.vm.pool, a);
    var fresh_ := vm.tables.Keys - k.vm.tables.Keys;
    assert forall a :: a in fresh_ ==> a !in k.heap && a !in k.clients && a !in k.reserved;
    ApartGrown(k.vm.tables.Keys, vm.tables.Keys, k.heap, k.clients, k.reserved);
  }

  lemma ApartGrown(a: set<nat>, a': set<nat>, b: set<nat>, c: set<nat>, d: set<nat>)
    requires Apart(a, b, c, d) && a <= a' && forall x :: x in a' - a ==> x !in b && x !in c && x !in d
    ensures Apart(a', b, c, d)
    ensures forall x :: x in b || x in c || x in d ==> x !in a'
  {
  }

  lemma ExecFrames(s: State, op: Op)
    requires Inv(s) && (op.root == 0 || IsRoot(s, op.root))
    ensures var s' := Exec(s, op).0;
            && Inv(s') && FramesGrew(s, s')
            && (forall t :: t in s.tables ==> t in s'.tables)
            && (forall t :: t in s'.tables && t !in s.tables ==> Free(s.pool, t))
  {
    hide Inv, Rewrote, SameTranslations, SameSharing, Missing, LeafEntry, PtOf, Lookup, CountFree, OnPath;
    match op
    case MapOp(root, v, p, flags) => MapLaw(s, root, v, p, flags);
    case UnmapOp(root, v) => UnmapLaw(s, root, v);
  }

  lemma RunFrames(p: Pool, a: nat, n: nat)
    requires Covered(p, a) && FrameIndex(p, a) + n <= |p.used|
    ensures forall b :: b in Run(a, n) <==> Covered(p, b) && FrameIndex(p, a) <= FrameIndex(p, b) < FrameIndex(p, a) + n
  {
    var i := FrameIndex(p, a);
    assert a == FrameAt(p, i);
    forall b ensures b in Run(a, n) <==> Covered(p, b) && i <= FrameIndex(p, b) < i + n {
      if Covered(p, b) && i <= FrameIndex(p, b) < i + n {
        var j := FrameIndex(p, b) - i;
        assert b == a + j * PAGE_SIZE;
      }
      if b in Run(a, n) {
        var j :| 0 <= j < n && b == a + j * PAGE_SIZE;
        assert b == FrameAt(p, i + j);
        assert FrameIndex(p, b) == i + j;
      }
    }
  }

  /** Setting a run of the bitmap changes the use of exactly the frames of the run. */
  lemma SetRunUse(p: Pool, a: nat, n: nat, v: bool)
    requires Covered(p, a) && FrameIndex(p, a) + n <= |p.used|
    ensures var q := p.(used := SetRange(p.used, FrameIndex(p, a), n, v));
            forall b :: Used(q, b) <==> if b in Run(a, n) then v else Used(p, b)
  {
    RunFrames(p, a, n);
    var i := FrameIndex(p, a);
    var q := p.(used := SetRange(p.used, i, n, v));
    forall b ensures Used(q, b) <==> if b in Run(a, n) then v else Used(p, b) {
      if Covered(p, b) { assert FrameIndex(q, b) == FrameIndex(p, b); }
    }
  }

  lemma TakeOwned(k: Kernel, n: nat)
    requires Owned(k)
    ensures Owned(After(k, TakePages(n)))
  {
    hide CountFree, Inv, Run;
    var p := k.vm.pool;
    var (q, a) := AllocPages(p, n);
    PoolOk(k.vm);
    if a != 0 {
      AllocPagesLaw(p, n);
      SetRunUse(p, a, n, true);
      RunFrames(p, a, n);
      assert forall b :: b in Run(a, n) ==> !Used(p, b);
      PoolChange(k.vm, q);
    } else {
      assert k.clients + {} == k.clients && q == p;
      assert After(k, TakePages(n)) == k;
    }
  }

  lemma PoolOk(s: State)
    requires Inv(s)
    ensures ValidPool(s.pool)
  {
  }

  lemma GiveOwned(k: Kernel, a: nat, n: nat)
    requires Owned(k) && Allowed(k, GivePages(a, n)) && n > 0
    ensures Owned(After(k, GivePages(a, n)))
  {
    hide CountFree, Inv, Run;
    var p := k.vm.pool;
    PoolOk(k.vm);
    SetRunUse(p, a, n, false);
    PoolChange(k.vm, FreePages(p, a, n));
  }

  /** Every allowed event keeps every frame with one holder, and page-table events leave the holders' pages alone. */
  lemma EventLaw(k: Kernel, e: Event)
    requires Owned(k) && Allowed(k, e)
    ensures var k' := After(k, e);
            && Owned(k')
            && k'.heap == k.heap && k'.reserved == k.reserved
            && (forall a :: a in k.heap || a in k.clients || a in k.reserved ==>
               a in k.vm.mem && a in k'.vm.mem && k'.vm.mem[a] == k.vm.mem[a])
  {
    hide Inv, Used, Run, AllocPages, FreePages, FramesGrew, Copied, SameTranslations, SameSharing, AllocTable,
      CreateSpace, Touch;
    UsedInMemory(k.vm);
    match e
    case VmCall(op) =>
      ExecFrames(k.vm, op);
      GrewOwned(k, Exec(k.vm, op).0);
    case FirstSpace =>
      FirstFrames(k.vm);
      GrewOwned(k, AllocTable(k.vm, ROOT).0);
    case NewSpace(kernel) =>
      CreateSpaceLaw(k.vm, kernel);
      CreateFrames(k.vm, kernel);
      GrewOwned(k, CreateSpace(k.vm, kernel).0);
    case TakePages(n) =>
      TakeOwned(k, n);
    case GivePages(a, n) =>
      if n > 0 { GiveOwned(k, a, n); }
    case Walk(t, i) =>
      TouchLaw(k.vm, t, i);
      GrewOwned(k, Touch(k.vm, t, i));
  }

  lemma FirstFrames(s: State)
    requires Inv(s)
    ensures var s' := AllocTable(s, ROOT).0;
            && Inv(s') && FramesGrew(s, s')
            && (forall t :: t in s.tables ==> t in s'.tables)
            && (forall t :: t in s'.tables && t !in s.tables ==> Free(s.pool, t))
  {
    hide Inv, CountFree, AllocPage;
    BootMap.FreshRootLaw(s);
    Unchanged(s, 0, 0);
    FreshFrameFree(s);
  }

  lemma FreshFrameFree(s: State)
    requires Inv(s)
    ensures AllocPage(s.pool).1 != 0 ==> Free(s.pool, AllocPage(s.pool).1)
  {
    hide TableOk, CountFree;
    AllocPageLaw(s.pool);
  }

  lemma CreateFrames(s: State, kernel: nat)
    requires Inv(s) && IsRoot(s, kernel)
    ensures var s' := CreateSpace(s, kernel).0;
            && FramesGrew(s, s')
            && (forall t :: t in s.tables ==> t in s'.tables)
            && (forall t :: t in s'.tables && t !in s.tables ==> Free(s.pool, t))
  {
    hide Inv, SameTranslations, SameSharing, CountFree;
    CreateSpaceLaw(s, kernel);
    Unchanged(s, kernel, 0);
  }

  // ----- Runs -----

  ghost predicate AllowedRun(k: Kernel, es: seq<Event>)
    decreases |es|
  {
    es == [] || (Allowed(k, es[0]) && AllowedRun(After(k, es[0]), es[1..]))
  }

  function AfterAll(k: Kernel, es: seq<Event>): Kernel
    decreases |es|
  {
    if es == [] then k else AfterAll(After(k, es[0]), es[1..])
  }

  /**
   In every reachable state every frame has one holder; heap and reserved pages are never written by the
   page-table code.
   */
  lemma {:induction false} RunOwned(k: Kernel, es: seq<Event>)
    requires Owned(k) && AllowedRun(k, es)
    ensures var k' := AfterAll(k, es);
            && Owned(k')
            && k'.heap == k.heap && k'.reserved == k.reserved
            && (forall a :: a in k.heap || a in k.reserved ==>
               a in k.vm.mem && a in k'.vm.mem && k'.vm.mem[a] == k.vm.mem[a])
    decreases |es|
  {
    hide Owned, Allowed, After;
    if es == [] {
      assert forall a :: a in k.heap || a in k.reserved ==> a in k.vm.mem by { HeldInMemory(k); }
    } else {
      EventLaw(k, es[0]);
      RunOwned(After(k, es[0]), es[1..]);
    }
  }

  lemma HeldInMemory(k: Kernel)
    requires Owned(k)
    ensures forall a :: a in k.heap || a in k.clients || a in k.reserved ==> a in k.vm.mem
  {
    UsedInMemory(k.vm);
    hide Inv, Used;
  }

  /** The frames in use before the heap and the page tables take theirs: firmware, kernel, stack, boot data. */
  function UsedSet(p: Pool): set<nat> {
    set i | 0 <= i < |p.used| && p.used[i] :: FrameAt(p, i)
  }

  lemma UsedSetLaw(p: Pool, a: nat)
    ensures a in UsedSet(p) <==> Used(p, a)
  {
    if Used(p, a) { assert a == FrameAt(p, FrameIndex(p, a)); }
    if a in UsedSet(p) {
      var i :| 0 <= i < |p.used| && p.used[i] && a == FrameAt(p, i);
      FrameOfIndex(p, i);
    }
  }

  lemma FrameOfIndex(p: Pool, i: nat)
    requires i < |p.used|
    ensures Covered(p, FrameAt(p, i)) && FrameIndex(p, FrameAt(p, i)) == i
  {
  }

  /** The frames of a run just allocated were free, and are the only ones whose use changed. */
  lemma RunTaken(p: Pool, n: nat)
    requires ValidPool(p) && n > 0 && AllocPages(p, n).1 != 0
    ensures var (q, base) := AllocPages(p, n);
            && ValidPool(q) && q.lo == p.lo && |q.used| == |p.used|
            && forall b :: (b in Run(base, n) ==> !Used(p, b)) && (Used(q, b) <==> b in Run(base, n) || Used(p, b))
  {
    hide CountFree, Run;
    AllocPagesLaw(p, n);
    var (q, base) := AllocPages(p, n);
    SetRunUse(p, base, n, true);
    RunFrames(p, base, n);
  }

  /** heap_init on a fresh frame allocator starts every run off well. */
  lemma BootOwned(mem: Memory, p: Pool)
    requires ValidPool(p) && forall a :: Covered(p, a) ==> a in mem && |mem[a]| == ENTRIES
    requires AllocPages(p, 256).1 != 0
    ensures var (q, base) := AllocPages(p, 256);
            Owned(Kernel(State(mem, q, map[]), Run(base, 256), {}, UsedSet(p)))
  {
    hide CountFree, Run, UsedSet, Used, AllocPages;
    RunTaken(p, 256);
    forall a: nat ensures a in UsedSet(p) <==> Used(p, a) { UsedSetLaw(p, a); }
  }

  // ----- Accounting -----

  function FreeSet(p: Pool): set<nat> {
    set i | 0 <= i < |p.used| && !p.used[i] :: FrameAt(p, i)
  }

  lemma {:induction false} FreeSetSize(p: Pool)
    ensures |FreeSet(p)| == CountFree(p.used)
    decreases |p.used|
  {
    if p.used != [] {
      var n := |p.used| - 1;
      var q := p.(used := p.used[..n]);
      FreeSetSize(q);
      LastFrame(p);
    }
  }

  lemma LastFrame(p: Pool)
    requires p.used != []
    ensures var n := |p.used| - 1;
            var q := p.(used := p.used[..n]);
            && FrameAt(p, n) !in FreeSet(q)
            && FreeSet(p) == FreeSet(q) + if p.used[n] then {} else {FrameAt(p, n)}
  {
    var n := |p.used| - 1;
    var q := p.(used := p.used[..n]);
    forall x ensures x in FreeSet(p) <==> x in FreeSet(q) || (!p.used[n] && x == FrameAt(p, n)) {
      if x in FreeSet(p) {
        var i :| 0 <= i < |p.used| && !p.used[i] && x == FrameAt(p, i);
        assert i < n ==> !q.used[i] && x == FrameAt(q, i);
      }
      if x in FreeSet(q) {
        var i :| 0 <= i < |q.used| && !q.used[i] && x == FrameAt(q, i);
        assert x == FrameAt(p, i) && !p.used[i];
      }
      if !p.used[n] && x == FrameAt(p, n) { assert x in FreeSet(p); }
    }
  }

  lemma {:induction false} CoverSize(p: Pool, n: nat)
    requires n <= |p.used|
    ensures |Run(p.lo, n)| == n
    decreases n
  {
    if n > 0 {
      CoverSize(p, n - 1);
      assert Run(p.lo, n) == Run(p.lo, n - 1) + {FrameAt(p, n - 1)};
    }
  }

  /** The frames of the tables, the heap, the clients and the reservation, with the free ones, add up to the cover. */
  lemma FramesAddUp(k: Kernel)
    requires Owned(k)
    ensures |k.vm.tables| + |k.heap| + |k.clients| + |k.reserved| + CountFree(k.vm.pool.used) == |k.vm.pool.used|
  {
    hide Inv, CountFree;
    var p := k.vm.pool;
    FreeSetSize(p);
    CoverSize(p, |p.used|);
    var held := k.vm.tables.Keys + k.heap + k.clients + k.reserved;
    CoverSplits(p, held);
    assert |held| == |k.vm.tables.Keys| + |k.heap| + |k.clients| + |k.reserved|;
  }

  lemma CoverSplits(p: Pool, held: set<nat>)
    requires forall a :: Used(p, a) <==> a in held
    ensures |Run(p.lo, |p.used|)| == |held| + |FreeSet(p)|
  {
    forall a ensures a in Run(p.lo, |p.used|) <==> a in held || a in FreeSet(p) {
      if Covered(p, a) {
        var i := FrameIndex(p, a);
        assert a == FrameAt(p, i) == p.lo + i * PAGE_SIZE;
        assert a in Run(p.lo, |p.used|);
      }
      if a in FreeSet(p) {
        var i :| 0 <= i < |p.used| && !p.used[i] && a == FrameAt(p, i);
        assert FrameIndex(p, a) == i;
      }
    }
    assert Run(p.lo, |p.used|) == held + FreeSet(p);
    assert held !! FreeSet(p);
  }
}
