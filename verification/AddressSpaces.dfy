/** Runs of mapping operations over several address spaces, and what each space then translates. */
module AddressSpaces {
  import opened Bits
  import opened Frames
  import opened Pte
  import opened PageTables
  import opened Mapping

  /** One call of vmm_map or vmm_unmap through the address space of root. */
  datatype Op =
    | MapOp(root: nat, v: u64, p: u64, flags: u64)
    | UnmapOp(root: nat, v: u64)

  function Exec(s: State, op: Op): (State, int) {
    match op
    case MapOp(root, v, p, flags) => MapPage(s, root, v, p, flags)
    case UnmapOp(root, v) => UnmapPage(s, root, v)
  }

  /** The state after a sequence of calls, and what each call returned. */
  function Run(s: State, ops: seq<Op>): (State, seq<int>)
    decreases |ops|
  {
    if ops == [] then (s, [])
    else
      var (s1, r) := Exec(s, ops[0]);
      var (s2, rs) := Run(s1, ops[1..]);
      (s2, [r] + rs)
  }

  /** What a successful call puts in the cells it reaches. */
  function OpCell(op: Op): Option<u64> {
    match op
    case MapOp(_, _, p, flags) => Some(LeafEntry(p, flags))
    case UnmapOp(_, _) => None
  }

  /**
   The flat model: one cell for each address space and page, overwritten by every successful call
   that reaches it. Which spaces share a slot is read off the memory mem0 the run started from.
   */
  function FlatRun(mem0: Memory, r: nat, w: nat, cell: Option<u64>, ops: seq<Op>, results: seq<int>): Option<u64>
    requires |results| == |ops|
    decreases |ops|
  {
    if ops == [] then cell
    else
      var hit := results[0] == 0 && Reaches(mem0, r, ops[0].root, ops[0].v, w);
      FlatRun(mem0, r, w, if hit then OpCell(ops[0]) else cell, ops[1..], results[1..])
  }

  ghost predicate ValidOps(s: State, ops: seq<Op>) {
    forall i :: 0 <= i < |ops| ==> ops[i].root == 0 || IsRoot(s, ops[i].root)
  }

  lemma ExecLaw(s: State, op: Op)
    requires Inv(s) && (op.root == 0 || IsRoot(s, op.root))
    ensures var (s', r) := Exec(s, op);
            && Inv(s')
            && (forall x :: IsRoot(s, x) <==> IsRoot(s', x))
            && (r == 0 ==> Rewrote(s, s', op.root, op.v, OpCell(op)))
            && (r == 0 ==> op.root != 0)
            && (r != 0 ==> SameTranslations(s, s'))
            && SameSharing(s, s')
  {
    hide Inv, Rewrote, SameTranslations, SameSharing, FramesGrew, TablesGrew, MapPage, UnmapPage, Missing, LeafEntry,
      PtOf, Lookup;
    Unchanged(s, op.root, op.v);
    match op
    case MapOp(root, v, p, flags) => MapLaw(s, root, v, p, flags);
    case UnmapOp(root, v) => UnmapLaw(s, root, v);
  }

  /** The flat model only depends on which slots the address spaces share. */
  lemma {:induction false} FlatRunSharing(s: State, s1: State, r: nat, w: nat, cell: Option<u64>, ops: seq<Op>,
      results: seq<int>)
    requires |results| == |ops| && IsRoot(s, r) && SameSharing(s, s1)
    requires forall i :: 0 <= i < |ops| && results[i] == 0 ==> IsRoot(s, ops[i].root)
    ensures FlatRun(s1.mem, r, w, cell, ops, results) == FlatRun(s.mem, r, w, cell, ops, results)
    decreases |ops|
  {
    hide Shares, Vpn, Pml4Index, LeafEntry;
    if ops != [] {
      var op := ops[0];
      assert Pml4Index(op.v) < ENTRIES;
      var hit := results[0] == 0 && Reaches(s.mem, r, op.root, op.v, w);
      assert hit == (results[0] == 0 && Reaches(s1.mem, r, op.root, op.v, w));
      assert forall i :: 0 <= i < |ops[1..]| ==> ops[1..][i] == ops[i + 1] && results[1..][i] == results[i + 1];
      FlatRunSharing(s, s1, r, w, if hit then OpCell(op) else cell, ops[1..], results[1..]);
    }
  }

  /** A run keeps the graph well formed, keeps the set of address spaces, and fails on null ones. */
  lemma {:induction false} RunKeepsInv(s: State, ops: seq<Op>)
    requires Inv(s) && ValidOps(s, ops)
    ensures Inv(Run(s, ops).0) && |Run(s, ops).1| == |ops|
    ensures forall x :: IsRoot(s, x) <==> IsRoot(Run(s, ops).0, x)
    ensures forall i :: 0 <= i < |ops| && Run(s, ops).1[i] == 0 ==> IsRoot(s, ops[i].root)
    decreases |ops|
  {
    hide Inv, Rewrote, SameTranslations, SameSharing, MapPage, UnmapPage;
    if ops != [] {
      ExecLaw(s, ops[0]);
      var s1 := Exec(s, ops[0]).0;
      assert forall i :: 0 <= i < |ops[1..]| ==> ops[1..][i] == ops[i + 1];
      RunKeepsInv(s1, ops[1..]);
      assert forall i :: 0 < i < |ops| ==> Run(s, ops).1[i] == Run(s1, ops[1..]).1[i - 1] && ops[i] == ops[1..][i - 1];
    }
  }

  /**
   Over any run of maps and unmaps, through whichever address spaces and however the calls turn out,
   every address space translates every address as the flat model says.
   */
  lemma {:induction false} RunRefinesFlat(s: State, ops: seq<Op>, r: nat, w: nat)
    requires Inv(s) && ValidOps(s, ops) && IsRoot(s, r)
    ensures var (s', results) := Run(s, ops);
            |results| == |ops| &&
            Lookup(s'.mem, r, w) == FlatRun(s.mem, r, w, Lookup(s.mem, r, w), ops, results)
    decreases |ops|
  {
    hide Inv, SameSharing, Exec, Lookup, Reaches, OpCell;
    RunKeepsInv(s, ops);
    if ops != [] {
      ExecLaw(s, ops[0]);
      var s1 := Exec(s, ops[0]).0;
      var rest := Run(s1, ops[1..]).1;
      RunKeepsInv(s1, ops[1..]);
      RunRefinesFlat(s1, ops[1..], r, w);
      assert forall i :: 0 <= i < |ops[1..]| ==> ops[1..][i] == ops[i + 1];
      assert Run(s, ops).1[1..] == rest;
      FlatRunSharing(s, s1, r, w, Lookup(s1.mem, r, w), ops[1..], rest);
    }
  }

  /** A freshly zeroed PML4 translates nothing and shares nothing. */
  lemma EmptyRoot(s: State, r: nat)
    requires Inv(s) && IsRoot(s, r) && (forall j: nat :: j < ENTRIES ==> Entry(s.mem, r, j) == 0)
    ensures forall w: nat :: Lookup(s.mem, r, w) == None
    ensures forall x, j: nat :: j < ENTRIES ==> !Shares(s.mem, r, x, j)
  {
    hide Present, Frame, CountFree, Pml4Index, PdptIndex, PdIndex, PtIndex;
    ZeroAbsent();
    ChildOfNull(s.mem);
    assert forall w: nat :: Pml4Index(w) < ENTRIES;
  }

  /** The flat model of one private address space: the last successful call on the page decides. */
  function OwnRun(r: nat, w: nat, cell: Option<u64>, ops: seq<Op>, results: seq<int>): Option<u64>
    requires |results| == |ops|
    decreases |ops|
  {
    if ops == [] then cell
    else
      var hit := results[0] == 0 && ops[0].root == r && Vpn(ops[0].v) == Vpn(w);
      OwnRun(r, w, if hit then OpCell(ops[0]) else cell, ops[1..], results[1..])
  }

  /** In a slot that r shares with no other space of the run, only calls through r count. */
  lemma {:induction false} PrivateSlot(mem0: Memory, r: nat, w: nat, cell: Option<u64>, ops: seq<Op>, results: seq<int>)
    requires |results| == |ops|
    requires forall i :: 0 <= i < |ops| && ops[i].root != r ==> !Shares(mem0, r, ops[i].root, Pml4Index(w))
    ensures FlatRun(mem0, r, w, cell, ops, results) == OwnRun(r, w, cell, ops, results)
    decreases |ops|
  {
    hide Shares, OpCell, Vpn, Pml4Index;
    if ops != [] {
      SamePage(ops[0].v, w);
      assert forall i :: 0 <= i < |ops[1..]| ==> ops[1..][i] == ops[i + 1];
      var hit := results[0] == 0 && ops[0].root == r && Vpn(ops[0].v) == Vpn(w);
      assert hit == (results[0] == 0 && Reaches(mem0, r, ops[0].root, ops[0].v, w));
      PrivateSlot(mem0, r, w, if hit then OpCell(ops[0]) else cell, ops[1..], results[1..]);
    }
  }

  /** From an empty PML4, an address space is the flat partial map its own successful calls build. */
  lemma EmptyRootRefinesFlat(s: State, r: nat, ops: seq<Op>, w: nat)
    requires Inv(s) && ValidOps(s, ops) && IsRoot(s, r)
    requires forall j: nat :: j < ENTRIES ==> Entry(s.mem, r, j) == 0
    ensures var (s', results) := Run(s, ops);
            |results| == |ops| && Lookup(s'.mem, r, w) == OwnRun(r, w, None, ops, results)
  {
    hide Inv, Lookup, Shares, Entry, Run, FlatRun;
    RunRefinesFlat(s, ops, r, w);
    EmptyRoot(s, r);
    assert Pml4Index(w) < ENTRIES;
    PrivateSlot(s.mem, r, w, None, ops, Run(s, ops).1);
  }

  // ----- vmm_create_address_space -----

  /** A new PML4 with the kernel's 512 top-level entries copied in, or 0 when no frame is free. */
  function CreateSpace(s: State, kernel: nat): (State, nat) {
    var (a, root) := AllocTable(s, ROOT);
    if root == 0 || kernel !in a.mem then (s, 0)
    else (a.(mem := a.mem[root := a.mem[kernel]]), root)
  }

  /** s' is s with a copy of the PML4 of kernel at the formerly free frame r. */
  ghost predicate Copied(s: State, s': State, kernel: nat, r: nat) {
    && IsRoot(s, kernel) && kernel in s.mem
    && r != 0 && r !in s.tables && Free(s.pool, r) && r in s.mem
    && s'.mem == s.mem[r := s.mem[kernel]]
    && s'.tables == s.tables[r := ROOT]
    && ValidPool(s'.pool) && s'.pool.lo == s.pool.lo && |s'.pool.used| == |s.pool.used|
    && Used(s'.pool, r)
    && (forall b :: b != r ==> (Used(s'.pool, b) <==> Used(s.pool, b)))
    && CountFree(s'.pool.used) == CountFree(s.pool.used) - 1
  }

  lemma CopiedKeepsInv(s: State, s': State, kernel: nat, r: nat)
    requires Inv(s) && Copied(s, s', kernel, r)
    ensures Inv(s')
  {
    hide Present, Frame, CountFree;
    forall t | t in s'.tables
      ensures TableOk(s', t)
    {
      var src := if t == r then kernel else t;
      assert TableOk(s, src);
      if s'.tables[t].level >= 2 {
        forall i | 0 <= i < ENTRIES
          ensures LinkOk(s', t, i)
        {
          assert LinkOk(s, src, i);
        }
      }
    }
  }

  lemma CopiedChildren(s: State, s': State, kernel: nat, r: nat)
    requires Inv(s) && Copied(s, s', kernel, r)
    ensures forall t, j: nat :: t in s.tables && j < ENTRIES ==> Child(s'.mem, t, j) == Child(s.mem, t, j)
    ensures forall j: nat :: j < ENTRIES ==> Child(s'.mem, r, j) == Child(s.mem, kernel, j)
  {
    hide Present, Frame, CountFree;
    assert TableOk(s, kernel);
  }

  lemma CopiedLookup(s: State, s': State, kernel: nat, r: nat, x: nat, w: nat)
    requires Inv(s) && Copied(s, s', kernel, r) && (IsRoot(s, x) || x == r)
    ensures Lookup(s'.mem, x, w) == Lookup(s.mem, if x == r then kernel else x, w)
  {
    hide Present, Child, CountFree, Used, Pml4Index, PdptIndex, PdIndex, PtIndex;
    CopiedChildren(s, s', kernel, r);
    ChildOfNull(s.mem);
    ChildOfNull(s'.mem);
    var y := if x == r then kernel else x;
    WalkTyped(s, y, w);
    assert PtOf(s'.mem, x, w) == PtOf(s.mem, y, w);
  }

  lemma CopiedSame(s: State, s': State, kernel: nat, r: nat)
    requires Inv(s) && Copied(s, s', kernel, r)
    ensures SameTranslations(s, s') && SameSharing(s, s') && FramesGrew(s, s')
  {
    hide CountFree, Lookup, Child, Inv;
    CopiedChildren(s, s', kernel, r);
    forall x, w: nat | IsRoot(s, x)
      ensures Lookup(s'.mem, x, w) == Lookup(s.mem, x, w)
    {
      CopiedLookup(s, s', kernel, r, x, w);
    }
    assert s'.tables.Keys == s.tables.Keys + {r};
  }

  lemma CreateSpaceLaw(s: State, kernel: nat)
    requires Inv(s) && IsRoot(s, kernel)
    ensures var (s', r) := CreateSpace(s, kernel);
            && Inv(s')
            && (r == 0 <==> CountFree(s.pool.used) == 0)
            && (r == 0 ==> s' == s)
            && (r != 0 ==>
                  Copied(s, s', kernel, r) && FramesGrew(s, s') && SameTranslations(s, s') && SameSharing(s, s'))
  {
    hide CountFree, LinkOk, SameTranslations, SameSharing, FramesGrew, AllocPage;
    AllocPageLaw(s.pool);
    var (s', r) := CreateSpace(s, kernel);
    assert TableOk(s, kernel);
    if r != 0 {
      assert r in s.tables ==> TableOk(s, r);
      assert Copied(s, s', kernel, r);
      CopiedKeepsInv(s, s', kernel, r);
      CopiedSame(s, s', kernel, r);
    }
  }

  /**
   A space copied from the kernel's agrees with it, after any later run of calls through any spaces,
   on every address of a slot that was present when the copy was made.
   */
  lemma CopyAgrees(s: State, kernel: nat, ops: seq<Op>, w: nat)
    requires Inv(s) && IsRoot(s, kernel)
    requires var (a, r) := CreateSpace(s, kernel);
             r != 0 && ValidOps(a, ops) && Child(s.mem, kernel, Pml4Index(w)) != 0
    ensures var (a, r) := CreateSpace(s, kernel);
            Lookup(Run(a, ops).0.mem, r, w) == Lookup(Run(a, ops).0.mem, kernel, w)
  {
    hide Inv, Lookup, Child, Run, CreateSpace, Pml4Index, Vpn;
    CreateSpaceLaw(s, kernel);
    var (a, r) := CreateSpace(s, kernel);
    CopiedChildren(s, a, kernel, r);
    CopiedLookup(s, a, kernel, r, r, w);
    CopiedLookup(s, a, kernel, r, kernel, w);
    RunRefinesFlat(a, ops, r, w);
    RunRefinesFlat(a, ops, kernel, w);
    assert Pml4Index(w) < ENTRIES;
    SharedFlat(a.mem, kernel, r, w, Lookup(a.mem, r, w), ops, Run(a, ops).1);
  }

  /** Spaces that share the slot of w see the same calls there. */
  lemma {:induction false} SharedFlat(mem0: Memory, r1: nat, r2: nat, w: nat, cell: Option<u64>, ops: seq<Op>,
      results: seq<int>)
    requires |results| == |ops| && Shares(mem0, r1, r2, Pml4Index(w))
    ensures FlatRun(mem0, r1, w, cell, ops, results) == FlatRun(mem0, r2, w, cell, ops, results)
    decreases |ops|
  {
    hide Child, OpCell, Vpn, Pml4Index;
    if ops != [] {
      SamePage(ops[0].v, w);
      var hit := results[0] == 0 && Reaches(mem0, r1, ops[0].root, ops[0].v, w);
      assert hit == (results[0] == 0 && Reaches(mem0, r2, ops[0].root, ops[0].v, w));
      SharedFlat(mem0, r1, r2, w, if hit then OpCell(ops[0]) else cell, ops[1..], results[1..]);
    }
  }

  /**
   In a slot that was absent when the copy was made, the kernel's space and the copy each translate
   as their own calls alone say: a call through one never changes the other.
   */
  lemma CopyIsolated(s: State, kernel: nat, ops: seq<Op>, w: nat, x: nat)
    requires Inv(s) && IsRoot(s, kernel)
    requires var (a, r) := CreateSpace(s, kernel);
             r != 0 && ValidOps(a, ops) && Child(s.mem, kernel, Pml4Index(w)) == 0 && (x == r || x == kernel)
    ensures var (a, r) := CreateSpace(s, kernel);
            var (a', results) := Run(a, ops);
            |results| == |ops| && Lookup(a'.mem, x, w) == OwnRun(x, w, None, ops, results)
  {
    hide Inv, Child, Run, CreateSpace, Pml4Index, Vpn, FlatRun, OwnRun, PdptIndex, PdIndex, PtIndex;
    CreateSpaceLaw(s, kernel);
    var (a, r) := CreateSpace(s, kernel);
    CopiedChildren(s, a, kernel, r);
    RunRefinesFlat(a, ops, x, w);
    assert Pml4Index(w) < ENTRIES;
    assert Child(a.mem, x, Pml4Index(w)) == 0;
    ChildOfNull(a.mem);
    assert Lookup(a.mem, x, w) == None;
    PrivateSlot(a.mem, x, w, None, ops, Run(a, ops).1);
  }

  // ----- vmm_map_range -----

  /** The loop of vmm_map_range after n pages, stopping at the first failure; addresses wrap at 2^64. */
  function MapRange(s: State, root: nat, v: u64, p: u64, n: nat, flags: u64): (State, int) {
    if n == 0 then (s, 0)
    else
      var (s1, r) := MapRange(s, root, v, p, n - 1, flags);
      if r != 0 then (s1, r) else MapPage(s1, root, PageOf(v, n - 1), PageOf(p, n - 1), flags)
  }

  /** After a failure the loop does nothing more. */
  lemma {:induction false} MapRangeStops(s: State, root: nat, v: u64, p: u64, k: nat, n: nat, flags: u64)
    requires k <= n && MapRange(s, root, v, p, k, flags).1 != 0
    ensures MapRange(s, root, v, p, n, flags) == MapRange(s, root, v, p, k, flags)
    decreases n
  {
    hide MapPage;
    if k < n { MapRangeStops(s, root, v, p, k, n - 1, flags); }
  }

  function PageOf(a: u64, i: nat): u64 {
    (a + i * 4096) % TWO_64
  }

  /** The entry the first k pages of a range give the page of w: that of the last one that falls on it. */
  function RangeCell(v: u64, p: u64, k: nat, flags: u64, w: nat): Option<u64> {
    if k == 0 then None
    else if Vpn(PageOf(v, k - 1)) == Vpn(w) then Some(LeafEntry(PageOf(p, k - 1), flags))
    else RangeCell(v, p, k - 1, flags, w)
  }

  /** Every space sees exactly the first k pages of the range, as far as it shares slots with root. */
  ghost predicate RangeMapped(s: State, s': State, root: nat, v: u64, p: u64, k: nat, flags: u64) {
    forall r, w: nat :: IsRoot(s, r) ==>
      var c := RangeCell(v, p, k, flags, w);
      Lookup(s'.mem, r, w) ==
        if c.Some? && (r == root || Shares(s.mem, r, root, Pml4Index(w))) then c else Lookup(s.mem, r, w)
  }

  /** vmm_map_range maps exactly a prefix of k pages: all of them on success, fewer on failure. */
  lemma {:induction false} MapRangeLaw(s: State, root: nat, v: u64, p: u64, n: nat, flags: u64) returns (k: nat)
    requires Inv(s) && (root == 0 || IsRoot(s, root))
    ensures var (s', r) := MapRange(s, root, v, p, n, flags);
            && k <= n && (r == 0 || r == -1) && (r == 0 <==> k == n)
            && (r == -1 ==>
                  MapPage(MapRange(s, root, v, p, k, flags).0, root, PageOf(v, k), PageOf(p, k), flags).1 == -1)
            && Inv(s') && SameSharing(s, s')
            && (forall x :: IsRoot(s, x) <==> IsRoot(s', x))
            && RangeMapped(s, s', root, v, p, k, flags)
  {
    hide Inv, Lookup, Shares, Vpn, LeafEntry, FramesGrew, TablesGrew, MapPage, PtOf, PageOf, Missing, Pml4Index;
    if n == 0 {
      k := 0;
    } else {
      k := MapRangeLaw(s, root, v, p, n - 1, flags);
      var (s1, r1) := MapRange(s, root, v, p, n - 1, flags);
      if r1 == 0 {
        var v1, p1 := PageOf(v, n - 1), PageOf(p, n - 1);
        MapLaw(s1, root, v1, p1, flags);
        var (s2, r2) := MapPage(s1, root, v1, p1, flags);
        if r2 == 0 { k := n; }
        RangeStep(s, s1, s2, r2, root, v, p, n, flags);
      }
    }
  }

  lemma RangeStep(s: State, s1: State, s2: State, r: int, root: nat, v: u64, p: u64, n: nat, flags: u64)
    requires n > 0 && (r == 0 ==> IsRoot(s, root))
    requires forall x :: IsRoot(s, x) <==> IsRoot(s1, x)
    requires SameSharing(s, s1) && SameSharing(s1, s2) && RangeMapped(s, s1, root, v, p, n - 1, flags)
    requires r == 0 || r == -1
    requires r == 0 ==> Rewrote(s1, s2, root, PageOf(v, n - 1), Some(LeafEntry(PageOf(p, n - 1), flags)))
    requires r == -1 ==> SameTranslations(s1, s2)
    ensures SameSharing(s, s2)
    ensures RangeMapped(s, s2, root, v, p, if r == 0 then n else n - 1, flags)
  {
    hide Lookup, Shares, Vpn, LeafEntry, PageOf, Pml4Index, IsRoot;
    forall x, w: nat | IsRoot(s, x)
      ensures var c := RangeCell(v, p, if r == 0 then n else n - 1, flags, w);
              Lookup(s2.mem, x, w) ==
                if c.Some? && (x == root || Shares(s.mem, x, root, Pml4Index(w))) then c else Lookup(s.mem, x, w)
    {
      SamePage(PageOf(v, n - 1), w);
      assert Pml4Index(w) < ENTRIES;
      assert r == 0 && x != root ==> (Shares(s.mem, x, root, Pml4Index(w)) <==> Shares(s1.mem, x, root, Pml4Index(w)));
    }
  }

  /** Fewer than 2^36 pages apart, page addresses name different pages. */
  lemma PagesApart(v: nat, i: nat, j: nat, off: nat)
    requires v % 4096 == 0 && off < 4096 && i < 0x10_0000_0000 && j < 0x10_0000_0000
    ensures Vpn(v + i * 4096) == Vpn(v + j * 4096 + off) <==> i == j
  {
    var q := v / 4096;
    assert (v + i * 4096) / 4096 == q + i && (v + j * 4096 + off) / 4096 == q + j;
    if i != j { NearPagesApart(q + i, q + j); }
  }

  lemma NearPagesApart(a: nat, b: nat)
    requires a != b && a - 0x10_0000_0000 < b < a + 0x10_0000_0000
    ensures a % 0x10_0000_0000 != b % 0x10_0000_0000
  {
    var n := 0x10_0000_0000;
    assert a - b == n * (a / n - b / n) + (a % n - b % n);
  }

  lemma {:induction false} RangeCellAt(v: u64, p: u64, k: nat, flags: u64, i: nat, off: nat)
    requires v % 4096 == 0 && off < 4096 && i < k <= 0x10_0000_0000
    requires v + k * 4096 <= TWO_64 && p + k * 4096 <= TWO_64
    ensures RangeCell(v, p, k, flags, v + i * 4096 + off) == Some(LeafEntry(p + i * 4096, flags))
    decreases k
  {
    hide LeafEntry, Vpn;
    PagesApart(v, k - 1, i, off);
    if i < k - 1 { RangeCellAt(v, p, k - 1, flags, i, off); }
  }

  /**
   A range mapped as a whole is reachable byte for byte: the i-th page behind v leads to the i-th page behind p,
   as long as no address runs out of its range and the flags add no address bit.
   */
  lemma MapRangeReaches(s: State, root: nat, v: u64, p: u64, n: nat, flags: u64, i: nat, off: nat)
    requires Inv(s) && IsRoot(s, root) && MapRange(s, root, v, p, n, flags).1 == 0
    requires v % 4096 == 0 && p % 4096 == 0 && i < n <= 0x10_0000_0000 && off < 4096
    requires v + n * 4096 <= TWO_64 && p + n * 4096 <= TWO_52 && Frame(flags) == 0
    ensures v + i * 4096 + off < TWO_64
    ensures GetPhys(MapRange(s, root, v, p, n, flags).0, root, v + i * 4096 + off) == p + i * 4096 + off
  {
    hide Inv, Lookup, Shares, LeafEntry, FramesGrew, TablesGrew, MapPage, PtOf, Missing, Vpn, Frame, GetPhys, MapRange,
      SameSharing, Pml4Index, RangeCell;
    PageInside(v, n, i, off, TWO_64);
    PageInside(p, n, i, off, TWO_52);
    var s' := MapRange(s, root, v, p, n, flags).0;
    var w: u64 := v + i * 4096 + off;
    var k := MapRangeLaw(s, root, v, p, n, flags);
    RangeCellAt(v, p, n, flags, i, off);
    GetPhysLaw(s', root, w);
    LeafLaw(p + i * 4096, flags);
    OrZero(p + i * 4096);
  }

  lemma PageInside(a: nat, n: nat, i: nat, off: nat, top: nat)
    requires a % 4096 == 0 && i < n && off < 4096 && a + n * 4096 <= top
    ensures a + i * 4096 + off < top && (a + i * 4096) % 4096 == 0 && (a + i * 4096 + off) % 4096 == off
  {
    assert (n - i - 1) * 4096 >= 0;
  }
}
