/** How many tables a plan of mappings needs: one for each 512 GiB, 1 GiB and 2 MiB slot it touches. */
module BootTables {
  import opened Bits
  import opened Frames
  import opened Pte
  import opened PageTables
  import opened Mapping
  import opened BootMap

  // ----- Links only grow -----

  /** Tables and links are kept, and every link to an old table is an old link. */
  ghost predicate LinksGrew(s: State, s': State) {
    && (forall t :: t in s.tables ==> t in s'.tables && s'.tables[t] == s.tables[t])
    && (forall t, j: nat :: t in s.tables && s.tables[t].level >= 2 && j < ENTRIES && Child(s.mem, t, j) != 0 ==>
          Child(s'.mem, t, j) == Child(s.mem, t, j))
    && (forall t, j: nat ::
          t in s'.tables && s'.tables[t].level >= 2 && j < ENTRIES && Child(s'.mem, t, j) in s.tables ==>
          t in s.tables && Child(s'.mem, t, j) == Child(s.mem, t, j))
  }

  lemma LinksGrewTwice(s: State, s1: State, s2: State)
    requires LinksGrew(s, s1) && LinksGrew(s1, s2)
    ensures LinksGrew(s, s2)
  {
    hide Child;
  }

  lemma NullNoTable(s: State)
    requires Inv(s)
    ensures 0 !in s.tables
  {
    assert 0 in s.tables ==> TableOk(s, 0);
  }

  lemma CreateGrew(s: State, t: nat, i: nat)
    requires Inv(s) && t in s.tables && s.tables[t].level >= 2 && i < ENTRIES
    ensures LinksGrew(s, GetOrCreateTable(s, t, i).0)
  {
    hide Present, Frame, CountFree, Child, TableOk;
    ChildTyped(s, t, i);
    NullNoTable(s);
    if Child(s.mem, t, i) == 0 {
      CreateLaw(s, t, i);
      var (s', c) := GetOrCreateTable(s, t, i);
      if c != 0 { CreatedChildren(s, s', t, i, c); }
    }
  }

  lemma WalkCreateGrew(s: State, root: nat, v: u64)
    requires Inv(s) && IsRoot(s, root)
    ensures LinksGrew(s, WalkOrCreate(s, root, v).0)
  {
    hide Child, CountFree, Pml4Index, PdptIndex, PdIndex, Grew, Inv, GetOrCreateTable, OnPath, LinksGrew;
    WalkTyped(s, root, v);
    GetOrCreateLaw(s, root, Pml4Index(v), root, v);
    CreateGrew(s, root, Pml4Index(v));
    var (s1, pdpt) := GetOrCreateTable(s, root, Pml4Index(v));
    if pdpt != 0 {
      GrewParts(s, s1, root, v);
      WalkTyped(s1, root, v);
      GetOrCreateLaw(s1, pdpt, PdptIndex(v), root, v);
      CreateGrew(s1, pdpt, PdptIndex(v));
      var (s2, pd) := GetOrCreateTable(s1, pdpt, PdptIndex(v));
      LinksGrewTwice(s, s1, s2);
      if pd != 0 {
        GrewParts(s1, s2, root, v);
        WalkTyped(s2, root, v);
        StillOnWalk(s1, s2, root, v);
        CreateGrew(s2, pd, PdIndex(v));
        LinksGrewTwice(s, s2, GetOrCreateTable(s2, pd, PdIndex(v)).0);
      }
    }
  }

  lemma LeafGrew(s: State, root: nat, v: nat, e: u64)
    requires Inv(s) && IsRoot(s, root) && PtOf(s.mem, root, v) != 0
    ensures LinksGrew(s, WithLeaf(s, root, v, e))
  {
    hide Child, CountFree, PtOf, Inv, Rewrote, SameSharing, FramesGrew;
    WriteLeaf(s, root, v, e);
  }

  /** A successful vmm_map completes its walk. */
  lemma MapGrew(s: State, root: nat, v: u64, p: u64, flags: u64)
    requires Inv(s) && IsRoot(s, root) && MapPage(s, root, v, p, flags).1 == 0
    ensures var s' := MapPage(s, root, v, p, flags).0;
            LinksGrew(s, s') && PtOf(s'.mem, root, v) != 0
  {
    hide Child, CountFree, Pml4Index, PdptIndex, PdIndex, PtIndex, Inv, WalkOrCreate, PtOf, LeafEntry, LinksGrew,
      Missing, Grew;
    WalkCreateGrew(s, root, v);
    WalkOrCreateLaw(s, root, v);
    var (s1, pt) := WalkOrCreate(s, root, v);
    GrewParts(s, s1, root, v);
    LeafGrew(s1, root, v, LeafEntry(p, flags));
    LinksGrewTwice(s, s1, WithLeaf(s1, root, v, LeafEntry(p, flags)));
    LeafWalk(s1, root, v, LeafEntry(p, flags), root, v);
  }

  // ----- The slots a walk goes through -----

  /** The 512 GiB, 1 GiB or 2 MiB slot (level 3, 2 or 1) that holds v: its number in the 48-bit space. */
  function Slot(v: nat, level: nat): nat {
    if level >= 3 then Pml4Index(v)
    else if level == 2 then Pml4Index(v) * 512 + PdptIndex(v)
    else (Pml4Index(v) * 512 + PdptIndex(v)) * 512 + PdIndex(v)
  }

  /** A slot number is the page number without its low digits. */
  lemma SlotVpn(v: nat)
    ensures Slot(v, 1) == Vpn(v) / 512 && Slot(v, 2) == Slot(v, 1) / 512 && Slot(v, 3) == Slot(v, 2) / 512
  {
    hide Pml4Index, PdptIndex, PdIndex, PtIndex, Vpn;
    VpnDigits(v);
  }

  /** The table of the walk of v for its slot of the level, or 0. */
  function TableOf(mem: Memory, root: nat, v: nat, level: nat): nat {
    if level >= 3 then PdptOf(mem, root, v) else if level == 2 then PdOf(mem, root, v) else PtOf(mem, root, v)
  }

  /** A table of a walk tells its slot and its level. */
  lemma TableSlot(s: State, root: nat, v: nat, level: nat)
    requires Inv(s) && IsRoot(s, root) && 1 <= level <= 3 && TableOf(s.mem, root, v, level) != 0
    ensures var t := TableOf(s.mem, root, v, level);
            t in s.tables && s.tables[t].level == level && s.tables[t].prefix == Slot(v, level)
    ensures level < 3 ==> TableOf(s.mem, root, v, level + 1) != 0
  {
    hide Inv, Pml4Index, PdptIndex, PdIndex, PdptOf, PdOf, PtOf;
    WalkTyped(s, root, v);
  }

  /** Before and after: s' is s with the walk of v from root completed. */
  ghost predicate Completed(s: State, s': State, root: nat, v: nat) {
    && Inv(s) && Inv(s') && IsRoot(s, root) && IsRoot(s', root)
    && LinksGrew(s, s') && TablesGrew(s, s', root, v) && PtOf(s'.mem, root, v) != 0
  }

  /** Of an old table on a walk after the completion, the walk before it already had it. */
  lemma OldTableOld(s: State, s': State, root: nat, v: nat, w: nat, level: nat)
    requires Completed(s, s', root, v) && 1 <= level <= 3
    requires TableOf(s'.mem, root, w, level) in s.tables
    ensures TableOf(s.mem, root, w, level) == TableOf(s'.mem, root, w, level)
  {
    hide Inv, Child, Pml4Index, PdptIndex, PdIndex, OnPath;
    WalkTyped(s', root, w);
    NullNoTable(s);
  }

  /** A new table on a walk after the completion is one of the walk of v, so w and v share its slot. */
  lemma NewTableShared(s: State, s': State, root: nat, v: nat, w: nat, level: nat)
    requires Completed(s, s', root, v) && 1 <= level <= 3
    requires TableOf(s'.mem, root, w, level) != 0 && TableOf(s'.mem, root, w, level) !in s.tables
    ensures Slot(w, level) == Slot(v, level)
  {
    hide Inv, Child, Slot, PdptOf, PdOf, PtOf;
    TableSlot(s', root, w, level);
    var t := TableOf(s'.mem, root, w, level);
    forall k | 1 <= k <= 3 && TableOf(s'.mem, root, v, k) == t ensures k == level { TableSlot(s', root, v, k); }
    assert TableOf(s'.mem, root, v, 3) == t || TableOf(s'.mem, root, v, 2) == t || TableOf(s'.mem, root, v, 1) == t;
    TableSlot(s', root, v, level);
  }

  lemma SlotIndices(v: nat, w: nat, level: nat)
    requires 1 <= level <= 3 && Slot(v, level) == Slot(w, level)
    ensures Pml4Index(v) == Pml4Index(w) && (level <= 2 ==> PdptIndex(v) == PdptIndex(w))
            && (level <= 1 ==> PdIndex(v) == PdIndex(w))
  {
    hide Pml4Index, PdptIndex, PdIndex;
  }

  /** After a walk is completed, exactly the slots of v and those that had a table have one. */
  lemma WalkGrew(s: State, s': State, root: nat, v: nat, w: nat, level: nat)
    requires Completed(s, s', root, v) && 1 <= level <= 3
    ensures TableOf(s'.mem, root, w, level) != 0 <==>
            TableOf(s.mem, root, w, level) != 0 || Slot(w, level) == Slot(v, level)
  {
    hide Completed, Inv, Child, Slot, TableOf;
    if TableOf(s'.mem, root, w, level) != 0 {
      if TableOf(s'.mem, root, w, level) in s.tables {
        OldTableOld(s, s', root, v, w, level);
      } else {
        NewTableShared(s, s', root, v, w, level);
      }
    }
    if TableOf(s.mem, root, w, level) != 0 { KeptTable(s, s', root, v, w, level); }
    if Slot(w, level) == Slot(v, level) { SameTable(s', root, v, w, level); }
    CompleteWalk(s, s', root, v, level);
  }

  lemma KeptTable(s: State, s': State, root: nat, v: nat, w: nat, level: nat)
    requires Completed(s, s', root, v) && 1 <= level <= 3 && TableOf(s.mem, root, w, level) != 0
    ensures TableOf(s'.mem, root, w, level) == TableOf(s.mem, root, w, level)
  {
    hide Inv, Child, Pml4Index, PdptIndex, PdIndex, OnPath;
    WalkTyped(s, root, w);
    NullNoTable(s);
  }

  lemma SameTable(s: State, root: nat, v: nat, w: nat, level: nat)
    requires 1 <= level <= 3 && Slot(w, level) == Slot(v, level)
    ensures TableOf(s.mem, root, w, level) == TableOf(s.mem, root, v, level)
  {
    hide Child, Slot, Pml4Index, PdptIndex, PdIndex;
    SlotIndices(v, w, level);
  }

  lemma CompleteWalk(s: State, s': State, root: nat, v: nat, level: nat)
    requires Completed(s, s', root, v) && 1 <= level <= 3
    ensures TableOf(s'.mem, root, v, level) != 0
  {
    hide Inv, Child, Pml4Index, PdptIndex, PdIndex, OnPath, LinksGrew, TablesGrew;
    WalkTyped(s', root, v);
  }

  // ----- Counting -----

  /** The slots of a level that the requests touch. */
  function Slots(reqs: seq<Request>, level: nat): set<nat> {
    if reqs == [] then {} else Slots(reqs[..|reqs| - 1], level) + {Slot(reqs[|reqs| - 1].v, level)}
  }

  /** The number of distinct 512 GiB, 1 GiB and 2 MiB slots among the requests. */
  function TablesNeeded(reqs: seq<Request>): nat {
    |Slots(reqs, 3)| + |Slots(reqs, 2)| + |Slots(reqs, 1)|
  }

  /**
   s' is s after reqs were carried out: root has exactly the tables of their slots, each taken from the free
   frames.
   */
  ghost predicate Built(s: State, s': State, root: nat, reqs: seq<Request>) {
    && Inv(s') && IsRoot(s', root)
    && (forall w: nat, level: nat :: 1 <= level <= 3 ==>
          (TableOf(s'.mem, root, w, level) != 0 <==> Slot(w, level) in Slots(reqs, level)))
    && CountFree(s'.pool.used) + TablesNeeded(reqs) == CountFree(s.pool.used)
  }

  lemma BuiltEmpty(s: State, root: nat)
    requires FreshRoot(s, root)
    ensures Built(s, s, root, [])
  {
    hide Present, Frame, CountFree, Pml4Index, PdptIndex, PdIndex, TableOk;
    ZeroAbsent();
    ChildOfNull(s.mem);
    forall w: nat ensures PdptOf(s.mem, root, w) == 0 { assert Pml4Index(w) < ENTRIES; }
  }

  lemma SlotsMore(reqs: seq<Request>, q: Request, level: nat)
    ensures Slots(reqs + [q], level) == Slots(reqs, level) + {Slot(q.v, level)}
    ensures |Slots(reqs + [q], level)| == |Slots(reqs, level)| + if Slot(q.v, level) in Slots(reqs, level) then 0 else 1
  {
    hide Slot;
    assert (reqs + [q])[..|reqs|] == reqs;
    if Slot(q.v, level) in Slots(reqs, level) { assert Slots(reqs, level) + {Slot(q.v, level)} == Slots(reqs, level); }
  }

  /** What the walk of q lacks is what q adds to the slots. */
  lemma MissingSlots(s: State, s1: State, root: nat, reqs: seq<Request>, q: Request)
    requires Built(s, s1, root, reqs)
    ensures TablesNeeded(reqs + [q]) == TablesNeeded(reqs) + Missing(s1.mem, root, q.v)
  {
    hide Inv, CountFree, Child, Slot, PdptOf, PdOf, PtOf, Slots;
    SlotsMore(reqs, q, 3);
    SlotsMore(reqs, q, 2);
    SlotsMore(reqs, q, 1);
    assert TableOf(s1.mem, root, q.v, 3) != 0 <==> Slot(q.v, 3) in Slots(reqs, 3);
    assert TableOf(s1.mem, root, q.v, 2) != 0 <==> Slot(q.v, 2) in Slots(reqs, 2);
    assert TableOf(s1.mem, root, q.v, 1) != 0 <==> Slot(q.v, 1) in Slots(reqs, 1);
    WalkOrder(s1, root, q.v);
  }

  lemma WalkOrder(s: State, root: nat, v: nat)
    requires Inv(s) && IsRoot(s, root)
    ensures PdptOf(s.mem, root, v) == 0 ==> PdOf(s.mem, root, v) == 0
    ensures PdOf(s.mem, root, v) == 0 ==> PtOf(s.mem, root, v) == 0
  {
    hide Inv, Child, Pml4Index, PdptIndex, PdIndex;
    WalkTyped(s, root, v);
  }

  /** One more request succeeds exactly when the tables of all of them fit in the frames there were. */
  lemma BuildStep(s: State, s1: State, root: nat, reqs: seq<Request>, q: Request)
    requires Built(s, s1, root, reqs) && q.v % 4096 == 0 && q.p % 4096 == 0
    ensures var (s2, r) := MapPage(s1, root, q.v, q.p, q.flags);
            && (r == 0 <==> TablesNeeded(reqs + [q]) <= CountFree(s.pool.used))
            && (r == 0 ==> Built(s, s2, root, reqs + [q]))
  {
    hide Inv, CountFree, MapPage, TableOf, Slot, Slots, TablesNeeded, Missing, SameSharing, SameTranslations, Rewrote,
      FramesGrew, TablesGrew, LinksGrew, PtOf;
    WalkLinks(s1, root, q.v);
    MapLaw(s1, root, q.v, q.p, q.flags);
    MissingSlots(s, s1, root, reqs, q);
    var (s2, r) := MapPage(s1, root, q.v, q.p, q.flags);
    if r == 0 {
      MapGrew(s1, root, q.v, q.p, q.flags);
      BuiltSlots(s, s1, s2, root, reqs, q);
    }
  }

  lemma BuiltSlots(s: State, s1: State, s2: State, root: nat, reqs: seq<Request>, q: Request)
    requires Built(s, s1, root, reqs) && Completed(s1, s2, root, q.v)
    ensures forall w: nat, level: nat :: 1 <= level <= 3 ==>
              (TableOf(s2.mem, root, w, level) != 0 <==> Slot(w, level) in Slots(reqs + [q], level))
  {
    hide Inv, CountFree, TableOf, Slot, Slots, TablesNeeded, Completed;
    forall w: nat, level: nat | 1 <= level <= 3
      ensures TableOf(s2.mem, root, w, level) != 0 <==> Slot(w, level) in Slots(reqs + [q], level)
    {
      WalkGrew(s1, s2, root, q.v, w, level);
      SlotsMore(reqs, q, level);
    }
  }

  ghost predicate PageAligned(reqs: seq<Request>) {
    forall i :: 0 <= i < |reqs| ==> reqs[i].v % 4096 == 0 && reqs[i].p % 4096 == 0
  }

  /** Without its last request, and with it. */
  lemma AllMappedStep(s: State, root: nat, reqs: seq<Request>)
    requires reqs != []
    ensures var n := |reqs| - 1;
            var q := reqs[n];
            AllMapped(s, root, reqs) <==>
              AllMapped(s, root, reqs[..n]) && MapPage(MapAll(s, root, reqs[..n]), root, q.v, q.p, q.flags).1 == 0
  {
    hide MapPage, MapAll;
    var n := |reqs| - 1;
    assert forall i :: 0 <= i < n ==> reqs[..n][..i] == reqs[..i];
  }

  lemma {:induction false} BuildAll(s: State, root: nat, reqs: seq<Request>)
    requires FreshRoot(s, root) && PageAligned(reqs)
    ensures AllMapped(s, root, reqs) <==> TablesNeeded(reqs) <= CountFree(s.pool.used)
    ensures AllMapped(s, root, reqs) ==> Built(s, MapAll(s, root, reqs), root, reqs)
    decreases |reqs|
  {
    hide FreshRoot, AllMapped, MapPage, Built, TablesNeeded, CountFree;
    if reqs == [] {
      BuiltEmpty(s, root);
      NothingToMap(s, root);
    } else {
      var n := |reqs| - 1;
      BuildAll(s, root, reqs[..n]);
      AllMappedStep(s, root, reqs);
      assert reqs == reqs[..n] + [reqs[n]];
      NeededGrows(reqs[..n], reqs[n]);
      if AllMapped(s, root, reqs[..n]) { BuildStep(s, MapAll(s, root, reqs[..n]), root, reqs[..n], reqs[n]); }
    }
  }

  lemma NeededGrows(reqs: seq<Request>, q: Request)
    ensures TablesNeeded(reqs) <= TablesNeeded(reqs + [q])
  {
    hide Slots, Slot;
    SlotsMore(reqs, q, 3);
    SlotsMore(reqs, q, 2);
    SlotsMore(reqs, q, 1);
  }

  lemma NothingToMap(s: State, root: nat)
    ensures AllMapped(s, root, []) && TablesNeeded([]) == 0 && MapAll(s, root, []) == s
  {
  }

  /**
   From an empty PML4, none of a sequence of page-aligned maps fails exactly when there is a free frame
   for each 512 GiB, 1 GiB and 2 MiB slot they touch.
   */
  lemma EnoughFrames(s: State, root: nat, reqs: seq<Request>)
    requires FreshRoot(s, root) && PageAligned(reqs)
    ensures AllMapped(s, root, reqs) <==> TablesNeeded(reqs) <= CountFree(s.pool.used)
  {
    hide FreshRoot, AllMapped, TablesNeeded, CountFree;
    BuildAll(s, root, reqs);
  }

  // ----- How many tables vmm_init needs -----

  predicate Within(x: nat, a: nat, n: nat) {
    a <= x < a + n
  }

  function Range(a: nat, n: nat): set<nat> {
    set x | 0 <= x < a + n && Within(x, a, n)
  }

  lemma {:induction false} RangeSize(a: nat, n: nat)
    ensures |Range(a, n)| == n
    decreases n
  {
    if n == 0 {
      assert Range(a, 0) == {};
    } else {
      RangeSize(a, n - 1);
      assert Range(a, n) == Range(a, n - 1) + {a + n - 1};
    }
  }

  lemma {:induction false} SubsetSize(a: set<nat>, b: set<nat>)
    requires a <= b
    ensures |a| <= |b|
    decreases |a|
  {
    if a != {} {
      var x :| x in a;
      SubsetSize(a - {x}, b - {x});
    }
  }

  lemma {:induction false} SlotsOf(reqs: seq<Request>, level: nat, x: nat) returns (q: Request)
    requires x in Slots(reqs, level)
    ensures q in reqs && Slot(q.v, level) == x
    decreases |reqs|
  {
    hide Slot;
    q := reqs[|reqs| - 1];
    if Slot(q.v, level) != x { q := SlotsOf(reqs[..|reqs| - 1], level, x); }
  }

  lemma {:induction false} SlotIn(reqs: seq<Request>, level: nat, i: nat)
    requires i < |reqs|
    ensures Slot(reqs[i].v, level) in Slots(reqs, level)
    decreases |reqs|
  {
    hide Slot;
    if i < |reqs| - 1 { SlotIn(reqs[..|reqs| - 1], level, i); }
  }

  /** Slots of a level in 2 GiB, and the first slot of the higher half. */
  function LowSlots(level: nat): nat { if level >= 3 then 1 else if level == 2 then 2 else 1024 }
  function HighSlot(level: nat): nat { if level >= 3 then 0x1FF else if level == 2 then 0x3_FFFE else 0x7FF_FC00 }

  /** A page below 2 GiB lies in the lowest slots at its own address and in the highest ones in the higher half. */
  lemma LowSlot(p: nat, level: nat)
    requires p % 4096 == 0 && p < GIB_2 && 1 <= level <= 3
    ensures Slot(p, level) in Range(0, LowSlots(level))
    ensures Slot(KERNEL_VIRT_BASE + p, level) in Range(HighSlot(level), LowSlots(level))
  {
    hide Slot, Vpn;
    SlotVpn(p);
    SlotVpn(KERNEL_VIRT_BASE + p);
    LowVpn(p);
  }

  lemma LowVpn(p: nat)
    requires p % 4096 == 0 && p < GIB_2
    ensures Vpn(p) == p / 4096 < 0x8_0000
    ensures Vpn(KERNEL_VIRT_BASE + p) == 0xF_FFF8_0000 + p / 4096
  {
  }

  /** The framebuffer's part of the plan. */
  function Framebuffer(l: Layout): seq<Request>
    requires ValidLayout(l)
  {
    IdentityPages(l.fstart, l.fpages, MMIO)
  }

  lemma PlannedSlot(l: Layout, q: Request, level: nat)
    requires LowMemory(l) && q in Plan(l) && 1 <= level <= 3
    ensures Slot(q.v, level) in Range(0, LowSlots(level)) + Range(HighSlot(level), LowSlots(level))
            + Slots(Framebuffer(l), level)
  {
    hide Slot, Slots, Plan, Range, LowSlots, HighSlot;
    PlanLaw(l, q);
    PlannedKind(l, q);
    if q in Framebuffer(l) {
      var i :| 0 <= i < |Framebuffer(l)| && Framebuffer(l)[i] == q;
      SlotIn(Framebuffer(l), level, i);
    } else {
      LowSlot(q.p, level);
    }
  }

  /** A planned request is one of the framebuffer's, or for a page below 2 GiB at one of its two addresses. */
  lemma PlannedKind(l: Layout, q: Request)
    requires LowMemory(l) && Planned(l, q)
    ensures q in Framebuffer(l) || (q.p % 4096 == 0 && q.p < GIB_2 && (q.v == q.p || q.v == KERNEL_VIRT_BASE + q.p))
  {
    IdentityPagesLaw(l.fstart, l.fpages, MMIO, q);
  }

  lemma PlanSlots(l: Layout, level: nat)
    requires LowMemory(l) && 1 <= level <= 3
    ensures |Slots(Plan(l), level)| <= 2 * LowSlots(level) + |Slots(Framebuffer(l), level)|
  {
    hide Slot, Slots, Plan, Range, LowSlots, HighSlot, Framebuffer;
    var low, high, fb := Range(0, LowSlots(level)), Range(HighSlot(level), LowSlots(level)),
        Slots(Framebuffer(l), level);
    forall x | x in Slots(Plan(l), level) ensures x in low + high + fb {
      var q := SlotsOf(Plan(l), level, x);
      PlannedSlot(l, q, level);
    }
    SubsetSize(Slots(Plan(l), level), low + high + fb);
    RangeSize(0, LowSlots(level));
    RangeSize(HighSlot(level), LowSlots(level));
  }

  /** With memory below 2 GiB, vmm_init needs at most 2054 tables besides those of the framebuffer. */
  lemma PlanNeeds(l: Layout)
    requires LowMemory(l)
    ensures TablesNeeded(Plan(l)) <= 2 * (1 + 2 + 1024) + TablesNeeded(Framebuffer(l))
  {
    hide Slots, Plan, Framebuffer;
    PlanSlots(l, 3);
    PlanSlots(l, 2);
    PlanSlots(l, 1);
  }

  /** n consecutive pages touch at most one slot more than they could fill, and one for the remainder. */
  lemma ConsecutiveSlots(start: nat, n: nat, flags: u64, level: nat, width: nat)
    requires start % 4096 == 0 && start + n * 4096 <= IDENTITY_LIMIT && 1 <= level <= 3
    requires width == if level == 3 then 0x800_0000 else if level == 2 then 0x4_0000 else 512
    ensures |Slots(IdentityPages(start, n, flags), level)| <= n / width + 2
  {
    hide Slot, Slots;
    var reqs := IdentityPages(start, n, flags);
    var r := Range(Slot(start, level), n / width + 2);
    forall x | x in Slots(reqs, level) ensures x in r {
      var q := SlotsOf(reqs, level, x);
      IdentityPagesLaw(start, n, flags, q);
      var i := (q.p - start) / 4096;
      ConsecutiveSlot(start, i, n, level, width);
    }
    SubsetSize(Slots(reqs, level), r);
    RangeSize(Slot(start, level), n / width + 2);
  }

  lemma ConsecutiveSlot(start: nat, i: nat, n: nat, level: nat, width: nat)
    requires start % 4096 == 0 && i < n && start + n * 4096 <= IDENTITY_LIMIT && 1 <= level <= 3
    requires width == if level == 3 then 0x800_0000 else if level == 2 then 0x4_0000 else 512
    ensures Slot(start + i * 4096, level) in Range(Slot(start, level), n / width + 2)
  {
    hide Slot, Vpn;
    SlotVpn(start);
    SlotVpn(start + i * 4096);
    VpnBelow(start);
    VpnBelow(start + i * 4096);
  }

  lemma VpnBelow(a: nat)
    requires a % 4096 == 0 && a < 0x1_0000_0000_0000
    ensures Vpn(a) == a / 4096
  {
  }

  lemma FramebufferNeeds(l: Layout)
    requires LowMemory(l)
    ensures TablesNeeded(Framebuffer(l)) <= l.fpages / 512 + l.fpages / 0x4_0000 + l.fpages / 0x800_0000 + 6
  {
    hide Slots, IdentityPages;
    ConsecutiveSlots(l.fstart, l.fpages, MMIO, 3, 0x800_0000);
    ConsecutiveSlots(l.fstart, l.fpages, MMIO, 2, 0x4_0000);
    ConsecutiveSlots(l.fstart, l.fpages, MMIO, 1, 512);
  }
}
