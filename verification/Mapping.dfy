/** vmm_map, vmm_unmap and vmm_get_phys as functions on states, and their effect on every translation. */
module Mapping {
  import opened Bits
  import opened Frames
  import opened Pte
  import opened PageTables

  /** The tables of the walk of v, created where missing; 0 in place of the page table when frames ran out. */
  function WalkOrCreate(s: State, root: nat, v: u64): (State, nat) {
    var (s1, pdpt) := GetOrCreateTable(s, root, Pml4Index(v));
    if pdpt == 0 then (s1, 0) else
    var (s2, pd) := GetOrCreateTable(s1, pdpt, PdptIndex(v));
    if pd == 0 then (s2, 0) else
    GetOrCreateTable(s2, pd, PdIndex(v))
  }

  function MapPage(s: State, root: nat, v: u64, p: u64, flags: u64): (State, int) {
    if root == 0 then (s, -1)
    else if v % 4096 != 0 || p % 4096 != 0 then (s, -1)
    else
      var (s1, pt) := WalkOrCreate(s, root, v);
      if pt == 0 then (s1, -1)
      else (s1.(mem := SetEntry(s1.mem, pt, PtIndex(v), LeafEntry(p, flags))), 0)
  }

  function UnmapPage(s: State, root: nat, v: u64): (State, int) {
    if root == 0 then (s, -1)
    else if v % 4096 != 0 then (s, -1)
    else
      var pml4 := root;
      if !Present(Entry(s.mem, pml4, Pml4Index(v))) then (s, -1) else
      var pdpt := Frame(Entry(s.mem, pml4, Pml4Index(v)));
      if !Present(Entry(s.mem, pdpt, PdptIndex(v))) then (s, -1) else
      var pd := Frame(Entry(s.mem, pdpt, PdptIndex(v)));
      if !Present(Entry(s.mem, pd, PdIndex(v))) then (s, -1) else
      var pt := Frame(Entry(s.mem, pd, PdIndex(v)));
      (s.(mem := SetEntry(s.mem, pt, PtIndex(v), 0)), 0)
  }

  /** The physical address vmm_get_phys answers; 0 also stands for "not mapped". */
  function GetPhys(s: State, root: nat, v: u64): nat {
    if root == 0 then 0
    else
      var pml4 := root;
      if !Present(Entry(s.mem, pml4, Pml4Index(v))) then 0 else
      var pdpt := Frame(Entry(s.mem, pml4, Pml4Index(v)));
      if !Present(Entry(s.mem, pdpt, PdptIndex(v))) then 0 else
      var pd := Frame(Entry(s.mem, pdpt, PdptIndex(v)));
      if Huge(Entry(s.mem, pd, PdIndex(v))) then
        And(Entry(s.mem, pd, PdIndex(v)), 0x000F_FFFF_FFE0_0000) + v % 0x20_0000
      else if !Present(Entry(s.mem, pd, PdIndex(v))) then 0 else
      var pt := Frame(Entry(s.mem, pd, PdIndex(v)));
      if !Present(Entry(s.mem, pt, PtIndex(v))) then 0 else
      Or(Frame(Entry(s.mem, pt, PtIndex(v))), v % 4096)
  }

  // ----- What one operation does to all translations -----

  /** A change at v made through root is a change at w in the address space r. */
  predicate Reaches(mem: Memory, r: nat, root: nat, v: nat, w: nat) {
    Vpn(v) == Vpn(w) && (r == root || Shares(mem, r, root, Pml4Index(v)))
  }

  /** Exactly the translations that v through root reaches become cell. */
  ghost predicate Rewrote(s: State, s': State, root: nat, v: nat, cell: Option<u64>) {
    forall r, w: nat :: IsRoot(s, r) ==>
      Lookup(s'.mem, r, w) == if Reaches(s.mem, r, root, v, w) then cell else Lookup(s.mem, r, w)
  }

  /** Number of tables the walk of v from root lacks. */
  function Missing(mem: Memory, root: nat, v: nat): (n: nat)
    ensures n <= 3
  {
    if PdptOf(mem, root, v) == 0 then 3
    else if PdOf(mem, root, v) == 0 then 2
    else if PtOf(mem, root, v) == 0 then 1
    else 0
  }

  /** The cell an entry stands for. */
  function Cell(e: u64): Option<u64> {
    if Present(e) then Some(e) else None
  }

  /** s with the page-table entry of v in the address space root set to e. */
  function WithLeaf(s: State, root: nat, v: nat, e: u64): State {
    s.(mem := SetEntry(s.mem, PtOf(s.mem, root, v), PtIndex(v), e))
  }

  /** Writing a page-table entry leaves every other word in place, so all links and walks too. */
  lemma LeafKeepsLinks(s: State, root: nat, v: nat, e: u64)
    requires Inv(s) && IsRoot(s, root) && PtOf(s.mem, root, v) != 0
    ensures var s' := WithLeaf(s, root, v, e);
            && Inv(s')
            && (forall u, j: nat :: u in s.tables && s.tables[u].level >= 2 ==>
                  Child(s'.mem, u, j) == Child(s.mem, u, j))
  {
    hide Present, Frame, CountFree, Pml4Index, PdptIndex, PdIndex, PtIndex, PtOf;
    WalkTyped(s, root, v);
    var p := PtOf(s.mem, root, v);
    var s' := WithLeaf(s, root, v, e);
    assert TableOk(s, p);
    forall t | t in s'.tables
      ensures TableOk(s', t)
    {
      assert TableOk(s, t);
      if s.tables[t].level >= 2 {
        forall i | 0 <= i < ENTRIES
          ensures LinkOk(s', t, i)
        {
          assert LinkOk(s, t, i);
        }
      }
    }
  }

  lemma LeafWalk(s: State, root: nat, v: nat, e: u64, r: nat, w: nat)
    requires Inv(s) && IsRoot(s, root) && PtOf(s.mem, root, v) != 0 && IsRoot(s, r)
    ensures PtOf(WithLeaf(s, root, v, e).mem, r, w) == PtOf(s.mem, r, w)
  {
    hide Child, CountFree, Pml4Index, PdptIndex, PdIndex, PtIndex, WithLeaf;
    LeafKeepsLinks(s, root, v, e);
    ChildOfNull(s.mem);
    ChildOfNull(WithLeaf(s, root, v, e).mem);
    WalkTyped(s, r, w);
  }

  /** A walk ends at the entry of v in root exactly when v through root reaches it. */
  lemma ReachesEntry(s: State, root: nat, v: nat, r: nat, w: nat)
    requires Inv(s) && IsRoot(s, root) && PtOf(s.mem, root, v) != 0 && IsRoot(s, r)
    ensures Reaches(s.mem, r, root, v, w) <==>
            PtOf(s.mem, r, w) == PtOf(s.mem, root, v) && PtIndex(w) == PtIndex(v)
  {
    hide Child, CountFree, Pml4Index, PdptIndex, PdIndex, PtIndex, Vpn;
    WalkUnique(s, root, v, r, w);
    WalkTyped(s, root, v);
    SamePage(v, w);
  }

  lemma LeafLookup(s: State, root: nat, v: nat, e: u64, r: nat, w: nat)
    requires Inv(s) && IsRoot(s, root) && PtOf(s.mem, root, v) != 0 && IsRoot(s, r)
    ensures Lookup(WithLeaf(s, root, v, e).mem, r, w) ==
            if Reaches(s.mem, r, root, v, w) then Cell(e) else Lookup(s.mem, r, w)
  {
    hide Child, Present, Reaches, CountFree, PtOf, Pml4Index, PdptIndex, PdIndex, PtIndex, Inv;
    ReachesEntry(s, root, v, r, w);
    LeafWalk(s, root, v, e, r, w);
    LeafPage(s, root, v);
  }

  lemma LeafPage(s: State, root: nat, v: nat)
    requires Inv(s) && IsRoot(s, root) && PtOf(s.mem, root, v) != 0
    ensures var p := PtOf(s.mem, root, v);
            p in s.mem && |s.mem[p]| == ENTRIES && p in s.tables && s.tables[p].level == 1
  {
    hide Child, CountFree;
    WalkTyped(s, root, v);
    assert TableOk(s, PtOf(s.mem, root, v));
  }

  /** Writing a page-table entry keeps the graph and changes just the translations that end there. */
  lemma WriteLeaf(s: State, root: nat, v: nat, e: u64)
    requires Inv(s) && IsRoot(s, root) && PtOf(s.mem, root, v) != 0
    ensures var s' := WithLeaf(s, root, v, e);
            && Inv(s')
            && Rewrote(s, s', root, v, Cell(e))
            && SameSharing(s, s') && FramesGrew(s, s')
            && (forall t, j: nat :: t in s.tables && s.tables[t].level >= 2 ==>
                  Child(s'.mem, t, j) == Child(s.mem, t, j))
  {
    hide Child, Lookup, Reaches, CountFree, PtOf, Pml4Index, PtIndex, Inv;
    LeafPage(s, root, v);
    LeafKeepsLinks(s, root, v, e);
    forall r, w: nat | IsRoot(s, r)
      ensures Lookup(WithLeaf(s, root, v, e).mem, r, w) ==
              if Reaches(s.mem, r, root, v, w) then Cell(e) else Lookup(s.mem, r, w)
    {
      LeafLookup(s, root, v, e, r, w);
    }
  }

  // ----- vmm_map -----

  lemma WalkOrCreateLaw(s: State, root: nat, v: u64)
    requires Inv(s) && IsRoot(s, root)
    ensures var (s', pt) := WalkOrCreate(s, root, v);
            && Grew(s, s', root, v)
            && (pt != 0 ==> pt == PtOf(s'.mem, root, v))
            && (pt != 0 <==> Missing(s.mem, root, v) <= CountFree(s.pool.used))
            && CountFree(s.pool.used) <= CountFree(s'.pool.used) + Missing(s.mem, root, v)
            && (pt != 0 ==> CountFree(s.pool.used) == CountFree(s'.pool.used) + Missing(s.mem, root, v))
  {
    hide Child, CountFree, Pml4Index, PdptIndex, PdIndex, TablesGrew, SameTranslations, SameSharing, FramesGrew, Inv,
      GetOrCreateTable, OnPath;
    ChildOfNull(s.mem);
    WalkTyped(s, root, v);
    GetOrCreateLaw(s, root, Pml4Index(v), root, v);
    var (s1, pdpt) := GetOrCreateTable(s, root, Pml4Index(v));
    if pdpt != 0 {
      RootKept(s, s1, root, v);
      WalkTyped(s1, root, v);
      GetOrCreateLaw(s1, pdpt, PdptIndex(v), root, v);
      var (s2, pd) := GetOrCreateTable(s1, pdpt, PdptIndex(v));
      GrewTwice(s, s1, s2, root, v);
      if pd != 0 {
        RootKept(s1, s2, root, v);
        WalkTyped(s2, root, v);
        GetOrCreateLaw(s2, pd, PdIndex(v), root, v);
        var (s3, pt) := GetOrCreateTable(s2, pd, PdIndex(v));
        GrewTwice(s, s2, s3, root, v);
        RootKept(s2, s3, root, v);
      }
    }
  }

  /** Each table the walk visits is a page of 512 words in the state that visits it. */
  lemma WalkOrCreatePages(s: State, root: nat, v: u64)
    requires Inv(s) && IsRoot(s, root)
    ensures IsPage(s, root)
    ensures var (s1, pdpt) := GetOrCreateTable(s, root, Pml4Index(v));
            pdpt != 0 ==>
              && IsPage(s1, pdpt)
              && var (s2, pd) := GetOrCreateTable(s1, pdpt, PdptIndex(v));
                 pd != 0 ==>
                   && IsPage(s2, pd)
                   && var (s3, pt) := GetOrCreateTable(s2, pd, PdIndex(v));
                      pt != 0 ==> IsPage(s3, pt)
  {
    hide Child, CountFree, Pml4Index, PdptIndex, PdIndex, Grew, Inv, GetOrCreateTable, OnPath, IsPage;
    WalkTyped(s, root, v);
    TablesArePages(s);
    GetOrCreateLaw(s, root, Pml4Index(v), root, v);
    var (s1, pdpt) := GetOrCreateTable(s, root, Pml4Index(v));
    if pdpt != 0 {
      GrewParts(s, s1, root, v);
      WalkTyped(s1, root, v);
      TablesArePages(s1);
      GetOrCreateLaw(s1, pdpt, PdptIndex(v), root, v);
      var (s2, pd) := GetOrCreateTable(s1, pdpt, PdptIndex(v));
      if pd != 0 {
        GrewParts(s1, s2, root, v);
        WalkTyped(s2, root, v);
        TablesArePages(s2);
        StillOnWalk(s1, s2, root, v);
        GetOrCreateLaw(s2, pd, PdIndex(v), root, v);
        var (s3, pt) := GetOrCreateTable(s2, pd, PdIndex(v));
        GrewParts(s2, s3, root, v);
        TablesArePages(s3);
      }
    }
  }

  /** Every table an existing walk visits is a page of 512 words. */
  lemma WalkPages(s: State, root: nat, v: nat)
    requires Inv(s) && IsRoot(s, root)
    ensures IsPage(s, root)
    ensures Present(Entry(s.mem, root, Pml4Index(v))) ==>
              var pdpt := Frame(Entry(s.mem, root, Pml4Index(v)));
              && IsPage(s, pdpt)
              && (Present(Entry(s.mem, pdpt, PdptIndex(v))) ==>
                    var pd := Frame(Entry(s.mem, pdpt, PdptIndex(v)));
                    && IsPage(s, pd)
                    && (Present(Entry(s.mem, pd, PdIndex(v))) ==> IsPage(s, Frame(Entry(s.mem, pd, PdIndex(v))))))
  {
    hide Inv, Present, Frame, CountFree, Pml4Index, PdptIndex, PdIndex, PtIndex, Entry, IsPage;
    TablesArePages(s);
    WalkLinks(s, root, v);
    WalkTyped(s, root, v);
  }

  lemma StillOnWalk(s: State, s': State, root: nat, v: nat)
    requires Inv(s) && IsRoot(s, root) && Grew(s, s', root, v)
    ensures PdptOf(s.mem, root, v) != 0 ==> PdptOf(s'.mem, root, v) == PdptOf(s.mem, root, v)
  {
    hide Child, CountFree, OnPath, SameTranslations, SameSharing, Inv;
    WalkTyped(s, root, v);
  }

  predicate IsPage(s: State, t: nat) {
    t in s.mem && |s.mem[t]| == ENTRIES
  }

  lemma TablesArePages(s: State)
    requires Inv(s)
    ensures forall t :: t in s.tables ==> IsPage(s, t)
  {
    forall t | t in s.tables ensures IsPage(s, t) { assert TableOk(s, t); }
  }

  lemma RootKept(s: State, s': State, root: nat, v: nat)
    requires Inv(s) && IsRoot(s, root) && Grew(s, s', root, v)
    ensures IsRoot(s', root) && root in s.tables && s.tables[root].level >= 2
    ensures forall r :: IsRoot(s, r) <==> IsRoot(s', r)
  {
    hide Child, CountFree, OnPath, SameTranslations, SameSharing, FramesGrew, Inv;
  }

  /** What any call of vmm_map on a well-formed state does. */
  ghost predicate MapOutcome(s: State, s': State, r: int, root: nat, v: u64, p: u64, flags: u64) {
    && Inv(s')
    && (forall x :: IsRoot(s, x) <==> IsRoot(s', x))
    && (r == 0 || r == -1)
    && (r == 0 <==> root != 0 && v % 4096 == 0 && p % 4096 == 0 &&
                    Missing(s.mem, root, v) <= CountFree(s.pool.used))
    && (r == 0 ==> Rewrote(s, s', root, v, Some(LeafEntry(p, flags))))
    && (r == 0 ==> CountFree(s.pool.used) == CountFree(s'.pool.used) + Missing(s.mem, root, v))
    && (r == -1 ==> SameTranslations(s, s'))
    && SameSharing(s, s')
    && FramesGrew(s, s')
    && (root != 0 ==> TablesGrew(s, s', root, v))
    && |s'.tables| <= |s.tables| + 3
  }

  lemma MapLaw(s: State, root: nat, v: u64, p: u64, flags: u64)
    requires Inv(s) && (root == 0 || IsRoot(s, root))
    ensures var (s', r) := MapPage(s, root, v, p, flags);
            MapOutcome(s, s', r, root, v, p, flags)
  {
    hide Child, Lookup, CountFree, Pml4Index, PdptIndex, PdIndex, PtIndex, TablesGrew, Inv, WalkOrCreate, PtOf,
      SameTranslations, Rewrote, LeafEntry, Present, SameSharing, Grew, Missing;
    var (s', r) := MapPage(s, root, v, p, flags);
    Unchanged(s, root, v);
    if root != 0 && v % 4096 == 0 && p % 4096 == 0 {
      WalkOrCreateLaw(s, root, v);
      var (s1, pt) := WalkOrCreate(s, root, v);
      GrewParts(s, s1, root, v);
      if pt != 0 {
        WriteLeaf(s1, root, v, LeafEntry(p, flags));
        LeafPresent(p, flags);
        GrewThenLeaf(s, s1, root, v, LeafEntry(p, flags));
      }
    }
  }

  lemma Unchanged(s: State, root: nat, v: nat)
    ensures SameTranslations(s, s) && SameSharing(s, s) && FramesGrew(s, s) && TablesGrew(s, s, root, v)
  {
  }

  lemma GrewParts(s: State, s': State, root: nat, v: nat)
    requires Inv(s) && IsRoot(s, root) && Grew(s, s', root, v)
    ensures Inv(s') && TablesGrew(s, s', root, v) && SameTranslations(s, s') && SameSharing(s, s') && FramesGrew(s, s')
    ensures forall r :: IsRoot(s, r) <==> IsRoot(s', r)
  {
    hide Child, CountFree, OnPath, SameTranslations, SameSharing, Inv;
  }

  lemma GrewThenLeaf(s: State, s1: State, root: nat, v: nat, e: u64)
    requires Inv(s) && IsRoot(s, root) && Grew(s, s1, root, v) && IsRoot(s1, root) && PtOf(s1.mem, root, v) != 0
    ensures var s' := WithLeaf(s1, root, v, e);
            && Rewrote(s, s', root, v, Cell(e))
            && SameSharing(s, s') && FramesGrew(s, s') && TablesGrew(s, s', root, v)
  {
    hide Child, CountFree, OnPath, Lookup, PtOf, Pml4Index, PtIndex, Inv, Vpn, LinksKept;
    GrewParts(s, s1, root, v);
    WriteLeaf(s1, root, v, e);
    var s' := WithLeaf(s1, root, v, e);
    LeafPath(s1, root, v, e);
    SharingTwice(s, s1, s', root, v);
    FramesGrewTwice(s, s1, s', root, v);
    forall r, w: nat | IsRoot(s, r)
      ensures Lookup(s'.mem, r, w) == if Reaches(s.mem, r, root, v, w) then Cell(e) else Lookup(s.mem, r, w)
    {
      assert Pml4Index(v) < ENTRIES;
      assert Reaches(s.mem, r, root, v, w) <==> Reaches(s1.mem, r, root, v, w);
    }
  }

  lemma LeafPath(s: State, root: nat, v: nat, e: u64)
    requires Inv(s) && IsRoot(s, root) && PtOf(s.mem, root, v) != 0
    ensures forall t :: OnPath(WithLeaf(s, root, v, e).mem, root, v, t) == OnPath(s.mem, root, v, t)
  {
    hide Child, CountFree, Pml4Index, PtIndex, Inv;
    WalkTyped(s, root, v);
    WriteLeaf(s, root, v, e);
  }

  // ----- vmm_unmap and vmm_get_phys -----

  /** What any call of vmm_unmap on a well-formed state does; no call takes or gives back a frame. */
  ghost predicate UnmapOutcome(s: State, s': State, r: int, root: nat, v: u64) {
    && Inv(s')
    && s'.tables == s.tables && s'.pool == s.pool
    && (r == 0 || r == -1)
    && (r == 0 <==> root != 0 && v % 4096 == 0 && PtOf(s.mem, root, v) != 0)
    && (r == 0 ==> Rewrote(s, s', root, v, None))
    && (r == -1 ==> s' == s && (root != 0 && v % 4096 == 0 ==> Lookup(s.mem, root, v) == None))
    && SameSharing(s, s')
    && FramesGrew(s, s')
  }

  lemma UnmapLaw(s: State, root: nat, v: u64)
    requires Inv(s) && (root == 0 || IsRoot(s, root))
    ensures var (s', r) := UnmapPage(s, root, v);
            UnmapOutcome(s, s', r, root, v)
  {
    hide CountFree, Pml4Index, PdptIndex, PdIndex, PtIndex, Inv, Present, Frame, Rewrote, SameSharing, FramesGrew;
    Unchanged(s, root, v);
    if root != 0 && v % 4096 == 0 {
      WalkLinks(s, root, v);
      ZeroAbsent();
      if PtOf(s.mem, root, v) != 0 { WriteLeaf(s, root, v, 0); }
    }
  }

  /** On a walk, an entry is present exactly when it links to a table. */
  lemma WalkLinks(s: State, root: nat, v: nat)
    requires Inv(s) && IsRoot(s, root)
    ensures root != 0
    ensures Present(Entry(s.mem, root, Pml4Index(v))) <==> PdptOf(s.mem, root, v) != 0
    ensures PdptOf(s.mem, root, v) != 0 ==>
              (Present(Entry(s.mem, PdptOf(s.mem, root, v), PdptIndex(v))) <==> PdOf(s.mem, root, v) != 0)
    ensures PdOf(s.mem, root, v) != 0 ==>
              (Present(Entry(s.mem, PdOf(s.mem, root, v), PdIndex(v))) <==> PtOf(s.mem, root, v) != 0)
              && !Huge(Entry(s.mem, PdOf(s.mem, root, v), PdIndex(v)))
  {
    hide CountFree, Pml4Index, PdptIndex, PdIndex, PtIndex, Present, Frame, Huge;
    assert TableOk(s, root);
    WalkTyped(s, root, v);
    ChildTyped(s, root, Pml4Index(v));
    if PdptOf(s.mem, root, v) != 0 {
      ChildTyped(s, PdptOf(s.mem, root, v), PdptIndex(v));
      if PdOf(s.mem, root, v) != 0 { ChildTyped(s, PdOf(s.mem, root, v), PdIndex(v)); }
    }
  }

  /** vmm_get_phys answers from the page-table entry alone; it never takes the huge-page branch. */
  lemma GetPhysLaw(s: State, root: nat, v: u64)
    requires Inv(s) && IsRoot(s, root)
    ensures GetPhys(s, root, v) == match Lookup(s.mem, root, v)
                                   case None => 0
                                   case Some(e) => Frame(e) + v % 4096
  {
    hide CountFree, Pml4Index, PdptIndex, PdIndex, PtIndex, Present, Frame, Huge, And, Or;
    WalkLinks(s, root, v);
    if Lookup(s.mem, root, v).Some? {
      var e := Lookup(s.mem, root, v).value;
      FrameShape(e);
      OrHigh12(Frame(e) / 4096, v % 4096);
    }
  }

  // ----- Rights -----

  /** Bit k is set in all four entries the processor reads on its way to v. */
  ghost predicate AllSet(mem: Memory, root: nat, v: nat, k: nat) {
    && Bit(Entry(mem, root, Pml4Index(v)), k)
    && Bit(Entry(mem, PdptOf(mem, root, v), PdptIndex(v)), k)
    && Bit(Entry(mem, PdOf(mem, root, v), PdIndex(v)), k)
    && Bit(Entry(mem, PtOf(mem, root, v), PtIndex(v)), k)
  }

  /** Bit k is set in one of them. */
  ghost predicate AnySet(mem: Memory, root: nat, v: nat, k: nat) {
    || Bit(Entry(mem, root, Pml4Index(v)), k)
    || Bit(Entry(mem, PdptOf(mem, root, v), PdptIndex(v)), k)
    || Bit(Entry(mem, PdOf(mem, root, v), PdIndex(v)), k)
    || Bit(Entry(mem, PtOf(mem, root, v), PtIndex(v)), k)
  }

  lemma LinkGrants(s: State, t: nat, i: nat)
    requires Inv(s) && t in s.tables && s.tables[t].level >= 2 && i < ENTRIES && Child(s.mem, t, i) != 0
    ensures var e := Entry(s.mem, t, i); Bit(e, WRITE_BIT) && Bit(e, USER_BIT) && !Bit(e, NO_EXECUTE_BIT)
  {
    hide Present, Frame, CountFree, Bit;
    assert TableOk(s, t) && LinkOk(s, t, i);
    ZeroAbsent();
    var e := Entry(s.mem, t, i);
    LinkRights(e, Frame(e));
  }

  /** Links restrict nothing: what the processor allows at a mapped address is what its page-table entry says. */
  lemma RightsAreLeafs(s: State, root: nat, v: nat)
    requires Inv(s) && IsRoot(s, root) && Lookup(s.mem, root, v).Some?
    ensures var e := Lookup(s.mem, root, v).value;
            && (AllSet(s.mem, root, v, WRITE_BIT) <==> Bit(e, WRITE_BIT))
            && (AllSet(s.mem, root, v, USER_BIT) <==> Bit(e, USER_BIT))
            && (AnySet(s.mem, root, v, NO_EXECUTE_BIT) <==> Bit(e, NO_EXECUTE_BIT))
  {
    hide Inv, Present, Frame, CountFree, Bit, Entry, Child, Pml4Index, PdptIndex, PdIndex, PtIndex;
    WalkTyped(s, root, v);
    LinkGrants(s, root, Pml4Index(v));
    LinkGrants(s, PdptOf(s.mem, root, v), PdptIndex(v));
    LinkGrants(s, PdOf(s.mem, root, v), PdIndex(v));
  }

  /**
   After a successful map the page is writable, open to user code and closed to execution exactly when the flags
   say so, and outside the address and the present bit its entry has exactly the bits of the flags.
   */
  lemma MapGrants(s: State, root: nat, v: u64, p: u64, flags: u64, w: nat)
    requires Inv(s) && IsRoot(s, root)
    requires MapPage(s, root, v, p, flags).1 == 0 && Vpn(w) == Vpn(v)
    ensures var mem := MapPage(s, root, v, p, flags).0.mem;
            && Lookup(mem, root, w).Some?
            && (forall k: nat :: 0 < k && !(12 <= k < 52) ==> (Bit(Lookup(mem, root, w).value, k) <==> Bit(flags, k)))
            && (AllSet(mem, root, w, WRITE_BIT) <==> Bit(flags, WRITE_BIT))
            && (AllSet(mem, root, w, USER_BIT) <==> Bit(flags, USER_BIT))
            && (AnySet(mem, root, w, NO_EXECUTE_BIT) <==> Bit(flags, NO_EXECUTE_BIT))
  {
    hide CountFree, Inv, MapPage, Lookup, LeafEntry, Pml4Index, Vpn, Missing, PtOf, Bit, AllSet, AnySet;
    MapLaw(s, root, v, p, flags);
    var s' := MapPage(s, root, v, p, flags).0;
    assert Lookup(s'.mem, root, w) == Some(LeafEntry(p, flags));
    RightsAreLeafs(s', root, w);
    forall k: nat ensures 0 < k && !(12 <= k < 52) ==> (Bit(LeafEntry(p, flags), k) <==> Bit(flags, k)) {
      LeafBits(p, flags, k);
    }
  }

  /**
   Mapping then asking: vmm_get_phys gives back the physical page with the offset for every address
   of the page, exactly when phys is below 2^52 and the flags add no address bit to it.
   */
  lemma MapThenGetPhys(s: State, root: nat, v: u64, p: u64, flags: u64, w: u64)
    requires Inv(s) && IsRoot(s, root)
    requires MapPage(s, root, v, p, flags).1 == 0 && Vpn(w) == Vpn(v)
    ensures GetPhys(MapPage(s, root, v, p, flags).0, root, w) == p + w % 4096 <==>
            p < TWO_52 && Or(p, Frame(flags)) == p
  {
    hide CountFree, Inv, MapPage, Lookup, GetPhys, Frame, LeafEntry, And, Or, Pml4Index, Vpn, Missing, PtOf;
    MapLaw(s, root, v, p, flags);
    var s' := MapPage(s, root, v, p, flags).0;
    assert Lookup(s'.mem, root, w) == Some(LeafEntry(p, flags));
    GetPhysLaw(s', root, w);
    LeafLaw(p, flags);
  }
}
