/**
 The page-table graph as a value: what vmm_map, vmm_unmap and vmm_get_phys do to physical memory,
 and the typing of tables that keeps walks from aliasing.
 */
module PageTables {
  import opened Bits
  import opened Frames
  import opened Pte

  const ENTRIES: nat := 512

  datatype Option<+T> = None | Some(value: T)

  /** Physical memory by page address: each page is an array of 512 words. */
  type Memory = map<nat, seq<u64>>

  /**
   Where a table sits. A PML4 has level 4 and a page table level 1. prefix is the number formed by
   the indices that lead to the table, and top is the PDPT it hangs under (itself for a PDPT).
   */
  datatype Label = Label(level: nat, prefix: nat, top: nat)

  datatype State = State(mem: Memory, pool: Pool, tables: map<nat, Label>)

  const ROOT := Label(4, 0, 0)

  predicate IsRoot(s: State, r: nat) {
    r in s.tables && s.tables[r].level == 4
  }

  /** The word at index i of the page at t; reads outside memory give zero. */
  function Entry(mem: Memory, t: nat, i: nat): u64 {
    if t in mem && i < |mem[t]| then mem[t][i] else 0
  }

  function SetEntry(mem: Memory, t: nat, i: nat, e: u64): Memory {
    if t in mem && i < |mem[t]| then
      var page: seq<u64> := mem[t][i := e];
      mem[t := page]
    else mem
  }

  /** The table an entry links to, or 0. */
  function Child(mem: Memory, t: nat, i: nat): nat {
    if t != 0 && Present(Entry(mem, t, i)) then Frame(Entry(mem, t, i)) else 0
  }

  function PdptOf(mem: Memory, root: nat, v: nat): nat { Child(mem, root, Pml4Index(v)) }
  function PdOf(mem: Memory, root: nat, v: nat): nat { Child(mem, PdptOf(mem, root, v), PdptIndex(v)) }
  function PtOf(mem: Memory, root: nat, v: nat): nat { Child(mem, PdOf(mem, root, v), PdIndex(v)) }

  /** The page-table entry that translates v in the address space of root, if v is mapped. */
  function Lookup(mem: Memory, root: nat, v: nat): Option<u64> {
    var pt := PtOf(mem, root, v);
    if pt != 0 && Present(Entry(mem, pt, PtIndex(v))) then Some(Entry(mem, pt, PtIndex(v))) else None
  }

  /** Two address spaces use the same subtree for the 512 GiB slot j. */
  predicate Shares(mem: Memory, r1: nat, r2: nat, j: nat) {
    Child(mem, r1, j) != 0 && Child(mem, r1, j) == Child(mem, r2, j)
  }

  // ----- The operations -----

  function Zeros(): (z: seq<u64>)
    ensures |z| == ENTRIES && forall i :: 0 <= i < ENTRIES ==> z[i] == 0
  {
    seq(ENTRIES, i => 0)
  }

  function AllocTable(s: State, l: Label): (State, nat) {
    var (pool, phys) := AllocPage(s.pool);
    if phys == 0 then (s, 0)
    else (State(s.mem[phys := Zeros()], pool, s.tables[phys := l]), phys)
  }

  /** The label of the table that entry i of a table labelled l links to. */
  function ChildLabel(l: Label, i: nat, child: nat): Label {
    Label(if l.level > 0 then l.level - 1 else 0, l.prefix * 512 + i, if l.level == 4 then child else l.top)
  }

  function LabelOf(s: State, t: nat): Label {
    if t in s.tables then s.tables[t] else ROOT
  }

  function GetOrCreateTable(s: State, t: nat, i: nat): (State, nat) {
    if Present(Entry(s.mem, t, i)) then (s, Frame(Entry(s.mem, t, i)))
    else
      var phys := AllocPage(s.pool).1;
      var (a, c) := AllocTable(s, ChildLabel(LabelOf(s, t), i, phys));
      if c == 0 then (s, 0) else (a.(mem := SetEntry(a.mem, t, i, LinkEntry64(c))), c)
  }

  /** A link entry as a 64-bit word. */
  function LinkEntry64(c: nat): u64 {
    if PageAddress(c) then LinkLaw(c); LinkEntry(c) else 0
  }

  // ----- Well-formed states -----

  /**
   Entry i of table t is zero or links to the table its position calls for; the processor may have set
   its accessed bit.
   */
  ghost predicate LinkOk(s: State, t: nat, i: nat)
    requires t in s.tables
  {
    var e := Entry(s.mem, t, i);
    var c := Frame(e);
    e == 0 ||
    (PageAddress(c) && IsLink(e, c) && c in s.tables && s.tables[c] == ChildLabel(s.tables[t], i, c))
  }

  ghost predicate TableOk(s: State, t: nat)
    requires t in s.tables
  {
    var l := s.tables[t];
    && Used(s.pool, t) && t in s.mem && |s.mem[t]| == ENTRIES
    && 1 <= l.level <= 4
    && (l.level == 4 ==> l == ROOT)
    && (l.level == 3 ==> l.top == t)
    && (l.level >= 2 ==> forall i :: 0 <= i < ENTRIES ==> LinkOk(s, t, i))
  }

  ghost predicate Inv(s: State) {
    && ValidPool(s.pool)
    && (forall a :: Covered(s.pool, a) ==> a in s.mem && |s.mem[a]| == ENTRIES)
    && (forall t :: t in s.tables ==> TableOk(s, t))
  }

  // ----- Walks -----

  lemma ChildTyped(s: State, t: nat, i: nat)
    requires Inv(s) && t in s.tables && s.tables[t].level >= 2 && i < ENTRIES
    ensures Child(s.mem, t, i) == 0 <==> Entry(s.mem, t, i) == 0
    ensures Present(Entry(s.mem, t, i)) <==> Entry(s.mem, t, i) != 0
    ensures !Huge(Entry(s.mem, t, i))
    ensures Child(s.mem, t, i) != 0 ==>
              var c := Child(s.mem, t, i);
              && c in s.tables && s.tables[c] == ChildLabel(s.tables[t], i, c)
              && Frame(Entry(s.mem, t, i)) == c
  {
    hide Present, Frame, Huge;
    assert TableOk(s, t) && LinkOk(s, t, i);
    ZeroAbsent();
    var e := Entry(s.mem, t, i);
    if e != 0 {
      IsLinkLaw(e, Frame(e));
      assert TableOk(s, Frame(e));
    }
  }

  /** A walk meets tables labelled with the indices consumed so far and the PDPT it went through. */
  lemma WalkTyped(s: State, r: nat, v: nat)
    requires Inv(s) && IsRoot(s, r)
    ensures var a := PdptOf(s.mem, r, v);
            var b := PdOf(s.mem, r, v);
            var p := PtOf(s.mem, r, v);
            && (a != 0 ==> a in s.tables && s.tables[a] == Label(3, Pml4Index(v), a))
            && (b != 0 ==> a != 0 && b in s.tables &&
                           s.tables[b] == Label(2, Pml4Index(v) * 512 + PdptIndex(v), a))
            && (p != 0 ==> b != 0 && p in s.tables &&
                           s.tables[p] == Label(1, (Pml4Index(v) * 512 + PdptIndex(v)) * 512 + PdIndex(v), a))
  {
    hide Present, Frame, Entry, Pml4Index, PdptIndex, PdIndex;
    assert TableOk(s, r);
    ChildTyped(s, r, Pml4Index(v));
    var a := PdptOf(s.mem, r, v);
    if a != 0 {
      ChildTyped(s, a, PdptIndex(v));
      var b := PdOf(s.mem, r, v);
      if b != 0 { ChildTyped(s, b, PdIndex(v)); }
    }
  }

  /** Two walks end in the same page table only if they use the same slot subtree and indices. */
  lemma WalkUnique(s: State, r1: nat, v: nat, r2: nat, w: nat)
    requires Inv(s) && IsRoot(s, r1) && IsRoot(s, r2)
    requires PtOf(s.mem, r1, v) != 0
    ensures PtOf(s.mem, r1, v) == PtOf(s.mem, r2, w) <==>
            && Pml4Index(v) == Pml4Index(w) && PdptIndex(v) == PdptIndex(w) && PdIndex(v) == PdIndex(w)
            && PdptOf(s.mem, r1, v) == PdptOf(s.mem, r2, w)
  {
    hide Present, Frame, Entry, Pml4Index, PdptIndex, PdIndex;
    WalkTyped(s, r1, v);
    WalkTyped(s, r2, w);
  }

  // ----- Creating a table -----

  /** The state after get_or_create_table has had to create table c for entry i of t. */
  ghost predicate Created(s: State, s': State, t: nat, i: nat, c: nat)
    requires t in s.tables
  {
    && c != 0 && c !in s.tables && PageAddress(c) && Free(s.pool, c)
    && s'.tables == s.tables[c := ChildLabel(s.tables[t], i, c)]
    && s'.mem.Keys == s.mem.Keys
    && (forall u, j: nat :: u in s.mem && u != c && j < ENTRIES && !(u == t && j == i) ==>
          Entry(s'.mem, u, j) == Entry(s.mem, u, j))
    && (forall j: nat :: Entry(s'.mem, c, j) == 0)
    && Entry(s'.mem, t, i) == LinkEntry(c)
    && CountFree(s'.pool.used) == CountFree(s.pool.used) - 1
    && ValidPool(s'.pool) && s'.pool.lo == s.pool.lo && |s'.pool.used| == |s.pool.used|
    && Used(s'.pool, c)
    && (forall b :: b != c ==> (Used(s'.pool, b) <==> Used(s.pool, b)))
  }

  lemma CreatedKeepsInv(s: State, s': State, t: nat, i: nat, c: nat)
    requires Inv(s) && t in s.tables && s.tables[t].level >= 2 && i < ENTRIES
    requires Created(s, s', t, i, c)
    requires forall a :: a in s'.mem ==> (a in s.mem && |s'.mem[a]| == |s.mem[a]|) || |s'.mem[a]| == ENTRIES
    ensures Inv(s')
  {
    hide Present, Frame, CountFree, Entry;
    assert TableOk(s, t);
    LinkLaw(c);
    forall u | u in s'.tables
      ensures TableOk(s', u)
    {
      if u == c {
      } else {
        assert TableOk(s, u);
        if s.tables[u].level >= 2 {
          forall j | 0 <= j < ENTRIES
            ensures LinkOk(s', u, j)
          {
            assert LinkOk(s, u, j);
          }
        }
      }
    }
  }

  lemma CreateLaw(s: State, t: nat, i: nat)
    requires Inv(s) && t in s.tables && s.tables[t].level >= 2 && i < ENTRIES
    requires Child(s.mem, t, i) == 0
    ensures var (s', c) := GetOrCreateTable(s, t, i);
            && Inv(s')
            && (c == 0 <==> CountFree(s.pool.used) == 0)
            && (c == 0 ==> s' == s)
            && (c != 0 ==> Created(s, s', t, i, c))
  {
    hide Present, Frame, CountFree;
    AllocPageLaw(s.pool);
    ChildTyped(s, t, i);
    var (s', c) := GetOrCreateTable(s, t, i);
    if c != 0 {
      assert TableOk(s, t);
      LinkLaw(c);
      assert c !in s.tables by { assert c in s.tables ==> TableOk(s, c); }
      assert c in s.mem && t != c;
      assert Created(s, s', t, i, c);
      CreatedKeepsInv(s, s', t, i, c);
    }
  }

  /** Creating a table adds one link and no other; the new table links nowhere. */
  lemma CreatedChildren(s: State, s': State, t: nat, i: nat, c: nat)
    requires Inv(s) && Inv(s') && t in s.tables && s.tables[t].level >= 2 && i < ENTRIES
    requires Child(s.mem, t, i) == 0 && Created(s, s', t, i, c)
    ensures forall u, j: nat :: u in s.tables && j < ENTRIES && !(u == t && j == i) ==>
              Child(s'.mem, u, j) == Child(s.mem, u, j)
    ensures forall j: nat :: Child(s'.mem, c, j) == 0
    ensures Child(s'.mem, t, i) == c
  {
    hide Present, Frame, CountFree, Entry;
    assert TableOk(s, t);
    ZeroAbsent();
    LinkLaw(c);
    forall u, j: nat | u in s.tables && j < ENTRIES && !(u == t && j == i)
      ensures Child(s'.mem, u, j) == Child(s.mem, u, j)
    {
      assert TableOk(s, u);
    }
  }

  /** Creating a table changes no translation in any address space. */
  lemma CreatedKeepsLookup(s: State, s': State, t: nat, i: nat, c: nat, r: nat, w: nat)
    requires Inv(s) && Inv(s') && t in s.tables && s.tables[t].level >= 2 && i < ENTRIES
    requires Child(s.mem, t, i) == 0 && Created(s, s', t, i, c)
    requires IsRoot(s, r)
    ensures Lookup(s'.mem, r, w) == Lookup(s.mem, r, w)
  {
    hide Present, Frame, CountFree, Entry, Child, Pml4Index, PdptIndex, PdIndex, PtIndex;
    CreatedChildren(s, s', t, i, c);
    WalkTyped(s, r, w);
    ZeroAbsent();
    ChildOfNull(s.mem);
    ChildOfNull(s'.mem);
    var p := PtOf(s.mem, r, w);
    if p != 0 {
      assert TableOk(s, p);
    } else {
      assert PtOf(s'.mem, r, w) == 0 || PtOf(s'.mem, r, w) == c;
    }
  }

  lemma ChildOfNull(mem: Memory)
    ensures forall j: nat :: Child(mem, 0, j) == 0
  {
  }

  // ----- Growth along one walk -----

  predicate OnPath(mem: Memory, root: nat, v: nat, t: nat) {
    t == PdptOf(mem, root, v) || t == PdOf(mem, root, v) || t == PtOf(mem, root, v)
  }

  /** Tables are only added, and only on the walk of v from root, out of free frames. */
  ghost predicate TablesGrew(s: State, s': State, root: nat, v: nat) {
    && (forall t :: t in s.tables ==> t in s'.tables && s'.tables[t] == s.tables[t])
    && (forall t :: t in s'.tables && t !in s.tables ==>
          s'.tables[t].level < 4 && Free(s.pool, t) && OnPath(s'.mem, root, v, t))
  }

  ghost predicate LinksKept(s: State, s': State) {
    forall t, j: nat :: t in s.tables && j < ENTRIES && Child(s.mem, t, j) != 0 ==>
      Child(s'.mem, t, j) == Child(s.mem, t, j)
  }

  ghost predicate SameTranslations(s: State, s': State) {
    forall r, w: nat :: IsRoot(s, r) ==> Lookup(s'.mem, r, w) == Lookup(s.mem, r, w)
  }

  ghost predicate SameSharing(s: State, s': State) {
    forall r1, r2, j: nat :: IsRoot(s, r1) && IsRoot(s, r2) && r1 != r2 && j < ENTRIES ==>
      (Shares(s'.mem, r1, r2, j) <==> Shares(s.mem, r1, r2, j))
  }

  /** The new tables are exactly the frames that went from free to used, and pages outside tables are untouched. */
  ghost predicate FramesGrew(s: State, s': State) {
    && s'.mem.Keys == s.mem.Keys
    && (forall a :: a in s.mem && a !in s'.tables ==> s'.mem[a] == s.mem[a])
    && s'.pool.lo == s.pool.lo && |s'.pool.used| == |s.pool.used|
    && (forall a :: Used(s'.pool, a) <==> Used(s.pool, a) || (a in s'.tables && a !in s.tables))
    && CountFree(s.pool.used) + |s.tables| == CountFree(s'.pool.used) + |s'.tables|
  }

  /** s' is s with some missing tables of the walk of v from root created, and nothing else changed. */
  ghost predicate Grew(s: State, s': State, root: nat, v: nat) {
    && Inv(s')
    && TablesGrew(s, s', root, v)
    && LinksKept(s, s')
    && SameTranslations(s, s')
    && SameSharing(s, s')
    && FramesGrew(s, s')
  }

  lemma GrewNot(s: State, root: nat, v: nat)
    requires Inv(s)
    ensures Grew(s, s, root, v)
  {
  }

  /** Tables on a walk stay on it as the walk grows. */
  lemma PathKept(s: State, s': State, root: nat, v: nat)
    requires Inv(s) && IsRoot(s, root) && LinksKept(s, s')
    ensures forall t :: t != 0 && OnPath(s.mem, root, v, t) ==> OnPath(s'.mem, root, v, t)
  {
    hide Lookup, Shares, CountFree, Child, Pml4Index, PdptIndex, PdIndex;
    WalkTyped(s, root, v);
    ChildOfNull(s.mem);
  }

  lemma TablesGrewTwice(s: State, s1: State, s2: State, root: nat, v: nat)
    requires Inv(s) && Inv(s1) && IsRoot(s, root)
    requires TablesGrew(s, s1, root, v) && TablesGrew(s1, s2, root, v) && FramesGrew(s, s1) && LinksKept(s1, s2)
    ensures TablesGrew(s, s2, root, v)
  {
    hide Child, OnPath, CountFree, LinksKept;
    PathKept(s1, s2, root, v);
    forall t | t in s2.tables && t !in s.tables
      ensures s2.tables[t].level < 4 && Free(s.pool, t) && OnPath(s2.mem, root, v, t)
    {
      if t !in s1.tables {
        assert !Used(s.pool, t);
      }
    }
  }

  lemma LinksKeptTwice(s: State, s1: State, s2: State, root: nat, v: nat)
    requires TablesGrew(s, s1, root, v) && LinksKept(s, s1) && LinksKept(s1, s2)
    ensures LinksKept(s, s2)
  {
    hide Child, OnPath;
  }

  lemma TranslationsTwice(s: State, s1: State, s2: State, root: nat, v: nat)
    requires TablesGrew(s, s1, root, v) && SameTranslations(s, s1) && SameTranslations(s1, s2)
    ensures SameTranslations(s, s2)
  {
    hide Lookup, OnPath;
    assert forall r :: IsRoot(s, r) ==> IsRoot(s1, r);
  }

  lemma SharingTwice(s: State, s1: State, s2: State, root: nat, v: nat)
    requires TablesGrew(s, s1, root, v) && SameSharing(s, s1) && SameSharing(s1, s2)
    ensures SameSharing(s, s2)
  {
    hide Shares, OnPath;
    assert forall r :: IsRoot(s, r) ==> IsRoot(s1, r);
  }

  lemma FramesGrewTwice(s: State, s1: State, s2: State, root: nat, v: nat)
    requires TablesGrew(s, s1, root, v) && TablesGrew(s1, s2, root, v) && FramesGrew(s, s1) && FramesGrew(s1, s2)
    ensures FramesGrew(s, s2)
  {
    hide Used, CountFree, OnPath;
  }

  lemma GrewTwice(s: State, s1: State, s2: State, root: nat, v: nat)
    requires Inv(s) && IsRoot(s, root) && Grew(s, s1, root, v) && Grew(s1, s2, root, v)
    ensures Grew(s, s2, root, v)
  {
    hide Inv, TablesGrew, LinksKept, SameTranslations, SameSharing, FramesGrew;
    TablesGrewTwice(s, s1, s2, root, v);
    LinksKeptTwice(s, s1, s2, root, v);
    TranslationsTwice(s, s1, s2, root, v);
    SharingTwice(s, s1, s2, root, v);
    FramesGrewTwice(s, s1, s2, root, v);
  }

  /** Entry i of t is the one the walk of v from root reads at t. */
  predicate AtStep(mem: Memory, root: nat, v: nat, t: nat, i: nat) {
    || (t == root && i == Pml4Index(v))
    || (t == PdptOf(mem, root, v) && i == PdptIndex(v))
    || (t == PdOf(mem, root, v) && i == PdIndex(v))
  }

  lemma CreatedKeepsSharing(s: State, s': State, t: nat, i: nat, c: nat)
    requires Inv(s) && Inv(s') && t in s.tables && s.tables[t].level >= 2 && i < ENTRIES
    requires Child(s.mem, t, i) == 0 && Created(s, s', t, i, c)
    ensures SameSharing(s, s')
  {
    hide Present, Frame, CountFree, Entry, Child;
    CreatedChildren(s, s', t, i, c);
    forall r1, r2, j: nat | IsRoot(s, r1) && IsRoot(s, r2) && r1 != r2 && j < ENTRIES
      ensures Shares(s'.mem, r1, r2, j) <==> Shares(s.mem, r1, r2, j)
    {
      ChildTyped(s, r1, j);
      ChildTyped(s, r2, j);
    }
  }

  lemma CreatedOnPath(s: State, s': State, t: nat, i: nat, c: nat, root: nat, v: nat)
    requires Inv(s) && Inv(s') && t in s.tables && s.tables[t].level >= 2 && i < ENTRIES
    requires Child(s.mem, t, i) == 0 && Created(s, s', t, i, c)
    requires IsRoot(s, root) && AtStep(s.mem, root, v, t, i)
    ensures OnPath(s'.mem, root, v, c)
  {
    hide Present, Frame, CountFree, Entry, Child, Pml4Index, PdptIndex, PdIndex;
    assert TableOk(s, t);
    CreatedChildren(s, s', t, i, c);
    WalkTyped(s, root, v);
    ChildOfNull(s.mem);
  }

  lemma CreatedGrew(s: State, s': State, t: nat, i: nat, c: nat, root: nat, v: nat)
    requires Inv(s) && Inv(s') && t in s.tables && s.tables[t].level >= 2 && i < ENTRIES
    requires Child(s.mem, t, i) == 0 && Created(s, s', t, i, c)
    requires IsRoot(s, root) && AtStep(s.mem, root, v, t, i)
    requires forall a :: a in s.mem && a != c && a != t ==> s'.mem[a] == s.mem[a]
    ensures Grew(s, s', root, v)
  {
    hide Inv, Created, CountFree, Child, Lookup, AtStep, OnPath, Shares, SameSharing, TablesGrew, LinksKept, FramesGrew;
    CreatedTables(s, s', t, i, c, root, v);
    CreatedKeepsSharing(s, s', t, i, c);
    forall r, w: nat | IsRoot(s, r)
      ensures Lookup(s'.mem, r, w) == Lookup(s.mem, r, w)
    {
      CreatedKeepsLookup(s, s', t, i, c, r, w);
    }
    CreatedFrames(s, s', t, i, c);
  }

  lemma CreatedTables(s: State, s': State, t: nat, i: nat, c: nat, root: nat, v: nat)
    requires Inv(s) && Inv(s') && t in s.tables && s.tables[t].level >= 2 && i < ENTRIES
    requires Child(s.mem, t, i) == 0 && Created(s, s', t, i, c)
    requires IsRoot(s, root) && AtStep(s.mem, root, v, t, i)
    ensures TablesGrew(s, s', root, v) && LinksKept(s, s')
  {
    hide Present, Frame, CountFree, Entry, Child, AtStep, OnPath, LinkOk;
    CreatedChildren(s, s', t, i, c);
    CreatedOnPath(s, s', t, i, c, root, v);
    assert TableOk(s, t);
  }

  lemma CreatedFrames(s: State, s': State, t: nat, i: nat, c: nat)
    requires t in s.tables && Created(s, s', t, i, c)
    requires forall a :: a in s.mem && a != c && a != t ==> s'.mem[a] == s.mem[a]
    ensures FramesGrew(s, s')
  {
    hide Present, Frame, CountFree, Entry;
    assert s'.tables.Keys == s.tables.Keys + {c};
  }

  /** get_or_create_table on the entry a walk reads: it grows the walk by at most one table. */
  lemma GetOrCreateLaw(s: State, t: nat, i: nat, root: nat, v: nat)
    requires Inv(s) && t in s.tables && s.tables[t].level >= 2 && i < ENTRIES
    requires IsRoot(s, root) && AtStep(s.mem, root, v, t, i)
    ensures var (s', c) := GetOrCreateTable(s, t, i);
            && Grew(s, s', root, v)
            && (c == 0 <==> Child(s.mem, t, i) == 0 && CountFree(s.pool.used) == 0)
            && (c == 0 || Child(s.mem, t, i) != 0 ==> s' == s)
            && (c != 0 ==> c == Child(s'.mem, t, i) && c in s'.tables && s'.tables[c] == ChildLabel(s.tables[t], i, c))
            && (c != 0 && Child(s.mem, t, i) == 0 ==> forall j: nat :: Child(s'.mem, c, j) == 0)
            && CountFree(s.pool.used) ==
               CountFree(s'.pool.used) + (if c != 0 && Child(s.mem, t, i) == 0 then 1 else 0)
  {
    hide Present, Frame, CountFree, AtStep, Grew, TableOk;
    ChildTyped(s, t, i);
    if Child(s.mem, t, i) == 0 {
      CreateLaw(s, t, i);
      var (s', c) := GetOrCreateTable(s, t, i);
      if c != 0 {
        GetOrCreateFrame(s, t, i);
        CreatedGrew(s, s', t, i, c, root, v);
        CreatedChildren(s, s', t, i, c);
      } else {
        GrewNot(s, root, v);
      }
    } else {
      GrewNot(s, root, v);
    }
  }

  lemma GetOrCreateFrame(s: State, t: nat, i: nat)
    requires t in s.tables
    ensures var (s', c) := GetOrCreateTable(s, t, i);
            forall a :: a in s.mem && a != c && a != t ==> a in s'.mem && s'.mem[a] == s.mem[a]
  {
    hide AllocPage, Present, Frame;
  }

  // ----- The processor's own writes -----

  /** Entry i of table t after the processor has walked through it. */
  function TouchedEntry(mem: Memory, t: nat, i: nat): u64 {
    var e := Entry(mem, t, i);
    OnesValues();
    OrBound(e, ACCESSED, 64);
    Touched(e)
  }

  /** A walk by the processor sets the accessed bit of a present link entry. */
  function Touch(s: State, t: nat, i: nat): State {
    if Present(Entry(s.mem, t, i)) then s.(mem := SetEntry(s.mem, t, i, TouchedEntry(s.mem, t, i))) else s
  }

  lemma TouchKeepsInv(s: State, t: nat, i: nat)
    requires Inv(s) && t in s.tables && s.tables[t].level >= 2 && i < ENTRIES
    ensures Inv(Touch(s, t, i))
    ensures forall u, j: nat :: u in s.tables && s.tables[u].level >= 2 && j < ENTRIES ==>
              Child(Touch(s, t, i).mem, u, j) == Child(s.mem, u, j)
  {
    hide Present, Frame, Huge, CountFree, IsLink, Touched;
    var s' := Touch(s, t, i);
    var e := Entry(s.mem, t, i);
    assert TableOk(s, t) && LinkOk(s, t, i);
    ZeroAbsent();
    if Present(e) {
      IsLinkLaw(e, Frame(e));
      IsLinkLaw(TouchedEntry(s.mem, t, i), Frame(e));
    }
    forall u | u in s'.tables
      ensures TableOk(s', u)
      ensures s.tables[u].level >= 2 ==> forall j: nat :: j < ENTRIES ==> Child(s'.mem, u, j) == Child(s.mem, u, j)
    {
      assert TableOk(s, u);
      if s.tables[u].level >= 2 {
        forall j: nat | j < ENTRIES
          ensures LinkOk(s', u, j) && Child(s'.mem, u, j) == Child(s.mem, u, j)
        {
          assert LinkOk(s, u, j);
        }
      }
    }
  }

  lemma TouchKeepsLookup(s: State, t: nat, i: nat, r: nat, w: nat)
    requires Inv(s) && t in s.tables && s.tables[t].level >= 2 && i < ENTRIES && IsRoot(s, r)
    ensures Lookup(Touch(s, t, i).mem, r, w) == Lookup(s.mem, r, w)
  {
    hide Present, CountFree, Child, Pml4Index, PdptIndex, PdIndex, PtIndex;
    TouchKeepsInv(s, t, i);
    WalkTyped(s, r, w);
    ChildOfNull(s.mem);
    ChildOfNull(Touch(s, t, i).mem);
    if PtOf(s.mem, r, w) != 0 { assert PtOf(s.mem, r, w) != t; }
  }

  /** The accessed bits the processor sets in link entries change no translation, no sharing and no frame. */
  lemma TouchLaw(s: State, t: nat, i: nat)
    requires Inv(s) && t in s.tables && s.tables[t].level >= 2 && i < ENTRIES
    ensures var s' := Touch(s, t, i);
            && Inv(s') && s'.tables == s.tables && s'.pool == s.pool
            && SameTranslations(s, s') && SameSharing(s, s') && FramesGrew(s, s')
  {
    hide Inv, CountFree, Lookup, Child, Touch;
    TouchKeepsInv(s, t, i);
    forall r, w: nat | IsRoot(s, r)
      ensures Lookup(Touch(s, t, i).mem, r, w) == Lookup(s.mem, r, w)
    {
      TouchKeepsLookup(s, t, i, r, w);
    }
    TouchFrames(s, t, i);
  }

  lemma TouchFrames(s: State, t: nat, i: nat)
    requires t in s.tables
    ensures var s' := Touch(s, t, i);
            s'.tables == s.tables && s'.pool == s.pool && FramesGrew(s, s')
  {
    hide CountFree, Present, Touched;
  }
}
