/**
 What address spaces translate over whole runs of the kernel: maps, new spaces, frame clients and the
 processor's walks.
 */
module Translations {
  import opened Bits
  import opened Frames
  import opened Pte
  import opened PageTables
  import opened Mapping
  import opened AddressSpaces
  import opened Ownership
  import BootMap

  /** The event is a successful call that changes the translation of w in the space x. */
  ghost predicate Hits(k: Kernel, e: Event, x: nat, w: nat) {
    e.VmCall? && Exec(k.vm, e.op).1 == 0 && Reaches(k.vm.mem, x, e.op.root, e.op.v, w)
  }

  /** From s to s' address spaces only appear, and those there were keep what they share. */
  ghost predicate SpacesKept(s: State, s': State) {
    (forall x :: IsRoot(s, x) ==> IsRoot(s', x)) && SameSharing(s, s')
  }

  lemma SpacesKeptTwice(s: State, s1: State, s2: State)
    requires SpacesKept(s, s1) && SpacesKept(s1, s2)
    ensures SpacesKept(s, s2)
  {
    hide Shares, IsRoot;
  }

  /** Filling a page that is no table changes no walk. */
  lemma PageOutside(s: State, r: nat, page: seq<u64>, x: nat, w: nat)
    requires Inv(s) && r !in s.tables && IsRoot(s, x)
    ensures Lookup(s.mem[r := page], x, w) == Lookup(s.mem, x, w)
    ensures forall j: nat :: Child(s.mem[r := page], x, j) == Child(s.mem, x, j)
  {
    hide Present, Frame, CountFree, Pml4Index, PdptIndex, PdIndex, PtIndex, TableOk;
    WalkTyped(s, x, w);
  }

  lemma FirstKeeps(s: State)
    requires Inv(s)
    ensures var s' := AllocTable(s, ROOT).0;
            SameTranslations(s, s') && SpacesKept(s, s')
  {
    hide Inv, CountFree, AllocPage, Lookup, Child, FramesGrew;
    BootMap.FreshRootLaw(s);
    var (s', r) := AllocTable(s, ROOT);
    Unchanged(s, 0, 0);
    if r != 0 {
      forall x, w: nat | IsRoot(s, x) ensures Lookup(s'.mem, x, w) == Lookup(s.mem, x, w) {
        PageOutside(s, r, Zeros(), x, w);
      }
      forall x, j: nat | IsRoot(s, x) ensures Child(s'.mem, x, j) == Child(s.mem, x, j) {
        PageOutside(s, r, Zeros(), x, 0);
      }
    }
  }

  /** One event changes, of the spaces there are, exactly the translations it hits. */
  lemma EventTranslates(k: Kernel, e: Event)
    requires Owned(k) && Allowed(k, e)
    ensures SpacesKept(k.vm, After(k, e).vm)
    ensures forall x, w: nat :: IsRoot(k.vm, x) ==>
              Lookup(After(k, e).vm.mem, x, w) == if Hits(k, e, x, w) then OpCell(e.op) else Lookup(k.vm.mem, x, w)
  {
    hide Inv, Used, Ownership.Run, AllocPages, FreePages, Copied, AllocTable, CreateSpace, Touch, Lookup, Exec,
      FramesGrew, Shares, Apart;
    match e
    case VmCall(op) => ExecLaw(k.vm, op);
    case FirstSpace => FirstKeeps(k.vm);
    case NewSpace(kernel) => NewSpaceKeeps(k.vm, kernel);
    case TakePages(n) =>
    case GivePages(a, n) =>
    case Walk(t, i) => TouchLaw(k.vm, t, i);
  }

  lemma NewSpaceKeeps(s: State, kernel: nat)
    requires Inv(s) && IsRoot(s, kernel)
    ensures var s' := CreateSpace(s, kernel).0;
            SameTranslations(s, s') && SpacesKept(s, s')
  {
    hide Inv, Lookup, Shares, FramesGrew, CountFree, Used, Free;
    CreateSpaceLaw(s, kernel);
    Unchanged(s, kernel, 0);
  }

  /** The flat model over a run: each call that hits overwrites the cell; sharing is read where the run has got to. */
  ghost function FlatAfter(k: Kernel, x: nat, w: nat, cell: Option<u64>, es: seq<Event>): Option<u64>
    decreases |es|
  {
    if es == [] then cell
    else FlatAfter(After(k, es[0]), x, w, if Hits(k, es[0], x, w) then OpCell(es[0].op) else cell, es[1..])
  }

  /** Over any run of the kernel every space that was there translates every address as the flat model says. */
  lemma {:induction false} RunTranslates(k: Kernel, es: seq<Event>, x: nat, w: nat)
    requires Owned(k) && AllowedRun(k, es) && IsRoot(k.vm, x)
    ensures SpacesKept(k.vm, AfterAll(k, es).vm)
    ensures Lookup(AfterAll(k, es).vm.mem, x, w) == FlatAfter(k, x, w, Lookup(k.vm.mem, x, w), es)
    decreases |es|
  {
    hide Owned, Allowed, After, Lookup, Hits, SameSharing;
    if es == [] {
      Unchanged(k.vm, x, 0);
    } else {
      EventLaw(k, es[0]);
      EventTranslates(k, es[0]);
      RunTranslates(After(k, es[0]), es[1..], x, w);
      SpacesKeptTwice(k.vm, After(k, es[0]).vm, AfterAll(k, es).vm);
    }
  }

  // ----- Agreement -----

  lemma SharedLookup(mem: Memory, a: nat, b: nat, w: nat)
    requires Shares(mem, a, b, Pml4Index(w))
    ensures Lookup(mem, a, w) == Lookup(mem, b, w)
  {
    hide Child, Pml4Index, PdptIndex, PdIndex, PtIndex, Present;
  }

  /** Spaces that share a slot translate its addresses alike for ever. */
  lemma ShareForEver(k: Kernel, es: seq<Event>, a: nat, b: nat, w: nat)
    requires Owned(k) && AllowedRun(k, es) && IsRoot(k.vm, a) && IsRoot(k.vm, b)
    requires Shares(k.vm.mem, a, b, Pml4Index(w))
    ensures var m := AfterAll(k, es).vm.mem; Lookup(m, a, w) == Lookup(m, b, w)
  {
    hide Owned, AllowedRun, AfterAll, FlatAfter, Lookup, Shares, Pml4Index;
    if a != b {
      RunTranslates(k, es, a, w);
      assert Pml4Index(w) < ENTRIES;
      SharedLookup(AfterAll(k, es).vm.mem, a, b, w);
    }
  }

  /** A copy of a space shares its present slots, and shares an absent one with nobody. */
  lemma CopyShares(s: State, kernel: nat, x: nat, j: nat)
    requires Inv(s) && IsRoot(s, kernel) && CreateSpace(s, kernel).1 != 0 && j < ENTRIES
    ensures var (s', r) := CreateSpace(s, kernel);
            && IsRoot(s', r) && r !in s.tables && Child(s'.mem, r, j) == Child(s.mem, kernel, j)
            && (Child(s.mem, kernel, j) != 0 ==> Shares(s'.mem, r, kernel, j))
            && (IsRoot(s, x) ==> Child(s'.mem, x, j) == Child(s.mem, x, j))
  {
    hide Inv, Child, CreateSpace, FramesGrew, SameTranslations, SameSharing, CountFree, Used, Free;
    CreateSpaceLaw(s, kernel);
    var (s', r) := CreateSpace(s, kernel);
    CopiedChildren(s, s', kernel, r);
  }

  /** A copied space agrees with its original, after any later run of the kernel, on every slot present at the copy. */
  lemma CopyAgreesForEver(k: Kernel, kernel: nat, es: seq<Event>, w: nat)
    requires Owned(k) && IsRoot(k.vm, kernel) && CreateSpace(k.vm, kernel).1 != 0
    requires AllowedRun(After(k, NewSpace(kernel)), es) && Child(k.vm.mem, kernel, Pml4Index(w)) != 0
    ensures var m := AfterAll(After(k, NewSpace(kernel)), es).vm.mem;
            Lookup(m, CreateSpace(k.vm, kernel).1, w) == Lookup(m, kernel, w)
  {
    hide AllowedRun, AfterAll, Lookup, Shares, Child, CreateSpace, Inv, Apart, Used, Pml4Index;
    var k' := After(k, NewSpace(kernel));
    EventLaw(k, NewSpace(kernel));
    NewSpaceKeeps(k.vm, kernel);
    assert Pml4Index(w) < ENTRIES;
    CopyShares(k.vm, kernel, kernel, Pml4Index(w));
    hide Owned;
    ShareForEver(k', es, CreateSpace(k.vm, kernel).1, kernel, w);
  }

  // ----- Isolation -----

  /** y is a space (or null) that has nothing in common with x in slot j. */
  ghost predicate Stranger(k: Kernel, y: nat, x: nat, j: nat) {
    y != x && (y == 0 || IsRoot(k.vm, y)) && !Shares(k.vm.mem, x, y, j)
  }

  /** The spaces of the family after an event: with it, the new empty space, and a copy made of a member. */
  function Grown(k: Kernel, e: Event, family: set<nat>): set<nat> {
    match e
    case FirstSpace => family + {AllocTable(k.vm, ROOT).1}
    case NewSpace(kernel) => if kernel in family then family + {CreateSpace(k.vm, kernel).1} else family
    case VmCall(_) => family
    case TakePages(_) => family
    case GivePages(_, _) => family
    case Walk(_, _) => family
  }

  /** Every call of the run goes through a member of the family, as it grows. */
  ghost predicate FamilyRun(k: Kernel, es: seq<Event>, family: set<nat>)
    decreases |es|
  {
    es == [] ||
    ((es[0].VmCall? ==> es[0].op.root in family) && FamilyRun(After(k, es[0]), es[1..], Grown(k, es[0], family)))
  }

  ghost predicate AllStrangers(k: Kernel, family: set<nat>, x: nat, j: nat) {
    forall y :: y in family ==> Stranger(k, y, x, j)
  }

  /** A space just created empty has nothing in common with any other. */
  lemma FirstStranger(s: State, x: nat, j: nat)
    requires Inv(s) && IsRoot(s, x) && j < ENTRIES
    ensures var (s', r) := AllocTable(s, ROOT);
            r != x && (r == 0 || IsRoot(s', r)) && !Shares(s'.mem, x, r, j)
  {
    hide Inv, CountFree, AllocPage, Present, Frame, FramesGrew;
    BootMap.FreshRootLaw(s);
    NotNull(s, x);
    ZeroAbsent();
    ChildOfNull(AllocTable(s, ROOT).0.mem);
  }

  lemma NotNull(s: State, x: nat)
    requires Inv(s) && IsRoot(s, x)
    ensures x != 0
  {
    assert TableOk(s, x);
  }

  lemma CopyStranger(k: Kernel, y: nat, x: nat, j: nat)
    requires Owned(k) && IsRoot(k.vm, x) && IsRoot(k.vm, y) && Stranger(k, y, x, j) && j < ENTRIES
    ensures Stranger(After(k, NewSpace(y)), CreateSpace(k.vm, y).1, x, j)
  {
    hide Inv, Apart, Used, Child, CreateSpace;
    NotNull(k.vm, x);
    if CreateSpace(k.vm, y).1 != 0 {
      CopyShares(k.vm, y, x, j);
    } else {
      ChildOfNull(After(k, NewSpace(y)).vm.mem);
    }
  }

  /** Strangers stay strangers, and so do the spaces that join the family. */
  lemma StrangersStay(k: Kernel, e: Event, family: set<nat>, x: nat, j: nat)
    requires Owned(k) && Allowed(k, e) && IsRoot(k.vm, x) && j < ENTRIES && AllStrangers(k, family, x, j)
    ensures AllStrangers(After(k, e), Grown(k, e, family), x, j)
  {
    hide After, Lookup, Shares, AllocTable, CreateSpace, Hits, Inv, Apart, Used, Ownership.Run, FreePages, Copied;
    EventTranslates(k, e);
    forall y | y in family ensures Stranger(After(k, e), y, x, j) {
      assert Stranger(k, y, x, j);
      NullShares(After(k, e).vm.mem, x, j);
    }
    JoinsStranger(k, e, family, x, j);
  }

  lemma NullShares(mem: Memory, x: nat, j: nat)
    ensures !Shares(mem, x, 0, j)
  {
    ChildOfNull(mem);
  }

  lemma JoinsStranger(k: Kernel, e: Event, family: set<nat>, x: nat, j: nat)
    requires Owned(k) && Allowed(k, e) && IsRoot(k.vm, x) && j < ENTRIES && AllStrangers(k, family, x, j)
    ensures forall y :: y in Grown(k, e, family) && y !in family ==> Stranger(After(k, e), y, x, j)
  {
    hide Shares, AllocTable, CreateSpace, Inv, Apart, Used, Ownership.Run, FreePages;
    match e
    case FirstSpace => FirstStranger(k.vm, x, j);
    case NewSpace(kernel) => if kernel in family { CopyStranger(k, kernel, x, j); }
    case VmCall(_) =>
    case TakePages(_) =>
    case GivePages(_, _) =>
    case Walk(_, _) =>
  }

  /**
   Isolation: if no member of a family of spaces has anything in common with x in a slot, then no run
   of the kernel whose calls go through members, or through spaces created empty or copied from
   members since, changes what x translates there.
   */
  lemma {:induction false} RunIsolated(k: Kernel, es: seq<Event>, family: set<nat>, x: nat, w: nat)
    requires Owned(k) && AllowedRun(k, es) && IsRoot(k.vm, x)
    requires AllStrangers(k, family, x, Pml4Index(w)) && FamilyRun(k, es, family)
    ensures Lookup(AfterAll(k, es).vm.mem, x, w) == Lookup(k.vm.mem, x, w)
    decreases |es|
  {
    hide Owned, Allowed, After, Lookup, Pml4Index, Grown, AllStrangers, Hits, SameSharing;
    if es != [] {
      assert Pml4Index(w) < ENTRIES;
      EventLaw(k, es[0]);
      EventTranslates(k, es[0]);
      StrangerMisses(k, es[0], family, x, w);
      StrangersStay(k, es[0], family, x, Pml4Index(w));
      RunIsolated(After(k, es[0]), es[1..], Grown(k, es[0], family), x, w);
    }
  }

  lemma StrangerMisses(k: Kernel, e: Event, family: set<nat>, x: nat, w: nat)
    requires AllStrangers(k, family, x, Pml4Index(w)) && (e.VmCall? ==> e.op.root in family)
    ensures !Hits(k, e, x, w)
  {
    hide Exec, Shares, Pml4Index, Vpn;
    if e.VmCall? {
      assert Stranger(k, e.op.root, x, Pml4Index(w));
      SamePage(e.op.v, w);
    }
  }

  /** The event is a successful call through x itself for the page of w. */
  ghost predicate OwnHit(k: Kernel, e: Event, x: nat, w: nat) {
    e.VmCall? && e.op.root == x && Exec(k.vm, e.op).1 == 0 && Vpn(e.op.v) == Vpn(w)
  }

  /** The cell that the run's calls through x alone leave for the page of w. */
  ghost function OwnAfter(k: Kernel, x: nat, w: nat, cell: Option<u64>, es: seq<Event>): Option<u64>
    decreases |es|
  {
    if es == [] then cell
    else OwnAfter(After(k, es[0]), x, w, if OwnHit(k, es[0], x, w) then OpCell(es[0].op) else cell, es[1..])
  }

  /** Every call of the run goes through x or through a member of the family, as it grows. */
  ghost predicate OwnFamilyRun(k: Kernel, es: seq<Event>, family: set<nat>, x: nat)
    decreases |es|
  {
    es == [] ||
    ((es[0].VmCall? ==> es[0].op.root == x || es[0].op.root in family)
     && OwnFamilyRun(After(k, es[0]), es[1..], Grown(k, es[0], family), x))
  }

  /**
   Private slots: in a slot that x has in common with no member of a family, any run of the kernel whose calls
   go through x, through members, and through spaces created empty or copied from members since, leaves x
   translating as its own calls alone say.
   */
  lemma {:induction false} RunOwnCalls(k: Kernel, es: seq<Event>, family: set<nat>, x: nat, w: nat)
    requires Owned(k) && AllowedRun(k, es) && IsRoot(k.vm, x)
    requires AllStrangers(k, family, x, Pml4Index(w)) && OwnFamilyRun(k, es, family, x)
    ensures Lookup(AfterAll(k, es).vm.mem, x, w) == OwnAfter(k, x, w, Lookup(k.vm.mem, x, w), es)
    decreases |es|
  {
    hide Owned, Allowed, After, Lookup, Pml4Index, Grown, AllStrangers, Hits, OwnHit, SameSharing;
    if es != [] {
      assert Pml4Index(w) < ENTRIES;
      EventLaw(k, es[0]);
      EventTranslates(k, es[0]);
      OwnHits(k, es[0], family, x, w);
      StrangersStay(k, es[0], family, x, Pml4Index(w));
      RunOwnCalls(After(k, es[0]), es[1..], Grown(k, es[0], family), x, w);
    }
  }

  lemma OwnHits(k: Kernel, e: Event, family: set<nat>, x: nat, w: nat)
    requires AllStrangers(k, family, x, Pml4Index(w)) && (e.VmCall? ==> e.op.root == x || e.op.root in family)
    ensures Hits(k, e, x, w) <==> OwnHit(k, e, x, w)
  {
    hide Exec, Shares, Pml4Index, Vpn;
    if e.VmCall? && e.op.root != x { StrangerMisses(k, e, family, x, w); }
  }

  /**
   In a slot absent at the copy, original and copy each translate as their own calls alone say, after any later
   run with calls through both of them, and through spaces created empty or copied from the other one since.
   */
  lemma CopyIsolatedForEver(k: Kernel, kernel: nat, es: seq<Event>, x: nat, y: nat, w: nat)
    requires Owned(k) && IsRoot(k.vm, kernel) && CreateSpace(k.vm, kernel).1 != 0
    requires Child(k.vm.mem, kernel, Pml4Index(w)) == 0 && x != y
    requires {x, y} == {kernel, CreateSpace(k.vm, kernel).1}
    requires AllowedRun(After(k, NewSpace(kernel)), es) && OwnFamilyRun(After(k, NewSpace(kernel)), es, {y}, x)
    ensures var k' := After(k, NewSpace(kernel));
            Lookup(AfterAll(k', es).vm.mem, x, w) == OwnAfter(k', x, w, None, es)
  {
    hide AllowedRun, AfterAll, Lookup, Child, CreateSpace, Inv, Apart, Used, Pml4Index, OwnFamilyRun, OwnAfter;
    var k', r := After(k, NewSpace(kernel)), CreateSpace(k.vm, kernel).1;
    EventLaw(k, NewSpace(kernel));
    NewSpaceKeeps(k.vm, kernel);
    assert Pml4Index(w) < ENTRIES;
    CopyShares(k.vm, kernel, kernel, Pml4Index(w));
    assert x in {x, y} && y in {x, y};
    AbsentSlot(k'.vm.mem, x, w);
    hide Owned;
    RunOwnCalls(k', es, {y}, x, w);
  }

  lemma AbsentSlot(mem: Memory, x: nat, w: nat)
    requires Child(mem, x, Pml4Index(w)) == 0
    ensures Lookup(mem, x, w) == None
  {
    hide Present, Frame, Pml4Index, PdptIndex, PdIndex, PtIndex;
    ChildOfNull(mem);
  }
}
