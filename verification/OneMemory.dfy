/**
 Page tables and heap in one memory. The heap module sees bytes and the page-table module sees words; here both
 are views of the same bytes, and calls of the two are interleaved in any order.
 */
module OneMemory {
  import opened Bits
  import opened Words
  import opened Frames
  import opened Pte
  import opened PageTables
  import opened Mapping
  import opened AddressSpaces
  import opened Ownership
  import opened Translations
  import opened HeapModel
  import opened HeapBytes
  import HeapAllocator

  // ----- Words of bytes, and bytes of words -----

  /** The 512 words of the page at a. */
  function PageWords(m: seq<byte>, a: nat): (page: seq<u64>)
    ensures |page| == ENTRIES
    ensures forall i :: 0 <= i < ENTRIES && a + 4096 <= |m| ==> page[i] == U64(m, a + 8 * i)
  {
    seq(ENTRIES, i requires 0 <= i < ENTRIES => if a + 4096 <= |m| then U64(m, a + 8 * i) else 0)
  }

  /** Byte i of a word, from the lowest. */
  function ByteOf(w: u64, i: nat): byte
    requires i < 8
  {
    var half := if i < 4 then w % TWO_32 else w / TWO_32;
    Bytes4(half)[i % 4]
  }

  /** The page of the byte at x. */
  function PageAddr(x: nat): nat {
    x - x % 4096
  }

  /** Memory with the pages of mem written back into it. */
  function WriteBack(mem: Memory, m: seq<byte>): (m': seq<byte>)
    ensures |m'| == |m|
  {
    seq(|m|, x requires 0 <= x < |m| =>
      if PageAddr(x) in mem && |mem[PageAddr(x)]| == ENTRIES then ByteOf(mem[PageAddr(x)][x % 4096 / 8], x % 8)
          else m[x])
  }

  /** The same pages as they now read. */
  function Reread(mem: Memory, m: seq<byte>): Memory {
    map a | a in mem :: PageWords(m, a)
  }

  /** Every page of mem is page aligned, lies in m, and has the words m has there. */
  ghost predicate Reads(mem: Memory, m: seq<byte>) {
    forall a :: a in mem ==> a % 4096 == 0 && a + 4096 <= |m| && mem[a] == PageWords(m, a)
  }

  lemma FourBytes(m: seq<byte>, a: nat, w: nat)
    requires a + 4 <= |m| && w < TWO_32 && forall i :: 0 <= i < 4 ==> m[a + i] == Bytes4(w)[i]
    ensures U32(m, a) == w
  {
    assert m[a..a + 4] == Bytes4(w);
    Bytes4Law(m, a, w);
  }

  lemma EightBytes(m: seq<byte>, a: nat, w: u64)
    requires a + 8 <= |m| && forall i :: 0 <= i < 8 ==> m[a + i] == ByteOf(w, i)
    ensures U64(m, a) == w
  {
    hide U32, Bytes4;
    forall i | 0 <= i < 4 ensures m[a + i] == Bytes4(w % TWO_32)[i] { assert m[a + i] == ByteOf(w, i); }
    forall i | 0 <= i < 4 ensures m[a + 4 + i] == Bytes4(w / TWO_32)[i] { assert m[a + (4 + i)] == ByteOf(w, 4 + i); }
    FourBytes(m, a, w % TWO_32);
    FourBytes(m, a + 4, w / TWO_32);
  }

  /** A page written back reads as it was written. */
  lemma WriteBackReads(mem: Memory, m: seq<byte>)
    requires forall a :: a in mem ==> |mem[a]| == ENTRIES && a % 4096 == 0 && a + 4096 <= |m|
    ensures Reads(mem, WriteBack(mem, m))
  {
    hide U64, ByteOf;
    var m' := WriteBack(mem, m);
    forall a | a in mem ensures mem[a] == PageWords(m', a) {
      forall i | 0 <= i < ENTRIES ensures mem[a][i] == U64(m', a + 8 * i) {
        forall j | 0 <= j < 8 ensures m'[a + 8 * i + j] == ByteOf(mem[a][i], j) { InPage(a, i, j); }
        EightBytes(m', a + 8 * i, mem[a][i]);
      }
    }
  }

  lemma InPage(a: nat, i: nat, j: nat)
    requires a % 4096 == 0 && i < ENTRIES && j < 8
    ensures var x := a + 8 * i + j; PageAddr(x) == a && x % 4096 / 8 == i && x % 8 == j
  {
    var x, p := a + 8 * i + j, a / 4096;
    assert x == 4096 * p + (8 * i + j) && x == 8 * (512 * p + i) + j;
    Remainder4096(p, 8 * i + j);
    Remainder8(i, j);
    Remainder8(512 * p + i, j);
  }

  lemma Remainder4096(p: nat, r: nat)
    requires r < 4096
    ensures (4096 * p + r) % 4096 == r
  {
  }

  lemma Remainder8(p: nat, r: nat)
    requires r < 8
    ensures (8 * p + r) % 8 == r && (8 * p + r) / 8 == p
  {
  }

  lemma SameWordBytes(m: seq<byte>, m': seq<byte>, a: nat)
    requires a + 8 <= |m| == |m'| && U64(m, a) == U64(m', a)
    ensures forall x :: a <= x < a + 8 ==> m'[x] == m[x]
  {
    hide U32;
    SameHalf(m, m', a);
    SameHalf(m, m', a + 4);
  }

  lemma SameHalf(m: seq<byte>, m': seq<byte>, a: nat)
    requires a + 4 <= |m| == |m'|
    ensures U32(m, a) == U32(m', a) ==> forall x :: a <= x < a + 4 ==> m'[x] == m[x]
  {
    hide Bytes4;
    Bytes4Unique(m, a);
    Bytes4Unique(m', a);
    if U32(m, a) == U32(m', a) {
      forall x | a <= x < a + 4 ensures m'[x] == m[x] {
        assert m[x] == Bytes4(U32(m, a))[x - a] && m'[x] == Bytes4(U32(m', a))[x - a];
      }
    }
  }

  /** The bytes of a 32-bit word are its digits. */
  lemma Bytes4Unique(m: seq<byte>, a: nat)
    requires a + 4 <= |m|
    ensures Bytes4(U32(m, a)) == [m[a], m[a + 1], m[a + 2], m[a + 3]]
  {
    var b0, b1, b2, b3: int := m[a], m[a + 1], m[a + 2], m[a + 3];
    var q := b2 + 0x100 * b3;
    var p := b1 + 0x100 * q;
    var w := b0 + 0x100 * p;
    assert w == U32(m, a);
    assert w % 0x100 == b0 && w / 0x100 == p;
    assert p % 0x100 == b1 && p / 0x100 == q;
    assert q % 0x100 == b2 && q / 0x100 == b3;
    assert w / 0x1_0000 == q && w / 0x100_0000 == b3;
  }

  /** Pages with the same words have the same bytes. */
  lemma SamePageBytes(m: seq<byte>, m': seq<byte>, a: nat, x: nat)
    requires a % 4096 == 0 && a <= x < a + 4096 <= |m| == |m'| && PageWords(m, a) == PageWords(m', a)
    ensures m'[x] == m[x]
  {
    hide U64;
    var i := (x - a) / 8;
    assert PageWords(m, a)[i] == PageWords(m', a)[i];
    SameWordBytes(m, m', a + 8 * i);
  }

  // ----- The machine -----

  /** The kernel's pages as words, the bytes they are made of, and the heap those bytes hold. */
  datatype Machine = Machine(k: Kernel, m: seq<byte>, h: Heap, head: nat)

  /** The heap's frames are exactly the pages of its interval. */
  ghost predicate HeapFrames(k: Kernel, h: Heap) {
    && h.lo % 4096 == 0 && h.hi % 4096 == 0
    && forall a :: a in k.heap <==> a % 4096 == 0 && h.lo <= a < h.hi
  }

  /**
   One holder for each frame and well-formed tables, a heap in the bytes of its frames, and words that are those
   bytes.
   */
  ghost predicate Sane(x: Machine) {
    Ownership.Owned(x.k) && Reads(x.k.vm.mem, x.m) && Represents(x.m, x.h, x.head) && HeapFrames(x.k, x.h)
  }

  /**
   An event of the page-table code, a call of the heap or a client's write into it, or a write into frames
   clients hold.
   */
  datatype Step = VmStep(e: Event) | HeapStep | ClientStep

  /** Only bytes of the heap's interval differ. */
  ghost predicate InHeap(m: seq<byte>, m': seq<byte>, h: Heap) {
    |m'| == |m| && forall b :: 0 <= b < |m| && !(h.lo <= b < h.hi) ==> m'[b] == m[b]
  }

  /** Only bytes of pages in the set differ. */
  ghost predicate InPages(m: seq<byte>, m': seq<byte>, pages: set<nat>) {
    |m'| == |m| && forall b :: 0 <= b < |m| && PageAddr(b) !in pages ==> m'[b] == m[b]
  }

  /** The kernel's view after bytes were written. */
  function Refreshed(k: Kernel, m: seq<byte>): Kernel {
    k.(vm := k.vm.(mem := Reread(k.vm.mem, m)))
  }

  /** y follows x by the step. Of a heap step just this is assumed: it stays in the heap, and leaves a heap there. */
  ghost predicate Moves(x: Machine, s: Step, y: Machine) {
    match s
    case VmStep(e) =>
      Allowed(x.k, e) && y == Machine(After(x.k, e), WriteBack(After(x.k, e).vm.mem, x.m), x.h, x.head)
    case HeapStep =>
      && InHeap(x.m, y.m, x.h) && Represents(y.m, y.h, y.head) && y.h.lo == x.h.lo && y.h.hi == x.h.hi
      && y.k == Refreshed(x.k, y.m)
    case ClientStep =>
      InPages(x.m, y.m, x.k.clients) && y == Machine(Refreshed(x.k, y.m), y.m, x.h, x.head)
  }

  /** Writing to pages that are no tables changes no table, so no walk. */
  lemma TablesUntouched(s: State, mem: Memory)
    requires Inv(s) && mem.Keys == s.mem.Keys && (forall a :: a in mem ==> |mem[a]| == ENTRIES)
    requires forall t :: t in s.tables && t in mem ==> mem[t] == s.mem[t]
    ensures Inv(s.(mem := mem)) && SameTranslations(s, s.(mem := mem)) && SpacesKept(s, s.(mem := mem))
  {
    hide Present, Frame, CountFree, Lookup, Child;
    var s' := s.(mem := mem);
    forall t | t in s.tables ensures TableOk(s', t) {
      assert TableOk(s, t);
      if s.tables[t].level >= 2 {
        forall i | 0 <= i < ENTRIES ensures LinkOk(s', t, i) { assert LinkOk(s, t, i); }
      }
    }
    SameWalks(s, mem);
  }

  lemma SameWalks(s: State, mem: Memory)
    requires Inv(s) && mem.Keys == s.mem.Keys && forall t :: t in s.tables && t in mem ==> mem[t] == s.mem[t]
    ensures SameTranslations(s, s.(mem := mem)) && SpacesKept(s, s.(mem := mem))
  {
    hide Present, Frame, Inv, Lookup;
    SameEntries(s, mem);
    hide Child;
    forall r, w: nat | IsRoot(s, r) ensures Lookup(mem, r, w) == Lookup(s.mem, r, w) {
      OneWalk(s, mem, r, w);
    }
  }

  lemma SameEntries(s: State, mem: Memory)
    requires Inv(s) && mem.Keys == s.mem.Keys && forall t :: t in s.tables && t in mem ==> mem[t] == s.mem[t]
    ensures forall t, i: nat :: t in s.tables ==> Entry(mem, t, i) == Entry(s.mem, t, i)
    ensures forall t, i: nat :: t in s.tables ==> Child(mem, t, i) == Child(s.mem, t, i)
  {
    hide Present, Frame, Inv;
  }

  lemma OneWalk(s: State, mem: Memory, r: nat, w: nat)
    requires Inv(s) && IsRoot(s, r)
    requires forall t, i: nat :: t in s.tables ==> Entry(mem, t, i) == Entry(s.mem, t, i)
    requires forall t, i: nat :: t in s.tables ==> Child(mem, t, i) == Child(s.mem, t, i)
    ensures Lookup(mem, r, w) == Lookup(s.mem, r, w)
  {
    hide Present, Frame, Inv, Child, Entry, Pml4Index, PdptIndex, PdIndex, PtIndex;
    WalkTyped(s, r, w);
    ChildOfNull(mem);
    ChildOfNull(s.mem);
  }

  /** What memory holds of a heap is decided by the bytes of the heap's interval. */
  lemma HeapBytesDecide(m: seq<byte>, m': seq<byte>, h: Heap, head: nat)
    requires Represents(m, h, head) && |m'| == |m| && forall b :: h.lo <= b < h.hi && b < |m| ==> m'[b] == m[b]
    ensures Represents(m', h, head)
  {
    hide Magic, Size, NextFree, Flags, ListOk, Aligned;
    forall b | b in h.blocks
      ensures Describes(m', b, h.blocks[b]) && NextFree(m', b) == NextFree(m, b)
    {
      assert Describes(m, b, h.blocks[b]);
      SameHeader(m, m', b);
    }
  }

  lemma SameBytesWords(m: seq<byte>, m': seq<byte>, a: nat)
    requires |m'| == |m| && forall b :: a <= b < a + 4096 && b < |m| ==> m'[b] == m[b]
    ensures PageWords(m', a) == PageWords(m, a)
  {
    hide U32;
    if a + 4096 <= |m| {
      forall i | 0 <= i < ENTRIES ensures PageWords(m', a)[i] == PageWords(m, a)[i] { SameWord8(m, m', a + 8 * i); }
    }
    assert |PageWords(m', a)| == |PageWords(m, a)|;
  }

  lemma SameWord8(m: seq<byte>, m': seq<byte>, a: nat)
    requires a + 8 <= |m| == |m'| && forall b :: a <= b < a + 8 ==> m'[b] == m[b]
    ensures U64(m', a) == U64(m, a)
  {
  }

  lemma RereadReads(mem: Memory, m: seq<byte>, m': seq<byte>)
    requires Reads(mem, m) && |m'| == |m|
    ensures Reads(Reread(mem, m'), m') && Reread(mem, m').Keys == mem.Keys
    ensures forall a :: a in mem ==> Reread(mem, m')[a] == PageWords(m', a)
  {
    hide PageWords;
  }

  /** A byte of a page that no table lies on may change without any table noticing. */
  ghost predicate TablesKept(x: Machine, m': seq<byte>) {
    |m'| == |x.m| && forall b :: 0 <= b < |m'| && PageAddr(b) in x.k.vm.tables ==> m'[b] == x.m[b]
  }

  lemma TableWords(x: Machine, m': seq<byte>, t: nat)
    requires Sane(x) && TablesKept(x, m') && t in x.k.vm.tables && t in x.k.vm.mem
    ensures PageWords(m', t) == x.k.vm.mem[t]
  {
    hide PageWords, Represents, Ownership.Owned;
    forall b | t <= b < t + 4096 && b < |m'| ensures m'[b] == x.m[b] { assert PageAddr(b) == t; }
    SameBytesWords(x.m, m', t);
  }

  /** Bytes written anywhere but on the page tables: the tables read as before, so everything translates as before. */
  lemma RefreshedLaw(x: Machine, m': seq<byte>)
    requires Sane(x) && TablesKept(x, m')
    ensures var k' := Refreshed(x.k, m');
            && Ownership.Owned(k') && Reads(k'.vm.mem, m') && HeapFrames(k', x.h)
            && SameTranslations(x.k.vm, k'.vm) && SpacesKept(x.k.vm, k'.vm)
            && forall t :: t in x.k.vm.tables ==> t in k'.vm.mem && t in x.k.vm.mem && k'.vm.mem[t] == x.k.vm.mem[t]
  {
    hide PageWords, Represents, Inv, Reads, Used, SameTranslations, SpacesKept, Ownership.Apart;
    var mem := Reread(x.k.vm.mem, m');
    RereadReads(x.k.vm.mem, x.m, m');
    TablesArePages(x.k.vm);
    forall t | t in x.k.vm.tables && t in mem ensures mem[t] == x.k.vm.mem[t] { TableWords(x, m', t); }
    forall a | a in mem ensures |mem[a]| == ENTRIES { }
    TablesUntouched(x.k.vm, mem);
  }

  /** An address and its page lie on the same side of the heap's ends. */
  lemma PageSide(lo: nat, hi: nat, b: nat)
    requires lo % 4096 == 0 && hi % 4096 == 0
    ensures PageAddr(b) % 4096 == 0 && PageAddr(b) <= b < PageAddr(b) + 4096
    ensures lo <= b < hi <==> lo <= PageAddr(b) < hi
  {
  }

  lemma HeapOffTables(x: Machine, m': seq<byte>)
    requires Sane(x) && InHeap(x.m, m', x.h)
    ensures TablesKept(x, m')
  {
    hide Represents, Inv, Reads, Used;
    forall b | 0 <= b < |m'| && PageAddr(b) in x.k.vm.tables ensures m'[b] == x.m[b] { PageSide(x.h.lo, x.h.hi, b); }
  }

  /**
   Heap calls, and writes into frames that clients hold, leave the page tables' words alone and keep everything
   in order.
   */
  lemma ByteStepLaw(x: Machine, s: Step, y: Machine)
    requires Sane(x) && !s.VmStep? && Moves(x, s, y)
    ensures Sane(y) && y.k.vm.tables == x.k.vm.tables && y.k.vm.pool == x.k.vm.pool
    ensures SameTranslations(x.k.vm, y.k.vm) && SpacesKept(x.k.vm, y.k.vm)
    ensures forall t :: t in x.k.vm.tables ==> t in y.k.vm.mem && t in x.k.vm.mem && y.k.vm.mem[t] == x.k.vm.mem[t]
  {
    hide Inv, Reads, Used, SameTranslations, SpacesKept, TablesKept;
    if s.HeapStep? {
      hide Represents;
      HeapOffTables(x, y.m);
      RefreshedLaw(x, y.m);
    } else {
      ClientsOffTables(x, y.m);
      RefreshedLaw(x, y.m);
      ClientsOffHeap(x, y.m);
      hide Represents;
      HeapBytesDecide(x.m, y.m, x.h, x.head);
    }
  }

  lemma ClientsOffTables(x: Machine, m': seq<byte>)
    requires Sane(x) && InPages(x.m, m', x.k.clients)
    ensures TablesKept(x, m')
  {
    hide Represents, Inv, Reads, Used;
  }

  lemma ClientsOffHeap(x: Machine, m': seq<byte>)
    requires Sane(x) && InPages(x.m, m', x.k.clients)
    ensures forall b :: x.h.lo <= b < x.h.hi && b < |x.m| ==> m'[b] == x.m[b]
  {
    hide Represents, Inv, Reads, Used;
    forall b | x.h.lo <= b < x.h.hi && b < |x.m| ensures m'[b] == x.m[b] { PageSide(x.h.lo, x.h.hi, b); }
  }

  /** An event of the page-table code has the pages there were, and writes tables alone. */
  lemma EventPages(k: Kernel, e: Event)
    requires Ownership.Owned(k) && Allowed(k, e)
    ensures var k' := After(k, e);
            && k'.vm.mem.Keys == k.vm.mem.Keys
            && forall a :: a in k.vm.mem && a !in k'.vm.tables ==> k'.vm.mem[a] == k.vm.mem[a]
  {
    hide Inv, Used, Ownership.Run, AllocPages, FreePages, Copied, SameTranslations, SameSharing, AllocTable,
      CreateSpace, Touch, Exec, CountFree, Ownership.Apart;
    match e
    case VmCall(op) => ExecFrames(k.vm, op);
    case FirstSpace => FirstFrames(k.vm);
    case NewSpace(kernel) => CreateFrames(k.vm, kernel);
    case TakePages(_) =>
    case GivePages(_, _) =>
    case Walk(t, i) => TouchLaw(k.vm, t, i);
  }

  /** What an event writes back reads as the tables it made, and the heap's bytes are as they were. */
  lemma VmStepLaw(x: Machine, e: Event, y: Machine)
    requires Sane(x) && Moves(x, VmStep(e), y)
    ensures Sane(y)
    ensures forall b :: x.h.lo <= b < x.h.hi && b < |x.m| ==> y.m[b] == x.m[b]
  {
    hide Inv, Used, After, Allowed, WriteBack, PageWords, Represents, Ownership.Apart;
    EventLaw(x.k, e);
    EventPages(x.k, e);
    TablesArePages(y.k.vm);
    forall a | a in y.k.vm.mem ensures |y.k.vm.mem[a]| == ENTRIES && a % 4096 == 0 && a + 4096 <= |x.m| {
      assert a in x.k.vm.mem;
      if a !in y.k.vm.tables { assert x.k.vm.mem[a] == PageWords(x.m, a); }
    }
    WriteBackReads(y.k.vm.mem, x.m);
    forall b | x.h.lo <= b < x.h.hi && b < |x.m| ensures y.m[b] == x.m[b] {
      PageSide(x.h.lo, x.h.hi, b);
      var a := PageAddr(b);
      assert a in x.k.heap;
      assert y.k.vm.mem[a] == PageWords(y.m, a) && x.k.vm.mem[a] == PageWords(x.m, a);
      SamePageBytes(x.m, y.m, a, b);
    }
    HeapBytesDecide(x.m, y.m, x.h, x.head);
  }

  // ----- Interleaved runs -----

  /** ys is a run from ys[0] by the steps. */
  ghost predicate Runs(ys: seq<Machine>, steps: seq<Step>) {
    |ys| == |steps| + 1 && forall i :: 0 <= i < |steps| ==> Moves(ys[i], steps[i], ys[i + 1])
  }

  /** The flat model over an interleaved run: only successful calls of the page-table code overwrite the cell. */
  ghost function FlatCell(ys: seq<Machine>, steps: seq<Step>, x: nat, w: nat, cell: Option<u64>): Option<u64>
    requires |ys| == |steps| + 1
    decreases |steps|
  {
    if steps == [] then cell
    else
      var hit := steps[0].VmStep? && Hits(ys[0].k, steps[0].e, x, w);
      FlatCell(ys[1..], steps[1..], x, w, if hit then OpCell(steps[0].e.op) else cell)
  }

  lemma StepTranslates(x: Machine, s: Step, y: Machine, r: nat, w: nat)
    requires Sane(x) && Moves(x, s, y) && IsRoot(x.k.vm, r)
    ensures Sane(y) && IsRoot(y.k.vm, r)
    ensures Lookup(y.k.vm.mem, r, w) == if s.VmStep? && Hits(x.k, s.e, r, w) then OpCell(s.e.op)
            else Lookup(x.k.vm.mem, r, w)
  {
    hide Inv, Used, After, Allowed, WriteBack, Reads, Represents, Lookup, Hits, InHeap, InPages, Ownership.Apart,
      HeapFrames;
    if s.VmStep? {
      VmStepLaw(x, s.e, y);
      EventTranslates(x.k, s.e);
    } else {
      ByteStepLaw(x, s, y);
    }
  }

  /**
   One memory, any interleaving of page-table events, heap calls, and writes of clients: frames keep one holder
   each, the heap's bytes always hold a heap, and every address space translates every address as its successful
   maps and unmaps alone say.
   */
  lemma {:induction false} Interleaved(ys: seq<Machine>, steps: seq<Step>, r: nat, w: nat)
    requires Runs(ys, steps) && Sane(ys[0]) && IsRoot(ys[0].k.vm, r)
    ensures Sane(ys[|steps|])
    ensures Lookup(ys[|steps|].k.vm.mem, r, w) == FlatCell(ys, steps, r, w, Lookup(ys[0].k.vm.mem, r, w))
    decreases |steps|
  {
    hide Sane, Moves, Lookup, Hits;
    if steps != [] {
      assert Moves(ys[0], steps[0], ys[1]);
      StepTranslates(ys[0], steps[0], ys[1], r, w);
      assert forall i :: 0 <= i < |steps| - 1 ==> Moves(ys[1..][i], steps[1..][i], ys[1..][i + 1]) by {
        forall i | 0 <= i < |steps| - 1 ensures Moves(ys[1..][i], steps[1..][i], ys[1..][i + 1]) {
          assert Moves(ys[i + 1], steps[i + 1], ys[i + 2]);
        }
      }
      Interleaved(ys[1..], steps[1..], r, w);
    }
  }

  // ----- The heap's code on the machine, and the machine at boot -----

  /** The heap allocator works on the bytes of the machine. */
  ghost predicate SameHeap(a: HeapAllocator.Allocator, x: Machine)
    reads a, a.mem
  {
    a.Valid() && a.mem[..] == x.m && a.model == x.h && a.freeList == x.head
  }

  /**
   A client's run of heap calls, carried out by the allocator's code on the machine's bytes, is a step of the
   machine.
   */
  method CallHeap(a: HeapAllocator.Allocator, ops: seq<HeapOp>, ghost x: Machine) returns (ghost y: Machine)
    requires SameHeap(a, x) && Sane(x)
    requires Tiled(x.h) && LegalRun(x.h, ops) && NoLostSlack(x.h, ops)
    modifies a, a.mem
    ensures SameHeap(a, y) && Moves(x, HeapStep, y) && Sane(y) && y.h == HeapModel.Run(x.h, ops)
    ensures forall t :: t in x.k.vm.tables ==> t in y.k.vm.mem && t in x.k.vm.mem && y.k.vm.mem[t] == x.k.vm.mem[t]
  {
    hide Inv, Reads, Represents, Ownership.Owned, Tiled, BlocksOk, ListOk, HeapFrames, HeapModel.Run, LegalRun,
      NoLostSlack, Refreshed;
    HeapAllocator.SoundInMemory(x.m, x.h, x.head);
    RunLaw(x.h, ops);
    a.Perform(ops);
    y := Machine(Refreshed(x.k, a.mem[..]), a.mem[..], a.model, a.freeList);
    ByteStepLaw(x, HeapStep, y);
  }

  /** The pages of the frame allocator's cover, as memory has them. */
  function CoverPages(p: Pool, m: seq<byte>): Memory {
    map a | a in (set i | 0 <= i < |p.used| :: FrameAt(p, i)) :: PageWords(m, a)
  }

  lemma CoverLaw(p: Pool, m: seq<byte>)
    requires ValidPool(p) && p.lo + |p.used| * PAGE_SIZE <= |m|
    ensures Reads(CoverPages(p, m), m)
    ensures forall a :: Covered(p, a) ==> a in CoverPages(p, m) && |CoverPages(p, m)[a]| == ENTRIES
  {
    hide PageWords;
    forall a | Covered(p, a) ensures a in CoverPages(p, m) { assert a == FrameAt(p, FrameIndex(p, a)); }
    forall a | a in CoverPages(p, m) ensures a % 4096 == 0 && a + 4096 <= |m| {
      var i :| 0 <= i < |p.used| && a == FrameAt(p, i);
      FramePlace(p, i);
    }
  }

  lemma FramePlace(p: Pool, i: nat)
    requires ValidPool(p) && i < |p.used|
    ensures FrameAt(p, i) % 4096 == 0 && FrameAt(p, i) + 4096 <= p.lo + |p.used| * PAGE_SIZE
  {
    assert (|p.used| - i - 1) * PAGE_SIZE >= 0;
  }

  /** The addresses of n frames from a page address on are the page addresses of their interval. */
  lemma RunIsInterval(base: nat, n: nat)
    requires base % 4096 == 0
    ensures forall a :: a in Ownership.Run(base, n) <==> a % 4096 == 0 && base <= a < base + n * 4096
  {
    forall a | a % 4096 == 0 && base <= a < base + n * 4096 ensures a in Ownership.Run(base, n) {
      var i := (a - base) / 4096;
      assert 0 <= i < n && a == base + i * PAGE_SIZE;
    }
  }

  /** Where the heap takes its frames: page aligned, inside the cover. */
  lemma HeapBase(p: Pool)
    requires ValidPool(p) && AllocPages(p, 256).1 != 0
    ensures AllocPages(p, 256).1 % 4096 == 0
  {
    hide CountFree;
    AllocPagesLaw(p, 256);
  }

  /** Once heap_init has written the first header, every interleaved run starts off well. */
  lemma BootSane(m: seq<byte>, p: Pool)
    requires ValidPool(p) && p.lo + |p.used| * PAGE_SIZE <= |m| && AllocPages(p, 256).1 != 0
    requires var base := AllocPages(p, 256).1; Represents(m, Fresh(base, base + 256 * 4096), base)
    ensures var (q, base) := AllocPages(p, 256);
            var k := Kernel(State(CoverPages(p, m), q, map[]), Ownership.Run(base, 256), {}, UsedSet(p));
            Sane(Machine(k, m, Fresh(base, base + 256 * 4096), base))
  {
    hide CountFree, Ownership.Run, UsedSet, Used, AllocPages, Represents, Inv, CoverPages, Reads, Ownership.Owned;
    CoverLaw(p, m);
    BootOwned(CoverPages(p, m), p);
    HeapBase(p);
    RunIsInterval(AllocPages(p, 256).1, 256);
  }
}
