/** The heap as a value: blocks by header address and the free list, and what alloc and free do to them. */
module HeapModel {
  import opened Bits
  import opened Words

  const HEADER: nat := 32
  const ALIGNMENT: nat := 16

  datatype Block = Block(size: nat, free: bool)

  /** flist is the free list from its head; allocs and frees count successful calls. */
  datatype Heap = Heap(lo: nat, hi: nat, blocks: map<nat, Block>, flist: seq<nat>, allocs: nat, frees: nat)

  /** The address just past the block at a. */
  function EndOf(h: Heap, a: nat): nat
    requires a in h.blocks
  {
    a + HEADER + h.blocks[a].size
  }

  ghost predicate Distinct(s: seq<nat>) {
    forall i, j :: 0 <= i < j < |s| ==> s[i] != s[j]
  }

  predicate Aligned(x: nat) {
    x % ALIGNMENT == 0
  }

  lemma AlignedSum(x: nat, y: nat)
    requires Aligned(x) && Aligned(y)
    ensures Aligned(x + y) && Aligned(x + HEADER) && (x >= y ==> Aligned(x - y))
            && (x >= HEADER ==> Aligned(x - HEADER))
  {
    var i, j := x / ALIGNMENT, y / ALIGNMENT;
    assert x == ALIGNMENT * i && y == ALIGNMENT * j;
    MultipleAligned(x + y, i + j);
    MultipleAligned(x + HEADER, i + 2);
    if x >= y { MultipleAligned(x - y, i - j); }
    if x >= HEADER { MultipleAligned(x - HEADER, i - 2); }
  }

  lemma MultipleAligned(x: nat, i: nat)
    requires x == ALIGNMENT * i
    ensures Aligned(x)
  {
  }

  /** Blocks are aligned, inside the heap and disjoint. */
  ghost predicate BlocksOk(h: Heap) {
    && Aligned(h.lo) && Aligned(h.hi)
    && HEADER <= h.lo && h.lo + HEADER <= h.hi < h.lo + TWO_32 && h.hi < TWO_64
    && (forall a :: a in h.blocks ==>
          h.lo <= a && Aligned(a) && Aligned(h.blocks[a].size) && EndOf(h, a) <= h.hi)
    && (forall a, b :: a in h.blocks && b in h.blocks && a < b ==> EndOf(h, a) <= b)
  }

  /** Everything on the free list is a block. */
  ghost predicate Listed(h: Heap) {
    forall j :: 0 <= j < |h.flist| ==> h.flist[j] in h.blocks
  }

  /** The free list visits each free block once and no other block. */
  ghost predicate ListOk(h: Heap) {
    && Listed(h)
    && Distinct(h.flist)
    && (forall a :: a in h.flist <==> a in h.blocks && h.blocks[a].free)
  }

  ghost predicate Sound(h: Heap) {
    BlocksOk(h) && ListOk(h)
  }

  /** The blocks leave no gap: each one ends where another begins, or at the end of the heap. */
  ghost predicate Tiled(h: Heap) {
    h.lo in h.blocks && forall a :: a in h.blocks ==> EndOf(h, a) == h.hi || EndOf(h, a) in h.blocks
  }

  /** ALIGN_UP on a 64-bit size; it wraps to 0 for the top 15 sizes. */
  function AlignUp(n: u64): nat {
    (n + ALIGNMENT - 1) % TWO_64 / ALIGNMENT * ALIGNMENT
  }

  lemma AlignUpLaw(n: u64)
    ensures Aligned(AlignUp(n))
    ensures n <= AlignUp(n) <==> n <= TWO_64 - 16 || n == 0
    ensures n <= TWO_64 - 16 ==> AlignUp(n) < n + ALIGNMENT
    ensures n > TWO_64 - 16 ==> AlignUp(n) == 0
  {
  }

  /** The position in the free list, from k on, of the first block that fits; the list's length if none does. */
  function FitFrom(h: Heap, size: nat, k: nat): (i: nat)
    requires k <= |h.flist| && forall j :: 0 <= j < |h.flist| ==> h.flist[j] in h.blocks
    ensures k <= i <= |h.flist|
    ensures i < |h.flist| ==> h.blocks[h.flist[i]].size >= size
    ensures forall j :: k <= j < i ==> h.blocks[h.flist[j]].size < size
    decreases |h.flist| - k
  {
    if k == |h.flist| || h.blocks[h.flist[k]].size >= size then k else FitFrom(h, size, k + 1)
  }

  /** Position of the block heap_alloc(n) takes; the list's length when it returns NULL. */
  function Fit(h: Heap, n: u64): (k: nat)
    requires Listed(h)
    ensures k <= |h.flist|
  {
    if n == 0 || AlignUp(n) > TWO_32 - 1 then |h.flist| else FitFrom(h, AlignUp(n), 0)
  }

  /** Bytes of the chosen block beyond the aligned size. */
  function Remaining(h: Heap, n: u64): nat
    requires Listed(h) && Fit(h, n) < |h.flist|
  {
    h.blocks[h.flist[Fit(h, n)]].size - AlignUp(n)
  }

  predicate Splits(h: Heap, n: u64)
    requires Listed(h) && Fit(h, n) < |h.flist|
  {
    Remaining(h, n) >= HEADER + ALIGNMENT
  }

  /** The k-th free block cut to size, the rest becoming a free block in its place in the list. */
  function Split(h: Heap, k: nat, size: nat): Heap
    requires k < |h.flist| && h.flist[k] in h.blocks && size + HEADER <= h.blocks[h.flist[k]].size
  {
    var b := h.flist[k];
    var rest := b + HEADER + size;
    h.(blocks := h.blocks[b := Block(size, false)][rest := Block(h.blocks[b].size - size - HEADER, true)],
       flist := h.flist[k := rest], allocs := h.allocs + 1)
  }

  /** The k-th free block taken off the list with its size set, whatever it was. */
  function Take(h: Heap, k: nat, size: nat): Heap
    requires k < |h.flist|
  {
    h.(blocks := h.blocks[h.flist[k] := Block(size, false)],
       flist := h.flist[..k] + h.flist[k + 1..], allocs := h.allocs + 1)
  }

  /** heap_alloc: the heap after it and the pointer it returns, 0 for NULL. */
  function Alloc(h: Heap, n: u64): (Heap, nat)
    requires Listed(h)
  {
    var k := Fit(h, n);
    if k == |h.flist| then (h, 0)
    else (if Splits(h, n) then Split(h, k, AlignUp(n)) else Take(h, k, AlignUp(n)), h.flist[k] + HEADER)
  }

  /** Nothing was asked for, or a size of more than 32 bits, or one that no free block has. */
  ghost predicate Refused(h: Heap, n: u64)
    requires Listed(h)
  {
    n == 0 || AlignUp(n) >= TWO_32 || forall j :: 0 <= j < |h.flist| ==> h.blocks[h.flist[j]].size < AlignUp(n)
  }

  /** The first position of x in s, or the length of s. */
  function IndexOf(s: seq<nat>, x: nat): (i: nat)
    ensures i <= |s| && (i < |s| ==> s[i] == x)
    ensures i == |s| <==> x !in s
  {
    if s == [] then 0 else if s[0] == x then 0 else 1 + IndexOf(s[1..], x)
  }

  /** s without its first x. */
  function Without(s: seq<nat>, x: nat): seq<nat> {
    var i := IndexOf(s, x);
    if i == |s| then s else s[..i] + s[i + 1..]
  }

  /** p points to the payload of a used block. */
  predicate Live(h: Heap, p: nat) {
    p >= HEADER && p - HEADER in h.blocks && !h.blocks[p - HEADER].free
  }

  /** heap_free merges the freed block with a free block that follows it directly. */
  predicate Merges(h: Heap, p: nat)
    requires Live(h, p)
  {
    var n := EndOf(h, p - HEADER);
    n < h.hi && n in h.blocks && h.blocks[n].free
  }

  /** The block at a put at the head of the free list as it is. */
  function Release(h: Heap, a: nat): Heap
    requires a in h.blocks
  {
    h.(blocks := h.blocks[a := Block(h.blocks[a].size, true)], flist := [a] + h.flist, frees := h.frees + 1)
  }

  /** The block at a put at the head of the free list, grown by the block that follows it. */
  function Join(h: Heap, a: nat): Heap
    requires a in h.blocks && EndOf(h, a) in h.blocks
  {
    var n := EndOf(h, a);
    h.(blocks := (h.blocks - {n})[a := Block(h.blocks[a].size + HEADER + h.blocks[n].size, true)],
       flist := [a] + Without(h.flist, n), frees := h.frees + 1)
  }

  /** heap_free of a live pointer. */
  function Free(h: Heap, p: nat): Heap
    requires Live(h, p)
  {
    if Merges(h, p) then Join(h, p - HEADER) else Release(h, p - HEADER)
  }

  // ----- heap_alloc -----

  /** Cutting a block in two keeps the blocks well placed. */
  lemma CutBlocksOk(h: Heap, h': Heap, b: nat, rest: nat)
    requires BlocksOk(h) && b in h.blocks && b + HEADER <= rest && rest + HEADER <= EndOf(h, b)
    requires h'.lo == h.lo && h'.hi == h.hi && h'.blocks.Keys == h.blocks.Keys + {rest}
    requires forall a :: a in h.blocks && a != b ==> h'.blocks[a].size == h.blocks[a].size
    requires EndOf(h', b) == rest && EndOf(h', rest) == EndOf(h, b)
    requires Aligned(rest) && Aligned(h'.blocks[b].size) && Aligned(h'.blocks[rest].size)
    ensures BlocksOk(h') && rest !in h.blocks
  {
    hide Aligned;
    assert rest !in h.blocks;
    forall a, c | a in h'.blocks && c in h'.blocks && a < c
      ensures EndOf(h', a) <= c
    {
      if a == rest {
        assert EndOf(h, b) <= c;
      } else if c == rest {
        assert a == b || EndOf(h, a) <= b;
      } else {
        assert EndOf(h, a) <= c;
      }
    }
  }

  lemma SplitBlocksOk(h: Heap, k: nat, size: nat)
    requires BlocksOk(h) && k < |h.flist| && h.flist[k] in h.blocks
    requires Aligned(size) && size + HEADER <= h.blocks[h.flist[k]].size
    ensures BlocksOk(Split(h, k, size)) && h.flist[k] + HEADER + size !in h.blocks
  {
    hide Aligned;
    var b := h.flist[k];
    var rest := b + HEADER + size;
    var h' := Split(h, k, size);
    assert Aligned(b) && Aligned(h.blocks[b].size);
    hide BlocksOk;
    AlignedSum(b, size);
    AlignedSum(b + HEADER, size);
    AlignedSum(h.blocks[b].size, size);
    AlignedSum(h.blocks[b].size - size, size);
    assert h'.blocks.Keys == h.blocks.Keys + {rest};
    CutBlocksOk(h, h', b, rest);
  }

  lemma SplitListOk(h: Heap, k: nat, size: nat)
    requires Sound(h) && k < |h.flist| && h.flist[k] in h.blocks && size + HEADER <= h.blocks[h.flist[k]].size
    requires h.flist[k] + HEADER + size !in h.blocks
    ensures ListOk(Split(h, k, size)) && |Split(h, k, size).blocks| == |h.blocks| + 1
  {
    hide BlocksOk;
    var b, rest := h.flist[k], h.flist[k] + HEADER + size;
    var h' := Split(h, k, size);
    assert h'.blocks.Keys == h.blocks.Keys + {rest};
    ReplaceLaw(h.flist, k, rest);
    hide Distinct;
  }

  lemma ReplaceLaw(s: seq<nat>, k: nat, x: nat)
    requires Distinct(s) && k < |s| && x !in s
    ensures Distinct(s[k := x])
    ensures forall y :: y in s[k := x] <==> y == x || (y in s && y != s[k])
  {
    var t := s[k := x];
    forall y ensures y in t <==> y == x || (y in s && y != s[k]) {
      if y in s && y != s[k] {
        var i :| 0 <= i < |s| && s[i] == y;
        assert t[i] == y;
      }
      if y == x { assert t[k] == y; }
    }
  }

  lemma RemoveLaw(s: seq<nat>, k: nat)
    requires Distinct(s) && k < |s|
    ensures Distinct(s[..k] + s[k + 1..])
    ensures forall y :: y in s[..k] + s[k + 1..] <==> y in s && y != s[k]
  {
    var t := s[..k] + s[k + 1..];
    assert forall i :: 0 <= i < |t| ==> t[i] == s[if i < k then i else i + 1];
    forall y ensures y in t <==> y in s && y != s[k] {
      if y in s && y != s[k] {
        var i :| 0 <= i < |s| && s[i] == y;
        assert t[if i < k then i else i - 1] == y;
      }
    }
  }

  lemma TakeBlocksOk(h: Heap, k: nat, size: nat)
    requires BlocksOk(h) && k < |h.flist| && h.flist[k] in h.blocks
    requires Aligned(size) && size <= h.blocks[h.flist[k]].size
    ensures BlocksOk(Take(h, k, size))
  {
    hide Aligned;
  }

  lemma TakeListOk(h: Heap, k: nat, size: nat)
    requires Sound(h) && k < |h.flist|
    ensures ListOk(Take(h, k, size)) && |Take(h, k, size).blocks| == |h.blocks|
  {
    hide BlocksOk;
    assert h.flist[k] in h.flist;
    assert Take(h, k, size).blocks.Keys == h.blocks.Keys;
    RemoveLaw(h.flist, k);
    hide Distinct;
  }

  /** b was a free block and is now a used one of the given size; other allocations are as before. */
  ghost predicate Allocated(h: Heap, h': Heap, b: nat, size: nat) {
    && b in h.blocks && h.blocks[b].free && size <= h.blocks[b].size && Aligned(b)
    && b in h'.blocks && h'.blocks[b] == Block(size, false)
    && h'.lo == h.lo && h'.hi == h.hi
    && (forall a :: a in h.blocks && a != b ==> a in h'.blocks && h'.blocks[a] == h.blocks[a])
    && (forall a :: a in h'.blocks && a !in h.blocks ==> h'.blocks[a].free)
  }

  lemma SplitAllocated(h: Heap, k: nat, size: nat)
    requires k < |h.flist| && h.flist[k] in h.blocks && h.blocks[h.flist[k]].free && Aligned(h.flist[k])
    requires size + HEADER <= h.blocks[h.flist[k]].size && h.flist[k] + HEADER + size !in h.blocks
    ensures Allocated(h, Split(h, k, size), h.flist[k], size)
  {
    hide Aligned;
  }

  lemma TakeAllocated(h: Heap, k: nat, size: nat)
    requires k < |h.flist| && h.flist[k] in h.blocks && h.blocks[h.flist[k]].free && Aligned(h.flist[k])
    requires size <= h.blocks[h.flist[k]].size
    ensures Allocated(h, Take(h, k, size), h.flist[k], size)
  {
    hide Aligned;
  }

  /** What heap_alloc returns and which allocations are live afterwards. */
  lemma AllocLaw(h: Heap, n: u64)
    requires Sound(h)
    ensures Listed(h)
    ensures var (h', p) := Alloc(h, n);
            && Sound(h')
            && (p == 0 <==> Fit(h, n) == |h.flist|)
            && (p == 0 ==> h' == h)
            && (p != 0 ==> p > HEADER && Aligned(p) && Allocated(h, h', p - HEADER, AlignUp(n)))
  {
    hide FitFrom, BlocksOk, ListOk, AlignUp, Aligned;
    AlignUpLaw(n);
    SoundListed(h);
    var k := Fit(h, n);
    if k < |h.flist| {
      AlignedSum(h.flist[k], AlignUp(n));
      hide Allocated;
      if Splits(h, n) {
        SplitBlocksOk(h, k, AlignUp(n));
        SplitListOk(h, k, AlignUp(n));
        SplitAllocated(h, k, AlignUp(n));
      } else {
        TakeBlocksOk(h, k, AlignUp(n));
        TakeListOk(h, k, AlignUp(n));
        TakeAllocated(h, k, AlignUp(n));
      }
    }
  }

  /** The block heap_alloc(n) hands out has room for n bytes exactly when ALIGN_UP does not wrap. */
  lemma AllocRoom(h: Heap, n: u64)
    requires Sound(h) && Listed(h) && Alloc(h, n).1 != 0
    ensures var (h', p) := Alloc(h, n);
            && p > HEADER && p - HEADER in h'.blocks
            && (h'.blocks[p - HEADER].size >= n <==> n <= TWO_64 - 16)
  {
    hide Alloc, AlignUp, Aligned, BlocksOk, ListOk;
    AllocLaw(h, n);
    AlignUpLaw(n);
    ZeroRefused(h);
  }

  lemma ZeroRefused(h: Heap)
    requires Listed(h)
    ensures Alloc(h, 0).1 == 0
  {
  }

  /** Allocation makes exactly one more pointer live. */
  lemma AllocatedLive(h: Heap, h': Heap, b: nat, size: nat)
    requires Allocated(h, h', b, size)
    ensures Live(h', b + HEADER) && !Live(h, b + HEADER)
    ensures forall q: nat :: q != b + HEADER ==> (Live(h', q) <==> Live(h, q))
    ensures EndOf(h', b) <= EndOf(h, b)
  {
    hide Aligned;
  }

  lemma SoundListed(h: Heap)
    requires Sound(h)
    ensures Listed(h)
    ensures forall i :: 0 <= i < |h.flist| ==> Aligned(h.flist[i]) && h.flist[i] >= HEADER && h.blocks[h.flist[i]].free
  {
  }

  // ----- Gaps -----

  /** x belongs to some block, header or payload. */
  ghost predicate Owned(h: Heap, x: int) {
    exists a :: a in h.blocks && a <= x < EndOf(h, a)
  }

  /** Bytes of the block heap_alloc(n) takes that afterwards belong to no block. */
  function LostSlack(h: Heap, n: u64): nat
    requires Listed(h)
  {
    if Fit(h, n) == |h.flist| || Splits(h, n) then 0 else Remaining(h, n)
  }

  /**
   heap_alloc keeps the heap tiled exactly when it loses no slack. The bytes it disowns are the
   LostSlack(h, n) ones at the old end of the block it takes, never more than 32.
   */
  lemma AllocTiling(h: Heap, n: u64)
    requires Sound(h) && Listed(h)
    ensures var h' := Alloc(h, n).0;
            && LostSlack(h, n) <= 32
            && (Tiled(h) ==> (Tiled(h') <==> LostSlack(h, n) == 0))
            && (forall x :: Owned(h', x) <==>
                  Owned(h, x) && !(Alloc(h, n).1 != 0 &&
                  EndOf(h, h.flist[Fit(h, n)]) - LostSlack(h, n) <= x < EndOf(h, h.flist[Fit(h, n)])))
  {
    hide FitFrom, AlignUp, Distinct, Fit;
    AllocLaw(h, n);
    var k := Fit(h, n);
    var h' := Alloc(h, n).0;
    if k < |h.flist| {
      var b := h.flist[k];
      if Splits(h, n) {
        SplitOwned(h, k, AlignUp(n));
      } else {
        TakeOwned(h, k, AlignUp(n));
        SlackBound(h, n);
      }
    }
  }

  lemma SlackBound(h: Heap, n: u64)
    requires Sound(h) && Listed(h)
    ensures LostSlack(h, n) <= 32
  {
    AlignUpLaw(n);
  }

  lemma SplitOwned(h: Heap, k: nat, size: nat)
    requires k < |h.flist| && h.flist[k] in h.blocks && size + HEADER <= h.blocks[h.flist[k]].size
    requires h.flist[k] + HEADER + size !in h.blocks
    ensures forall x :: Owned(Split(h, k, size), x) <==> Owned(h, x)
    ensures Tiled(h) ==> Tiled(Split(h, k, size))
  {
    var b, rest := h.flist[k], h.flist[k] + HEADER + size;
    var h' := Split(h, k, size);
    assert EndOf(h', rest) == EndOf(h, b) && EndOf(h', b) == rest;
    assert forall a :: a in h.blocks && a != b ==> a in h'.blocks && EndOf(h', a) == EndOf(h, a);
    forall x
      ensures Owned(h', x) <==> Owned(h, x)
    {
      hide Split, EndOf;
      SplitPoint(h, h', b, rest, x);
    }
  }

  /** Cutting a block in two keeps the same bytes owned. */
  lemma SplitPoint(h: Heap, h': Heap, b: nat, rest: nat, x: int)
    requires b in h.blocks && h'.blocks.Keys == h.blocks.Keys + {rest} && rest !in h.blocks
    requires EndOf(h', rest) == EndOf(h, b) && EndOf(h', b) == rest && b < rest < EndOf(h, b)
    requires forall a :: a in h.blocks && a != b ==> EndOf(h', a) == EndOf(h, a)
    ensures Owned(h', x) <==> Owned(h, x)
  {
    hide EndOf;
    if Owned(h, x) {
      var a :| a in h.blocks && a <= x < EndOf(h, a);
      var a' := if a == b && x >= rest then rest else a;
      assert a' in h'.blocks && a' <= x < EndOf(h', a');
    }
    if Owned(h', x) {
      var a :| a in h'.blocks && a <= x < EndOf(h', a);
      var a' := if a == rest then b else a;
      assert a' in h.blocks && a' <= x < EndOf(h, a');
    }
  }

  lemma TakeOwned(h: Heap, k: nat, size: nat)
    requires BlocksOk(h) && k < |h.flist| && h.flist[k] in h.blocks && size <= h.blocks[h.flist[k]].size
    ensures forall x :: Owned(Take(h, k, size), x) <==>
              Owned(h, x) && !(h.flist[k] + HEADER + size <= x < EndOf(h, h.flist[k]))
    ensures Tiled(h) ==> (Tiled(Take(h, k, size)) <==> size == h.blocks[h.flist[k]].size)
  {
    hide Aligned;
    var b := h.flist[k];
    var h' := Take(h, k, size);
    assert h'.blocks.Keys == h.blocks.Keys;
    assert forall a :: a in h.blocks && a != b ==> EndOf(h', a) == EndOf(h, a);
    forall x
      ensures Owned(h', x) <==> Owned(h, x) && !(b + HEADER + size <= x < EndOf(h, b))
    {
      hide Take;
      ShrinkPoint(h, h', b, x);
    }
    TakeTiled(h, h', b);
  }

  lemma TakeTiled(h: Heap, h': Heap, b: nat)
    requires BlocksOk(h) && b in h.blocks && h'.blocks.Keys == h.blocks.Keys && h'.lo == h.lo && h'.hi == h.hi
    requires forall a :: a in h.blocks && a != b ==> EndOf(h', a) == EndOf(h, a)
    requires EndOf(h', b) <= EndOf(h, b)
    ensures Tiled(h) ==> (Tiled(h') <==> EndOf(h', b) == EndOf(h, b))
  {
    hide Aligned;
    if Tiled(h) && EndOf(h', b) < EndOf(h, b) {
      assert EndOf(h', b) < h.hi;
      assert EndOf(h', b) !in h.blocks;
    }
  }

  /** Shrinking a block disowns exactly the bytes past its new end. */
  lemma ShrinkPoint(h: Heap, h': Heap, b: nat, x: int)
    requires b in h.blocks && h'.blocks.Keys == h.blocks.Keys && EndOf(h', b) <= EndOf(h, b)
    requires forall a :: a in h.blocks && a != b ==> EndOf(h', a) == EndOf(h, a)
    requires forall a, c :: a in h.blocks && c in h.blocks && a < c ==> EndOf(h, a) <= c
    ensures Owned(h', x) <==> Owned(h, x) && !(EndOf(h', b) <= x < EndOf(h, b))
  {
    var end, end' := EndOf(h, b), EndOf(h', b);
    assert b < end';
    if Owned(h, x) {
      var a :| a in h.blocks && a <= x < EndOf(h, a);
      if x < end' || x >= end { assert a in h'.blocks && a <= x < EndOf(h', a); }
    }
    if Owned(h', x) {
      var a :| a in h'.blocks && a <= x < EndOf(h', a);
      assert a in h.blocks && a <= x < EndOf(h, a);
      assert a == b || a < b || b < a;
    }
  }

  // ----- heap_free -----

  lemma WithoutLaw(s: seq<nat>, x: nat)
    requires Distinct(s)
    ensures Distinct(Without(s, x))
    ensures forall y :: y in Without(s, x) <==> y in s && y != x
    ensures x in s ==> |Without(s, x)| == |s| - 1
  {
    var i := IndexOf(s, x);
    if i < |s| { RemoveLaw(s, i); }
  }

  /** The block at a is followed by another block or by the end of the heap. */
  predicate NoGapAfter(h: Heap, a: nat)
    requires a in h.blocks
  {
    EndOf(h, a) == h.hi || EndOf(h, a) in h.blocks
  }

  /** Joining a block with the one that follows it keeps the blocks well placed. */
  lemma JoinBlocksOk(h: Heap, h': Heap, a: nat)
    requires BlocksOk(h) && a in h.blocks && EndOf(h, a) in h.blocks
    requires h'.lo == h.lo && h'.hi == h.hi && h'.blocks.Keys == h.blocks.Keys - {EndOf(h, a)}
    requires forall b :: b in h'.blocks && b != a ==> h'.blocks[b].size == h.blocks[b].size
    requires h'.blocks[a].size == h.blocks[a].size + HEADER + h.blocks[EndOf(h, a)].size
    ensures BlocksOk(h')
  {
    hide Aligned;
    var n := EndOf(h, a);
    AlignedSum(h.blocks[a].size, n);
    AlignedSum(h.blocks[a].size + HEADER, h.blocks[n].size);
    assert EndOf(h', a) == EndOf(h, n);
    forall b, c | b in h'.blocks && c in h'.blocks && b < c
      ensures EndOf(h', b) <= c
    {
      assert b in h.blocks && c in h.blocks && c != n;
    }
  }

  lemma DistinctCons(a: nat, s: seq<nat>)
    requires Distinct(s) && a !in s
    ensures Distinct([a] + s)
    ensures forall x :: x in [a] + s <==> x == a || x in s
  {
    forall i, j | 0 <= i < j < |s| + 1 ensures ([a] + s)[i] != ([a] + s)[j] {
      assert ([a] + s)[j] == s[j - 1] && s[j - 1] in s;
    }
  }

  lemma JoinListOk(h: Heap, a: nat)
    requires ListOk(h) && a in h.blocks && !h.blocks[a].free
    requires EndOf(h, a) in h.blocks && h.blocks[EndOf(h, a)].free
    ensures ListOk(Join(h, a)) && |Join(h, a).flist| == |h.flist|
  {
    var n := EndOf(h, a);
    WithoutLaw(h.flist, n);
    hide Without, Distinct;
    DistinctCons(a, Without(h.flist, n));
  }

  lemma ReleaseListOk(h: Heap, a: nat)
    requires ListOk(h) && a in h.blocks && !h.blocks[a].free
    ensures ListOk(Release(h, a))
  {
    hide Distinct;
    DistinctCons(a, h.flist);
  }

  lemma FreeSound(h: Heap, p: nat)
    requires Sound(h) && Live(h, p)
    ensures Sound(Free(h, p))
    ensures |Free(h, p).blocks| == |h.blocks| - (if Merges(h, p) then 1 else 0)
    ensures |Free(h, p).flist| == |h.flist| + (if Merges(h, p) then 0 else 1)
  {
    hide Aligned, ListOk, Without, BlocksOk;
    var a := p - HEADER;
    var h' := Free(h, p);
    if Merges(h, p) {
      assert h'.blocks.Keys == h.blocks.Keys - {EndOf(h, a)};
      JoinBlocksOk(h, h', a);
      JoinListOk(h, a);
    } else {
      assert h'.blocks.Keys == h.blocks.Keys;
      SameEnds(h, h');
      ReleaseListOk(h, a);
    }
  }

  lemma SameEnds(h: Heap, h': Heap)
    requires BlocksOk(h) && h'.lo == h.lo && h'.hi == h.hi && h'.blocks.Keys == h.blocks.Keys
    requires forall b :: b in h.blocks ==> h'.blocks[b].size == h.blocks[b].size
    ensures BlocksOk(h')
  {
    hide Aligned;
  }

  /** heap_free keeps the heap sound, keeps it tiled, releases p alone, and disowns no byte. */
  lemma FreeLaw(h: Heap, p: nat)
    requires Sound(h) && Live(h, p)
    ensures var h' := Free(h, p);
            && Sound(h') && h'.lo == h.lo && h'.hi == h.hi
            && (Tiled(h') <==> Tiled(h))
            && !Live(h', p)
            && (forall q :: q != p ==> (Live(h', q) <==> Live(h, q)))
            && (forall q: nat :: Live(h, q) && q != p ==> h'.blocks[q - HEADER] == h.blocks[q - HEADER])
            && (forall x :: Owned(h', x) <==> Owned(h, x))
  {
    hide BlocksOk, ListOk, Owned, Without, Tiled;
    FreeSound(h, p);
    FreeOwned(h, p);
    TiledIffOwned(h);
    TiledIffOwned(Free(h, p));
  }

  lemma FreeOwned(h: Heap, p: nat)
    requires Sound(h) && Live(h, p)
    ensures forall x :: Owned(Free(h, p), x) <==> Owned(h, x)
  {
    hide Aligned, ListOk, Without;
    var a := p - HEADER;
    var h' := Free(h, p);
    if Merges(h, p) {
      var n := EndOf(h, a);
      assert h'.blocks.Keys == h.blocks.Keys - {n} && EndOf(h', a) == EndOf(h, n);
      forall x ensures Owned(h', x) <==> Owned(h, x) { SplitPoint(h', h, a, n, x); }
    } else {
      assert h'.blocks.Keys == h.blocks.Keys;
      assert forall b :: b in h'.blocks ==> EndOf(h', b) == EndOf(h, b);
    }
  }

  // ----- Whole runs -----

  /** Every byte of the heap belongs to a block exactly when the blocks leave no gap. */
  lemma TiledIffOwned(h: Heap)
    requires Sound(h)
    ensures Tiled(h) <==> forall x :: h.lo <= x < h.hi ==> Owned(h, x)
  {
    hide Aligned, ListOk;
    if Tiled(h) {
      forall x | h.lo <= x < h.hi ensures Owned(h, x) { TiledOwns(h, x); }
    }
    if forall x :: h.lo <= x < h.hi ==> Owned(h, x) {
      assert Owned(h, h.lo);
      forall a | a in h.blocks && EndOf(h, a) != h.hi
        ensures EndOf(h, a) in h.blocks
      {
        assert Owned(h, EndOf(h, a));
        OwnedEnd(h, a);
      }
    }
  }

  /** If the byte after a block is owned, a block begins there. */
  lemma OwnedEnd(h: Heap, a: nat)
    requires BlocksOk(h) && a in h.blocks && Owned(h, EndOf(h, a))
    ensures EndOf(h, a) in h.blocks
  {
    hide Aligned;
    var b :| b in h.blocks && b <= EndOf(h, a) < EndOf(h, b);
    assert b == a || b < a || a < b;
  }

  lemma {:induction false} TiledOwns(h: Heap, x: int)
    requires BlocksOk(h) && Tiled(h) && h.lo <= x < h.hi
    ensures Owned(h, x)
    decreases x
  {
    hide Aligned;
    if x == h.lo {
      assert h.lo < EndOf(h, h.lo);
    } else {
      TiledOwns(h, x - 1);
      var a :| a in h.blocks && a <= x - 1 < EndOf(h, a);
      if x == EndOf(h, a) { assert x < EndOf(h, x); }
    }
  }

  /** A client call of heap_alloc, heap_free, heap_realloc or heap_calloc. */
  datatype HeapOp = AllocOp(n: u64) | FreeOp(p: nat) | ReallocOp(p: nat, n: u64) | CallocOp(count: u64, n: u64)

  /**
   NULL or a live pointer: what clients pass to heap_free and heap_realloc. An empty block at the very end
   of the heap has its pointer at that end, which heap_free answers with a panic.
   */
  predicate NullOrLive(h: Heap, p: nat) {
    p == 0 || (Live(h, p) && p < h.hi)
  }

  /** The size the call asks heap_alloc for; calloc refuses a product that needs more than 64 bits. */
  function Asked(op: HeapOp): u64 {
    match op
    case AllocOp(n) => n
    case FreeOp(_) => 0
    case ReallocOp(_, n) => n
    case CallocOp(count, n) => if count * n < TWO_64 then count * n else 0
  }

  /** The bytes the call copies or clears in the block it is given. */
  function Written(h: Heap, op: HeapOp): nat {
    match op
    case AllocOp(_) => 0
    case FreeOp(_) => 0
    case ReallocOp(p, n) =>
      if !Live(h, p) then 0 else if h.blocks[p - HEADER].size < n then h.blocks[p - HEADER].size else n
    case CallocOp(_, _) => Asked(op)
  }

  /** ALIGN_UP wraps the size, the first free block is taken for it, and the call writes into the empty block anyway. */
  predicate Overruns(h: Heap, op: HeapOp) {
    Asked(op) > TWO_64 - 16 && h.flist != [] && Written(h, op) > 0
  }

  /** One of the 15 sizes that ALIGN_UP wraps gets an empty block out of the first free one, if there is one. */
  lemma WrappedTakesFirst(h: Heap, n: u64)
    requires Sound(h) && Listed(h) && n > TWO_64 - 16
    ensures var (h', p) := Alloc(h, n);
            if h.flist == [] then p == 0
            else p == h.flist[0] + HEADER && p - HEADER in h'.blocks && h'.blocks[p - HEADER] == Block(0, false)
  {
    hide BlocksOk, AlignUp, Aligned;
    AlignUpLaw(n);
  }

  /** What heap_realloc copies and heap_calloc clears fits the new block exactly when the call does not overrun. */
  lemma OverrunExact(h: Heap, op: HeapOp)
    requires Sound(h) && Listed(h) && Alloc(h, Asked(op)).1 != 0
    ensures var (h', p) := Alloc(h, Asked(op));
            && p > HEADER && p - HEADER in h'.blocks
            && (Written(h, op) <= h'.blocks[p - HEADER].size <==> !Overruns(h, op))
  {
    hide Alloc, AlignUp, Aligned, BlocksOk, ListOk;
    AllocLaw(h, Asked(op));
    AlignUpLaw(Asked(op));
    AllocRoom(h, Asked(op));
    if Asked(op) > TWO_64 - 16 { WrappedTakesFirst(h, Asked(op)); }
  }

  /** The heap does not answer the call with a panic, and the call does not write past its block. */
  ghost predicate Legal(h: Heap, op: HeapOp) {
    && Listed(h)
    && (op.FreeOp? || op.ReallocOp? ==> NullOrLive(h, op.p))
    && !Overruns(h, op)
  }

  /** The block the call gives back if its allocation succeeds, or if it asks for none; 0 for no block. */
  function Dropped(op: HeapOp): nat {
    match op
    case AllocOp(_) => 0
    case FreeOp(p) => p
    case ReallocOp(p, _) => p
    case CallocOp(_, _) => 0
  }

  function FreeIfLive(h: Heap, p: nat): Heap {
    if Live(h, p) then Free(h, p) else h
  }

  /** The heap after a call. A realloc that finds no block leaves the old one alone. */
  function Step(h: Heap, op: HeapOp): Heap
    requires Legal(h, op)
  {
    var (h1, p) := Alloc(h, Asked(op));
    if Asked(op) > 0 && p == 0 then h else FreeIfLive(h1, Dropped(op))
  }

  /** What each call does to the heap, case by case. */
  lemma StepCases(h: Heap, op: HeapOp)
    requires Sound(h) && Legal(h, op)
    ensures match op
            case AllocOp(n) => Step(h, op) == Alloc(h, n).0
            case FreeOp(p) => Step(h, op) == if p == 0 then h else Free(h, p)
            case CallocOp(count, n) => Step(h, op) == if count * n < TWO_64 then Alloc(h, count * n).0 else h
            case ReallocOp(p, n) =>
              if p == 0 then Step(h, op) == Alloc(h, n).0
              else if n == 0 then Step(h, op) == Free(h, p)
              else if Alloc(h, n).1 == 0 then Step(h, op) == h
              else Live(Alloc(h, n).0, p) && Step(h, op) == Free(Alloc(h, n).0, p)
  {
    hide BlocksOk, ListOk, Free, Splits, Split, Take, FitFrom, AlignUp, Aligned;
    AllocLaw(h, Asked(op));
    NullNotLive(h);
    NullNotLive(Alloc(h, Asked(op)).0);
  }

  ghost predicate LegalRun(h: Heap, ops: seq<HeapOp>)
    decreases |ops|
  {
    ops == [] || (Legal(h, ops[0]) && LegalRun(Step(h, ops[0]), ops[1..]))
  }

  function Run(h: Heap, ops: seq<HeapOp>): Heap
    requires LegalRun(h, ops)
    decreases |ops|
  {
    if ops == [] then h else Run(Step(h, ops[0]), ops[1..])
  }

  /** No allocation of the run loses slack. */
  ghost predicate NoLostSlack(h: Heap, ops: seq<HeapOp>)
    requires LegalRun(h, ops)
    decreases |ops|
  {
    ops == [] || (LostSlack(h, Asked(ops[0])) == 0 && NoLostSlack(Step(h, ops[0]), ops[1..]))
  }

  /** Giving back a live block, or nothing, changes neither what is owned nor the tiling. */
  lemma FreeIfLiveLaw(h: Heap, p: nat)
    requires Sound(h)
    ensures var h' := FreeIfLive(h, p);
            && Sound(h') && h'.lo == h.lo && h'.hi == h.hi
            && (Tiled(h') <==> Tiled(h))
            && !Live(h', p)
            && (forall q: nat :: q != p ==> (Live(h', q) <==> Live(h, q)))
            && (forall q: nat :: Live(h, q) && q != p ==> h'.blocks[q - HEADER] == h.blocks[q - HEADER])
            && (forall x :: Owned(h', x) <==> Owned(h, x))
  {
    hide BlocksOk, ListOk, Owned, Tiled, Free;
    if Live(h, p) { FreeLaw(h, p); }
  }

  /** One call keeps the heap sound, disowns bytes only as lost slack, and never gives a byte back. */
  lemma StepLaw(h: Heap, op: HeapOp)
    requires Sound(h) && Legal(h, op)
    ensures var h' := Step(h, op);
            && Sound(h') && h'.lo == h.lo && h'.hi == h.hi
            && (forall x :: Owned(h', x) ==> Owned(h, x))
            && (Tiled(h) ==> (Tiled(h') <==> LostSlack(h, Asked(op)) == 0))
  {
    hide BlocksOk, ListOk, Owned, Tiled, FreeIfLive, Aligned, Fit, LostSlack, Live;
    AllocLaw(h, Asked(op));
    AllocTiling(h, Asked(op));
    FreeIfLiveLaw(Alloc(h, Asked(op)).0, Dropped(op));
  }

  /**
   Over any run of legal calls the heap stays sound; from a tiled heap it ends tiled exactly when no
   allocation of the run lost slack.
   */
  lemma {:induction false} RunLaw(h: Heap, ops: seq<HeapOp>)
    requires Sound(h) && LegalRun(h, ops)
    ensures var h' := Run(h, ops);
            && Sound(h') && h'.lo == h.lo && h'.hi == h.hi
            && (forall x :: Owned(h', x) ==> Owned(h, x))
            && (Tiled(h) ==> (Tiled(h') <==> NoLostSlack(h, ops)))
    decreases |ops|
  {
    hide BlocksOk, ListOk, Owned, Tiled, Step, LostSlack, Legal;
    if ops != [] {
      var h1 := Step(h, ops[0]);
      StepLaw(h, ops[0]);
      RunLaw(h1, ops[1..]);
      if Tiled(h) && !Tiled(h1) {
        TiledIffOwned(h1);
        TiledIffOwned(Run(h1, ops[1..]));
      }
    }
  }

  // ----- What clients hold -----

  /** The sizes asked for, by pointer returned: a client's record of its allocations. */
  type Ledger = map<nat, u64>

  /** The ledger lists exactly the live pointers; a block is too small for its request only if ALIGN_UP wrapped it. */
  ghost predicate Honoured(h: Heap, l: Ledger) {
    forall p: nat ::
      && (p in l <==> Live(h, p))
      && (p in l ==> (h.blocks[p - HEADER].size >= l[p] <==> l[p] <= TWO_64 - 16))
  }

  /** The ledger after a call: the new pointer in, the one given back out. */
  function Noted(h: Heap, l: Ledger, op: HeapOp): Ledger
    requires Legal(h, op)
  {
    var p := Alloc(h, Asked(op)).1;
    if Asked(op) > 0 && p == 0 then l
    else (if p == 0 then l else l[p := Asked(op)]) - {Dropped(op)}
  }

  /** The ledger after a run of calls. */
  function Record(h: Heap, l: Ledger, ops: seq<HeapOp>): Ledger
    requires LegalRun(h, ops)
    decreases |ops|
  {
    if ops == [] then l else Record(Step(h, ops[0]), Noted(h, l, ops[0]), ops[1..])
  }

  lemma AllocHonours(h: Heap, l: Ledger, n: u64)
    requires Sound(h) && Listed(h) && Honoured(h, l)
    ensures var (h1, p) := Alloc(h, n);
            Sound(h1) && Honoured(h1, if p == 0 then l else l[p := n])
  {
    hide BlocksOk, ListOk, Alloc, Aligned, AlignUp;
    AllocLaw(h, n);
    var (h1, p) := Alloc(h, n);
    if p != 0 {
      AllocatedLive(h, h1, p - HEADER, AlignUp(n));
      AllocRoom(h, n);
    }
  }

  lemma DropHonours(h: Heap, l: Ledger, p: nat)
    requires Sound(h) && Honoured(h, l)
    ensures Honoured(FreeIfLive(h, p), l - {p})
  {
    hide Sound, FreeIfLive, Owned, Tiled;
    FreeIfLiveLaw(h, p);
  }

  lemma StepHonours(h: Heap, l: Ledger, op: HeapOp)
    requires Sound(h) && Legal(h, op) && Honoured(h, l)
    ensures Honoured(Step(h, op), Noted(h, l, op))
  {
    hide Sound, Honoured, Alloc, FreeIfLive, Live, Fit, Asked, Dropped;
    var (h1, p) := Alloc(h, Asked(op));
    AllocHonours(h, l, Asked(op));
    DropHonours(h1, if p == 0 then l else l[p := Asked(op)], Dropped(op));
  }

  /**
   Over any run the live pointers are those handed out and not given back, each with the room asked for
   unless the size was one of the 15 that ALIGN_UP wraps.
   */
  lemma {:induction false} RunHonours(h: Heap, l: Ledger, ops: seq<HeapOp>)
    requires Sound(h) && LegalRun(h, ops) && Honoured(h, l)
    ensures Honoured(Run(h, ops), Record(h, l, ops))
    decreases |ops|
  {
    hide Sound, Honoured, Legal, Asked, Step, Noted, LostSlack, Tiled, Owned;
    if ops != [] {
      StepLaw(h, ops[0]);
      StepHonours(h, l, ops[0]);
      RunHonours(Step(h, ops[0]), Noted(h, l, ops[0]), ops[1..]);
    }
  }

  /** Live payloads are 16-byte aligned, inside the heap, and disjoint from one another. */
  lemma LivePayloads(h: Heap, p: nat, q: nat)
    requires Sound(h) && Live(h, p) && Live(h, q)
    ensures p % ALIGNMENT == 0 && h.lo <= p && p + h.blocks[p - HEADER].size <= h.hi
    ensures p != q ==> p + h.blocks[p - HEADER].size < q || q + h.blocks[q - HEADER].size < p
  {
    hide BlocksOk, ListOk;
    PayloadInside(h, p);
    PayloadsApart(h, p, q);
  }

  lemma PayloadInside(h: Heap, p: nat)
    requires BlocksOk(h) && Live(h, p)
    ensures p % ALIGNMENT == 0 && h.lo <= p && p + h.blocks[p - HEADER].size <= h.hi
  {
    assert Aligned(p - HEADER);
  }

  lemma PayloadsApart(h: Heap, p: nat, q: nat)
    requires BlocksOk(h) && Live(h, p) && Live(h, q)
    ensures p != q ==> p + h.blocks[p - HEADER].size < q || q + h.blocks[q - HEADER].size < p
  {
    hide Aligned;
  }

  /** The heap heap_init leaves: one free block over the whole interval. */
  function Fresh(lo: nat, hi: nat): Heap
    requires lo + HEADER <= hi
  {
    Heap(lo, hi, map[lo := Block(hi - lo - HEADER, true)], [lo], 0, 0)
  }

  lemma FreshLaw(lo: nat, hi: nat)
    requires Aligned(lo) && Aligned(hi) && HEADER <= lo && lo + HEADER <= hi < lo + TWO_32 && hi < TWO_64
    ensures Sound(Fresh(lo, hi)) && Tiled(Fresh(lo, hi)) && OneFree(Fresh(lo, hi))
  {
    AlignedSum(hi, lo);
    AlignedSum(hi - lo, hi);
  }

  // ----- Allocating and freeing in reverse order -----

  /** The free space, if any, is a single block at the end of the heap. */
  ghost predicate OneFree(h: Heap) {
    h.flist == [] || (|h.flist| == 1 && h.flist[0] in h.blocks && EndOf(h, h.flist[0]) == h.hi)
  }

  /** Equal but for the two call counters. */
  predicate SameBlocks(h: Heap, g: Heap) {
    h.lo == g.lo && h.hi == g.hi && h.blocks == g.blocks && h.flist == g.flist
  }

  /** The heap after allocating the sizes in order, and the pointers returned. */
  ghost function AllocAll(h: Heap, sizes: seq<u64>): (Heap, seq<nat>)
    decreases |sizes|
  {
    if sizes == [] || !Listed(h) then (h, [])
    else
      var (h1, p) := Alloc(h, sizes[0]);
      var (h2, ps) := AllocAll(h1, sizes[1..]);
      (h2, [p] + ps)
  }

  /** The heap after freeing the pointers, last one first; NULL is skipped. */
  ghost function FreeReverse(h: Heap, ps: seq<nat>): Heap
    decreases |ps|
  {
    if ps == [] then h
    else
      var g := FreeReverse(h, ps[1..]);
      if Live(g, ps[0]) then Free(g, ps[0]) else g
  }

  ghost predicate NoSlackAll(h: Heap, sizes: seq<u64>)
    decreases |sizes|
  {
    sizes == [] || !Listed(h) || (LostSlack(h, sizes[0]) == 0 && NoSlackAll(Alloc(h, sizes[0]).0, sizes[1..]))
  }

  /** On a heap whose free space is one block at the end, freeing the newest allocation undoes it. */
  lemma FreeUndoesAlloc(h: Heap, n: u64, g: Heap)
    requires Sound(h) && OneFree(h) && Listed(h) && LostSlack(h, n) == 0
    requires SameBlocks(g, Alloc(h, n).0)
    ensures var p := Alloc(h, n).1;
            && OneFree(Alloc(h, n).0)
            && (p == 0 ==> SameBlocks(g, h))
            && (p != 0 ==> Live(g, p) && SameBlocks(Free(g, p), h))
  {
    hide FitFrom, AlignUp, Aligned, BlocksOk, Distinct;
    var (h', p) := Alloc(h, n);
    AllocLaw(h, n);
    if p != 0 {
      var b := h.flist[0];
      assert h.flist == [b] && Fit(h, n) == 0;
      var size := AlignUp(n);
      var r := b + HEADER + size;
      if Splits(h, n) {
        SplitFresh(h, size);
        assert h'.flist == [r];
        assert Without([r], r) == [];
        assert Free(g, p).blocks == h.blocks;
      } else {
        assert h'.flist == [];
        assert Free(g, p).blocks == h.blocks;
      }
    }
  }

  lemma SplitFresh(h: Heap, size: nat)
    requires Sound(h) && |h.flist| == 1 && h.flist[0] in h.blocks && size + HEADER <= h.blocks[h.flist[0]].size
    ensures h.flist[0] + HEADER + size !in h.blocks
    ensures EndOf(h, h.flist[0]) <= h.hi
  {
    hide Aligned, Distinct;
    var r := h.flist[0] + HEADER + size;
    assert r !in h.blocks;
  }

  /**
   Allocating any sizes on a heap whose free space is one block at the end, and freeing them in reverse
   order, brings the blocks and the free list back if no allocation loses slack.
   */
  lemma {:induction false} RoundTrip(h: Heap, sizes: seq<u64>)
    requires Sound(h) && OneFree(h) && NoSlackAll(h, sizes)
    ensures SameBlocks(FreeReverse(AllocAll(h, sizes).0, AllocAll(h, sizes).1), h)
    decreases |sizes|
  {
    hide Alloc, Free, OneFree, BlocksOk, ListOk, LostSlack, Fit;
    SoundListed(h);
    if sizes != [] {
      var (h1, p) := Alloc(h, sizes[0]);
      var (h2, ps) := AllocAll(h1, sizes[1..]);
      AllocLaw(h, sizes[0]);
      FreeUndoesAlloc(h, sizes[0], h1);
      RoundTrip(h1, sizes[1..]);
      var g := FreeReverse(h2, ps);
      FreeUndoesAlloc(h, sizes[0], g);
      assert ([p] + ps)[1..] == ps;
      NullNotLive(g);
    }
  }

  /** Allocations never make a byte owned, and disown one if any of them loses slack. */
  lemma {:induction false} AllocAllOwned(h: Heap, sizes: seq<u64>)
    requires Sound(h)
    ensures var h' := AllocAll(h, sizes).0;
            && Sound(h')
            && (forall x :: Owned(h', x) ==> Owned(h, x))
            && (!NoSlackAll(h, sizes) ==> exists x :: Owned(h, x) && !Owned(h', x))
    decreases |sizes|
  {
    hide Sound, Owned, Alloc, LostSlack;
    SoundListed(h);
    if sizes != [] {
      var h1 := Alloc(h, sizes[0]).0;
      AllocOwned(h, sizes[0]);
      AllocAllOwned(h1, sizes[1..]);
    }
  }

  lemma AllocOwned(h: Heap, n: u64)
    requires Sound(h) && Listed(h)
    ensures var h' := Alloc(h, n).0;
            && Sound(h')
            && (forall x :: Owned(h', x) ==> Owned(h, x))
            && (LostSlack(h, n) > 0 ==> exists x :: Owned(h, x) && !Owned(h', x))
  {
    hide BlocksOk, ListOk, Aligned, AlignUp, FitFrom, Owned;
    AllocLaw(h, n);
    AllocTiling(h, n);
    if LostSlack(h, n) > 0 {
      var b := h.flist[Fit(h, n)];
      LastByteOwned(h, b);
      assert Owned(h, EndOf(h, b) - 1) && !Owned(Alloc(h, n).0, EndOf(h, b) - 1);
    }
  }

  lemma LastByteOwned(h: Heap, b: nat)
    requires b in h.blocks
    ensures Owned(h, EndOf(h, b) - 1)
  {
    assert b <= EndOf(h, b) - 1 < EndOf(h, b);
  }

  lemma {:induction false} FreeReverseOwned(h: Heap, ps: seq<nat>)
    requires Sound(h)
    ensures var h' := FreeReverse(h, ps);
            Sound(h') && forall x :: Owned(h', x) <==> Owned(h, x)
    decreases |ps|
  {
    hide Sound, Owned, Free;
    if ps != [] {
      FreeReverseOwned(h, ps[1..]);
      var g := FreeReverse(h, ps[1..]);
      if Live(g, ps[0]) { FreeLaw(g, ps[0]); }
    }
  }

  lemma SameOwned(h: Heap, g: Heap)
    requires h.blocks == g.blocks
    ensures forall x :: Owned(h, x) <==> Owned(g, x)
  {
    forall x ensures Owned(h, x) <==> Owned(g, x) {
      if Owned(h, x) {
        var a :| a in h.blocks && a <= x < EndOf(h, a);
        assert a in g.blocks && a <= x < EndOf(g, a);
      }
      if Owned(g, x) {
        var a :| a in g.blocks && a <= x < EndOf(g, a);
        assert a in h.blocks && a <= x < EndOf(h, a);
      }
    }
  }

  lemma NullNotLive(h: Heap)
    ensures !Live(h, 0)
  {
  }

  /**
   The shell's stress test with any sizes: allocating them on a fresh heap and freeing in reverse order
   ends with one free block of the initial size and both counters at one exactly when no allocation
   lost slack.
   */
  lemma FreshRoundTrip(lo: nat, hi: nat, sizes: seq<u64>)
    requires Aligned(lo) && Aligned(hi) && HEADER <= lo && lo + HEADER <= hi < lo + TWO_32 && hi < TWO_64
    ensures var (h, ps) := AllocAll(Fresh(lo, hi), sizes);
            var g := FreeReverse(h, ps);
            && (NoSlackAll(Fresh(lo, hi), sizes) <==>
                  g.blocks == map[lo := Block(hi - lo - HEADER, true)] && g.flist == [lo]
                      && |g.blocks| == |g.flist| == 1)
  {
    hide Sound, Owned, Alloc, LostSlack, AllocAll, FreeReverse, NoSlackAll, OneFree;
    var f := Fresh(lo, hi);
    FreshLaw(lo, hi);
    var (h, ps) := AllocAll(f, sizes);
    var g := FreeReverse(h, ps);
    AllocAllOwned(f, sizes);
    FreeReverseOwned(h, ps);
    if NoSlackAll(f, sizes) {
      RoundTrip(f, sizes);
    } else if g.blocks == f.blocks {
      SameOwned(g, f);
    }
  }

  /** Without that proviso the byte count falls short: on a 1 MiB heap, a size 16 below the block's loses 16 bytes. */
  lemma SlackExample(lo: nat)
    requires Aligned(lo) && 0x1000 <= lo < TWO_32
    ensures var h := Fresh(lo, lo + 0x10_0000);
            && Sound(h) && Tiled(h) && Listed(h)
            && LostSlack(h, 0xF_FFD0) == 16
            && !Tiled(Alloc(h, 0xF_FFD0).0)
            && !Owned(Alloc(h, 0xF_FFD0).0, lo + 0x10_0000 - 1)
  {
    hide Aligned, BlocksOk, ListOk, Owned, Tiled;
    var h := Fresh(lo, lo + 0x10_0000);
    AlignedSum(lo, 0x10_0000);
    FreshLaw(lo, lo + 0x10_0000);
    assert AlignUp(0xF_FFD0) == 0xF_FFD0;
    assert Fit(h, 0xF_FFD0) == 0;
    AllocTiling(h, 0xF_FFD0);
  }

  // ----- Walking the blocks in address order -----

  /** The headers of the blocks from a on that satisfy the flag. */
  function BlocksFrom(h: Heap, a: nat, free: bool): set<nat> {
    set b | b in h.blocks && b >= a && h.blocks[b].free == free
  }

  /** Headers and payloads of the blocks with the flag, met by stepping from block to block from a on. */
  function BytesFrom(h: Heap, a: nat, free: bool): nat
    decreases h.hi - a
  {
    if a !in h.blocks || EndOf(h, a) > h.hi then 0
    else BytesFrom(h, EndOf(h, a), free) + if h.blocks[a].free == free then HEADER + h.blocks[a].size else 0
  }

  /** The number of blocks with the flag met by stepping from block to block from a on, up to the first gap. */
  function CountFrom(h: Heap, a: nat, free: bool): nat
    decreases h.hi - a
  {
    if a !in h.blocks || EndOf(h, a) > h.hi then 0
    else CountFrom(h, EndOf(h, a), free) + if h.blocks[a].free == free then 1 else 0
  }

  /** On a tiled heap the walk meets every block ahead. */
  lemma {:induction false} CountMeetsAll(h: Heap, a: nat, free: bool)
    requires Sound(h) && Tiled(h) && (a in h.blocks || a == h.hi)
    ensures CountFrom(h, a, free) == |BlocksFrom(h, a, free)|
    decreases h.hi - a
  {
    hide Sound, Tiled, BlocksFrom;
    PastTheEnd(h, free);
    if a in h.blocks {
      NextBlock(h, a, free);
      CountMeetsAll(h, EndOf(h, a), free);
    } else {
      assert BlocksFrom(h, a, free) == {};
    }
  }

  /** Stepping over the block at a removes just that block from those still ahead. */
  lemma NextBlock(h: Heap, a: nat, free: bool)
    requires Sound(h) && Tiled(h) && a in h.blocks
    ensures EndOf(h, a) == h.hi || EndOf(h, a) in h.blocks
    ensures EndOf(h, a) <= h.hi
    ensures |BlocksFrom(h, a, free)| == |BlocksFrom(h, EndOf(h, a), free)| + if h.blocks[a].free == free then 1 else 0
    ensures BytesFrom(h, a, free) ==
            BytesFrom(h, EndOf(h, a), free) + if h.blocks[a].free == free then HEADER + h.blocks[a].size else 0
  {
    hide ListOk, Aligned;
    assert forall b :: b in h.blocks && b > a ==> b >= EndOf(h, a);
    hide BlocksOk;
    BlocksAfter(h, a, free);
  }

  lemma BlocksAfter(h: Heap, a: nat, free: bool)
    requires a in h.blocks && forall b :: b in h.blocks && b > a ==> b >= EndOf(h, a)
    ensures |BlocksFrom(h, a, free)| == |BlocksFrom(h, EndOf(h, a), free)| + if h.blocks[a].free == free then 1 else 0
  {
    var here, ahead, end := BlocksFrom(h, a, free), BlocksFrom(h, EndOf(h, a), free), EndOf(h, a);
    assert end > a;
    forall b ensures b in here <==> b in ahead || (b == a && h.blocks[a].free == free) {
    }
    if h.blocks[a].free == free {
      assert here == ahead + {a};
    } else {
      assert here == ahead;
    }
  }

  lemma PastTheEnd(h: Heap, free: bool)
    requires Sound(h)
    ensures BlocksFrom(h, h.hi, free) == {} && BytesFrom(h, h.hi, free) == 0
  {
  }

  /** On a tiled heap the walk accounts for every byte and every block. */
  lemma {:induction false} WalkTotals(h: Heap, a: nat)
    requires Sound(h) && Tiled(h) && (a in h.blocks || a == h.hi)
    ensures a <= h.hi && BytesFrom(h, a, true) + BytesFrom(h, a, false) == h.hi - a
    decreases h.hi - a
  {
    hide Sound, Tiled;
    PastTheEnd(h, true);
    PastTheEnd(h, false);
    if a in h.blocks {
      NextBlock(h, a, true);
      NextBlock(h, a, false);
      WalkTotals(h, EndOf(h, a));
    }
  }

  /** The free list and the block count agree with the sets of free and of all blocks. */
  lemma BlockCounts(h: Heap)
    requires Sound(h)
    ensures |BlocksFrom(h, h.lo, true)| == |h.flist|
    ensures |BlocksFrom(h, h.lo, true)| + |BlocksFrom(h, h.lo, false)| == |h.blocks|
  {
    hide Aligned;
    var f, u := BlocksFrom(h, h.lo, true), BlocksFrom(h, h.lo, false);
    assert f + u == h.blocks.Keys && f !! u;
    assert f == Elements(h.flist);
    DistinctSize(h.flist);
  }

  function Elements(s: seq<nat>): set<nat> {
    set x | x in s
  }

  lemma {:induction false} DistinctSize(s: seq<nat>)
    requires Distinct(s)
    ensures |Elements(s)| == |s|
  {
    if s != [] {
      var n := |s| - 1;
      DistinctSize(s[..n]);
      assert s[n] !in s[..n];
      assert s == s[..n] + [s[n]];
      assert Elements(s) == Elements(s[..n]) + {s[n]};
    }
  }
}
