/** Block headers as bytes in memory, and what it means for memory to hold a heap. */
module HeapBytes {
  import opened Bits
  import opened HeapModel
  import opened Words

  const MAGIC_FREE: nat := 0xC0FF_EE00
  const MAGIC_USED: nat := 0xC0FF_EE01

  /** The little-endian 32-bit word at address a. */
  function U32(m: seq<byte>, a: nat): (w: nat)
    requires a + 4 <= |m|
    ensures w < TWO_32
  {
    (m[a] as int) + 0x100 * (m[a + 1] as int) + 0x1_0000 * (m[a + 2] as int) + 0x100_0000 * (m[a + 3] as int)
  }

  function U64(m: seq<byte>, a: nat): (w: nat)
    requires a + 8 <= |m|
    ensures w < TWO_64
  {
    U32(m, a) + TWO_32 * U32(m, a + 4)
  }

  /** The four bytes of a 32-bit word. */
  function Bytes4(w: nat): (s: seq<byte>)
    requires w < TWO_32
    ensures |s| == 4
  {
    [w % 0x100, w / 0x100 % 0x100, w / 0x1_0000 % 0x100, w / 0x100_0000]
  }

  lemma Bytes4Law(m: seq<byte>, a: nat, w: nat)
    requires a + 4 <= |m| && w < TWO_32 && m[a..a + 4] == Bytes4(w)
    ensures U32(m, a) == w
  {
    var s := m[a..a + 4];
    assert m[a] == s[0] && m[a + 1] == s[1] && m[a + 2] == s[2] && m[a + 3] == s[3];
    Digits256(w);
  }

  lemma Digits256(w: nat)
    requires w < TWO_32
    ensures w == w % 0x100 + 0x100 * (w / 0x100 % 0x100) + 0x1_0000 * (w / 0x1_0000 % 0x100)
            + 0x100_0000 * (w / 0x100_0000)
  {
    var p := w / 0x100;
    var q := p / 0x100;
    assert q == w / 0x1_0000 && q / 0x100 == w / 0x100_0000;
  }

  // ----- Header fields -----

  function Magic(m: seq<byte>, b: nat): nat requires b + 32 <= |m| { U32(m, b) }
  function Size(m: seq<byte>, b: nat): nat requires b + 32 <= |m| { U32(m, b + 4) }
  function NextFree(m: seq<byte>, b: nat): nat requires b + 32 <= |m| { U64(m, b + 8) }
  function Flags(m: seq<byte>, b: nat): nat requires b + 32 <= |m| { U32(m, b + 16) }

  /** Two memories agree on the bytes [from, to). */
  ghost predicate Agree(m: seq<byte>, m': seq<byte>, from: int, to: int) {
    |m| == |m'| && forall x :: from <= x < to && 0 <= x < |m| ==> m[x] == m'[x]
  }

  lemma SameHeader(m: seq<byte>, m': seq<byte>, b: nat)
    requires b + 32 <= |m| && Agree(m, m', b, b + 20)
    ensures Magic(m', b) == Magic(m, b) && Size(m', b) == Size(m, b)
    ensures NextFree(m', b) == NextFree(m, b) && Flags(m', b) == Flags(m, b)
  {
  }

  /** The header at b describes the block: magic, size and flag; a used block has no successor. */
  ghost predicate Describes(m: seq<byte>, b: nat, k: Block)
    requires b + 32 <= |m|
  {
    && Magic(m, b) == (if k.free then MAGIC_FREE else MAGIC_USED)
    && Size(m, b) == k.size
    && Flags(m, b) == (if k.free then 1 else 0)
    && (!k.free ==> NextFree(m, b) == 0)
  }

  /** The element of the list at position i, or 0 past its end. */
  function At(s: seq<nat>, i: nat): nat {
    if i < |s| then s[i] else 0
  }

  /** The heap's bytes lie inside memory, with room to read a header at its very end. */
  ghost predicate InMemory(m: seq<byte>, h: Heap) {
    h.hi + 32 <= |m| <= TWO_64
  }

  ghost predicate HeadersOk(m: seq<byte>, h: Heap)
    requires Sound(h) && InMemory(m, h)
  {
    forall a :: a in h.blocks ==> Describes(m, a, h.blocks[a])
  }

  /** The next_free links and the list head spell out the free list. */
  ghost predicate LinksOk(m: seq<byte>, h: Heap, head: nat)
    requires Sound(h) && InMemory(m, h)
  {
    && head == At(h.flist, 0)
    && forall i :: 0 <= i < |h.flist| ==> NextFree(m, FlistAt(h, i)) == At(h.flist, i + 1)
  }

  function FlistAt(h: Heap, i: nat): (a: nat)
    requires Sound(h) && i < |h.flist|
    ensures a in h.blocks && a + 32 <= h.hi && a == h.flist[i] && h.blocks[a].free
  {
    assert h.flist[i] in h.flist;
    h.flist[i]
  }

  ghost predicate Represents(m: seq<byte>, h: Heap, head: nat) {
    Sound(h) && InMemory(m, h) && HeadersOk(m, h) && LinksOk(m, h, head)
  }

  /** What a walk of the free list reads at its k-th block. */
  lemma FreeBlockFields(m: seq<byte>, h: Heap, head: nat, k: nat)
    requires Represents(m, h, head) && k < |h.flist|
    ensures var b := h.flist[k];
            && HEADER <= b && b in h.blocks && h.blocks[b].free && b + 32 <= EndOf(h, b) <= h.hi && b + 32 <= |m|
            && Magic(m, b) == MAGIC_FREE && Size(m, b) == h.blocks[b].size && NextFree(m, b) == At(h.flist, k + 1)
            && h.lo <= b && Aligned(b)
  {
    hide Magic, Size, NextFree, Aligned;
    var b := FlistAt(h, k);
    assert Describes(m, b, h.blocks[b]);
  }

  /** What the header of a used block holds. */
  lemma BlockFields(m: seq<byte>, h: Heap, head: nat, a: nat)
    requires Represents(m, h, head) && a in h.blocks
    ensures h.lo <= a && HEADER <= a && a + 32 <= EndOf(h, a) <= h.hi && a + 32 <= |m|
    ensures Magic(m, a) == (if h.blocks[a].free then MAGIC_FREE else MAGIC_USED)
    ensures Size(m, a) == h.blocks[a].size && Flags(m, a) == (if h.blocks[a].free then 1 else 0)
  {
    hide Magic, Size, NextFree, Flags, Aligned, LinksOk;
    assert Describes(m, a, h.blocks[a]);
  }

  lemma NullOrBlock(m: seq<byte>, h: Heap, head: nat, k: nat)
    requires Represents(m, h, head) && k <= |h.flist|
    ensures head == At(h.flist, 0)
    ensures At(h.flist, k) == 0 <==> k == |h.flist|
    ensures At(h.flist, k) < TWO_64
  {
    if k < |h.flist| { FreeBlockFields(m, h, head, k); }
  }

  // ----- Memory after each kind of change -----

  /** m' differs from m only in the header at b, in [rest, rest + 32), and in the link word at link. */
  ghost predicate ChangedAt(m: seq<byte>, m': seq<byte>, b: nat, rest: nat, link: nat) {
    && |m'| == |m|
    && forall x :: 0 <= x < |m| && !(b <= x < b + 32) && !(rest <= x < rest + 32) && !(link <= x < link + 8) ==>
       m'[x] == m[x]
  }

  /** Where the link to list position k is stored; the head of the list needs none (b then). */
  function LinkTo(h: Heap, k: nat, b: nat): nat
    requires Sound(h) && k <= |h.flist|
  {
    if k == 0 then b else FlistAt(h, k - 1) + 8
  }

  lemma Apart(h: Heap, a: nat, b: nat)
    requires Sound(h) && a in h.blocks && b in h.blocks && a != b
    ensures EndOf(h, a) <= b || EndOf(h, b) <= a
  {
  }

  /** A block whose header and links were not touched keeps its description. */
  lemma KeptHeader(m: seq<byte>, m': seq<byte>, h: Heap, a: nat, b: nat, rest: nat, link: nat)
    requires Sound(h) && InMemory(m, h) && ChangedAt(m, m', b, rest, link)
    requires a in h.blocks && b in h.blocks && a != b && b <= rest && rest + 32 <= EndOf(h, b)
    requires link == b || (link >= 8 && link - 8 in h.blocks)
    requires Describes(m, a, h.blocks[a])
    ensures h.blocks[a].free || link == b || link - 8 != a ==> Describes(m', a, h.blocks[a])
    ensures link == b || link - 8 != a ==> NextFree(m', a) == NextFree(m, a)
  {
    Apart(h, a, b);
    if link != b && link - 8 != a { Apart(h, a, link - 8); }
    hide Sound;
    assert Agree(m, m', a, a + 8) && Agree(m, m', a + 16, a + 20);
    if link == b || link - 8 != a { assert Agree(m, m', a, a + 20); SameHeader(m, m', a); }
  }

  lemma Inside(h: Heap)
    requires Sound(h)
    ensures forall a :: a in h.blocks ==> EndOf(h, a) <= h.hi
  {
  }

  lemma ListDistinct(h: Heap, i: nat, j: nat)
    requires Sound(h) && i < |h.flist| && j < |h.flist|
    ensures h.flist[i] == h.flist[j] <==> i == j
    ensures i != j ==> EndOf(h, FlistAt(h, i)) <= FlistAt(h, j) || EndOf(h, FlistAt(h, j)) <= FlistAt(h, i)
  {
    if i != j { Apart(h, FlistAt(h, i), FlistAt(h, j)); }
  }

  /** m' is memory after the k-th free block was cut to size, the rest linked in its place. */
  ghost predicate SplitDone(m: seq<byte>, m': seq<byte>, h: Heap, head: nat, k: nat, size: nat) {
    && Represents(m, h, head) && k < |h.flist| && Aligned(size)
    && size + HEADER + 16 <= h.blocks[FlistAt(h, k)].size
    && var b := FlistAt(h, k);
       var rest := b + HEADER + size;
       && EndOf(h, b) <= h.hi
       && ChangedAt(m, m', b, rest, LinkTo(h, k, b))
       && Describes(m', b, Block(size, false))
       && Describes(m', rest, Block(h.blocks[b].size - size - HEADER, true))
       && NextFree(m', rest) == At(h.flist, k + 1)
       && (k > 0 ==> NextFree(m', FlistAt(h, k - 1)) == rest)
  }

  lemma SplitSound(h: Heap, k: nat, size: nat)
    requires Sound(h) && k < |h.flist| && Aligned(size) && size + HEADER <= h.blocks[FlistAt(h, k)].size
    ensures Sound(Split(h, k, size)) && FlistAt(h, k) + HEADER + size !in h.blocks
    ensures |Split(h, k, size).blocks| == |h.blocks| + 1
  {
    hide BlocksOk, ListOk, Aligned;
    var b := FlistAt(h, k);
    SplitBlocksOk(h, k, size);
    SplitListOk(h, k, size);
  }

  lemma SplitRepresents(m: seq<byte>, m': seq<byte>, h: Heap, head: nat, k: nat, size: nat)
    requires SplitDone(m, m', h, head, k, size)
    ensures Represents(m', Split(h, k, size), if k == 0 then FlistAt(h, k) + HEADER + size else head)
  {
    hide Describes, Aligned, BlocksOk, ListOk, NextFree;
    var b := FlistAt(h, k);
    var rest := b + HEADER + size;
    var h' := Split(h, k, size);
    SplitSound(h, k, size);
    Inside(h');
    forall a | a in h'.blocks
      ensures Describes(m', a, h'.blocks[a])
    {
      if a != b && a != rest { KeptHeader(m, m', h, a, b, rest, LinkTo(h, k, b)); }
    }
    forall i | 0 <= i < |h'.flist|
      ensures NextFree(m', FlistAt(h', i)) == At(h'.flist, i + 1)
    {
      if i != k {
        ListDistinct(h, i, k);
        if i + 1 != k {
          if k > 0 { ListDistinct(h, i, k - 1); }
          KeptHeader(m, m', h, FlistAt(h, i), b, rest, LinkTo(h, k, b));
        }
      }
    }
  }

  /** m' is memory after the k-th free block was taken off the list with its size set. */
  ghost predicate TakeDone(m: seq<byte>, m': seq<byte>, h: Heap, head: nat, k: nat, size: nat) {
    && Represents(m, h, head) && k < |h.flist| && Aligned(size)
    && size <= h.blocks[FlistAt(h, k)].size
    && var b := FlistAt(h, k);
       && EndOf(h, b) <= h.hi
       && ChangedAt(m, m', b, b, LinkTo(h, k, b))
       && Describes(m', b, Block(size, false))
       && (k > 0 ==> NextFree(m', FlistAt(h, k - 1)) == At(h.flist, k + 1))
  }

  lemma TakeSound(h: Heap, k: nat, size: nat)
    requires Sound(h) && k < |h.flist| && Aligned(size) && size <= h.blocks[FlistAt(h, k)].size
    ensures Sound(Take(h, k, size)) && |Take(h, k, size).blocks| == |h.blocks|
  {
    hide BlocksOk, ListOk, Aligned;
    var b := FlistAt(h, k);
    TakeBlocksOk(h, k, size);
    TakeListOk(h, k, size);
  }

  lemma TakeRepresents(m: seq<byte>, m': seq<byte>, h: Heap, head: nat, k: nat, size: nat)
    requires TakeDone(m, m', h, head, k, size)
    ensures Represents(m', Take(h, k, size), if k == 0 then At(h.flist, 1) else head)
  {
    hide Describes, Aligned, BlocksOk, ListOk, NextFree;
    var b := FlistAt(h, k);
    var h' := Take(h, k, size);
    TakeSound(h, k, size);
    Inside(h');
    forall a | a in h'.blocks
      ensures Describes(m', a, h'.blocks[a])
    {
      if a != b { KeptHeader(m, m', h, a, b, b, LinkTo(h, k, b)); }
    }
    forall i | 0 <= i < |h'.flist|
      ensures NextFree(m', FlistAt(h', i)) == At(h'.flist, i + 1)
    {
      TakenLink(m, m', h, head, k, size, if i < k then i else i + 1);
    }
  }

  /** The link of the free block at position j of the old list. */
  lemma TakenLink(m: seq<byte>, m': seq<byte>, h: Heap, head: nat, k: nat, size: nat, j: nat)
    requires TakeDone(m, m', h, head, k, size) && j < |h.flist| && j != k
    ensures NextFree(m', FlistAt(h, j)) == At(h.flist, if j + 1 == k then k + 1 else j + 1)
  {
    hide Describes, Aligned, BlocksOk, ListOk, NextFree;
    var b := FlistAt(h, k);
    ListDistinct(h, j, k);
    if j + 1 != k {
      if k > 0 { ListDistinct(h, j, k - 1); }
      KeptHeader(m, m', h, FlistAt(h, j), b, b, LinkTo(h, k, b));
    }
  }

  lemma DistinctAt(s: seq<nat>, i: nat, j: nat)
    requires Distinct(s) && i < |s| && j < |s|
    ensures s[i] == s[j] <==> i == j
  {
  }

  lemma ReleaseSound(h: Heap, a: nat)
    requires Sound(h) && a in h.blocks && !h.blocks[a].free
    ensures Sound(Release(h, a)) && |Release(h, a).blocks| == |h.blocks|
  {
    hide BlocksOk, ListOk, Aligned;
    assert Release(h, a).blocks.Keys == h.blocks.Keys;
    SameEnds(h, Release(h, a));
    ReleaseListOk(h, a);
  }

  lemma ReleaseRepresents(m: seq<byte>, m': seq<byte>, h: Heap, head: nat, a: nat)
    requires Represents(m, h, head) && a in h.blocks && !h.blocks[a].free
    requires ChangedAt(m, m', a, a, a)
    requires Describes(m', a, Block(h.blocks[a].size, true)) && NextFree(m', a) == head
    ensures Represents(m', Release(h, a), a)
  {
    hide Describes, Aligned, BlocksOk, NextFree;
    var h' := Release(h, a);
    SameEnds(h, h');
    ReleaseListOk(h, a);
    assert InMemory(m', h');
    Inside(h');
    forall b | b in h'.blocks
      ensures Describes(m', b, h'.blocks[b])
    {
      if b != a { KeptHeader(m, m', h, b, a, a, a); }
    }
    forall i | 0 <= i < |h'.flist|
      ensures NextFree(m', FlistAt(h', i)) == At(h'.flist, i + 1)
    {
      if i > 0 { KeptHeader(m, m', h, FlistAt(h, i - 1), a, a, a); }
    }
  }

  /** m' is memory after the block at a, just released, took in the free block at list position j. */
  ghost predicate Joined(m: seq<byte>, m': seq<byte>, h: Heap, a: nat, j: nat) {
    && Sound(h) && a in h.blocks && !h.blocks[a].free && j < |h.flist|
    && EndOf(h, a) == FlistAt(h, j)
    && Represents(m, Release(h, a), a)
    && ChangedAt(m, m', a, a, LinkTo(h, j, a))
    && Describes(m', a, Block(h.blocks[a].size + HEADER + h.blocks[EndOf(h, a)].size, true))
    && (if j == 0 then NextFree(m', a) == At(h.flist, 1)
        else NextFree(m', a) == h.flist[0] && NextFree(m', FlistAt(h, j - 1)) == At(h.flist, j + 1))
  }

  lemma JoinSound(h: Heap, a: nat)
    requires Sound(h) && a in h.blocks && !h.blocks[a].free
    requires EndOf(h, a) in h.blocks && h.blocks[EndOf(h, a)].free
    ensures Sound(Join(h, a))
  {
    hide Aligned, BlocksOk, ListOk, Without;
    JoinBlocksOk(h, Join(h, a), a);
    JoinListOk(h, a);
  }

  /** The joined block's list: position 0 is a, later positions skip j. */
  lemma JoinedList(h: Heap, a: nat, j: nat)
    requires Sound(h) && a in h.blocks && !h.blocks[a].free && j < |h.flist| && EndOf(h, a) == FlistAt(h, j)
    ensures Join(h, a).flist == [a] + h.flist[..j] + h.flist[j + 1..]
  {
    hide BlocksOk;
    DistinctAt(h.flist, IndexOf(h.flist, h.flist[j]), j);
  }

  lemma JoinedHeaders(m: seq<byte>, m': seq<byte>, h: Heap, a: nat, j: nat)
    requires Joined(m, m', h, a, j) && Sound(Join(h, a))
    ensures InMemory(m', Join(h, a)) && HeadersOk(m', Join(h, a))
  {
    hide Describes, Aligned, BlocksOk, ListOk, NextFree, Without;
    var h' := Join(h, a);
    Inside(h');
    forall b | b in h'.blocks
      ensures Describes(m', b, h'.blocks[b])
    {
      if b != a { KeptHeader(m, m', Release(h, a), b, a, a, LinkTo(h, j, a)); }
    }
  }

  lemma JoinedLinks(m: seq<byte>, m': seq<byte>, h: Heap, a: nat, j: nat)
    requires Joined(m, m', h, a, j) && Sound(Join(h, a)) && InMemory(m', Join(h, a))
    ensures LinksOk(m', Join(h, a), a)
  {
    hide Describes, Aligned, BlocksOk, NextFree, Without, Join;
    var h' := Join(h, a);
    Inside(h');
    JoinedList(h, a, j);
    forall i | 0 <= i < |h'.flist|
      ensures NextFree(m', FlistAt(h', i)) == At(h'.flist, i + 1)
    {
      if i > 0 {
        JoinedLink(m, m', h, a, j, if i - 1 < j then i - 1 else i);
      }
    }
  }

  /** The link of the free block at position q of the old list. */
  lemma JoinedLink(m: seq<byte>, m': seq<byte>, h: Heap, a: nat, j: nat, q: nat)
    requires Joined(m, m', h, a, j) && q < |h.flist| && q != j
    ensures NextFree(m', FlistAt(h, q)) == At(h.flist, if q + 1 == j then j + 1 else q + 1)
  {
    hide Describes, Aligned, BlocksOk, NextFree;
    var r := Release(h, a);
    DistinctAt(h.flist, q, j);
    if q + 1 != j {
      if j > 0 { DistinctAt(h.flist, q, j - 1); }
      assert r.flist[q + 1] == h.flist[q];
      assert NextFree(m, FlistAt(r, q + 1)) == At(r.flist, q + 2);
      KeptHeader(m, m', r, FlistAt(r, q + 1), a, a, LinkTo(h, j, a));
    }
  }

  lemma JoinRepresents(m: seq<byte>, m': seq<byte>, h: Heap, a: nat, j: nat)
    requires Joined(m, m', h, a, j)
    ensures Represents(m', Join(h, a), a)
  {
    hide Describes, Aligned, BlocksOk, NextFree, HeadersOk, LinksOk;
    JoinSound(h, a);
    JoinedHeaders(m, m', h, a, j);
    JoinedLinks(m, m', h, a, j);
  }

  // ----- What clients keep -----

  /** Every used block of h, header and payload, every byte of no block, and everything outside the heap is the same. */
  ghost predicate KeepsUsed(m: seq<byte>, m': seq<byte>, h: Heap) {
    && |m'| == |m|
    && (forall x :: 0 <= x < |m| && !(h.lo <= x < h.hi) ==> m'[x] == m[x])
    && (forall x :: 0 <= x < |m| && !Owned(h, x) ==> m'[x] == m[x])
    && (forall a :: a in h.blocks && !h.blocks[a].free ==> Agree(m, m', a, EndOf(h, a)))
  }

  /**
   Changes to the header of a free block, inside a free block, and to the link of a free block touch no client
   byte.
   */
  lemma ChangedKeepsUsed(m: seq<byte>, m': seq<byte>, h: Heap, b: nat, rest: nat, link: nat)
    requires Sound(h) && InMemory(m, h) && ChangedAt(m, m', b, rest, link)
    requires b in h.blocks && h.blocks[b].free && b <= rest && rest + 32 <= EndOf(h, b)
    requires link == b || (link >= 8 && link - 8 in h.blocks && h.blocks[link - 8].free)
    ensures KeepsUsed(m, m', h)
  {
    hide ListOk, Aligned, Owned;
    forall a | a in h.blocks && !h.blocks[a].free
      ensures Agree(m, m', a, EndOf(h, a))
    {
      Apart(h, a, b);
      if link != b { Apart(h, a, link - 8); }
    }
    forall x | 0 <= x < |m| && !Owned(h, x)
      ensures m'[x] == m[x]
    {
      NotInBlock(h, b, x);
      if link != b { NotInBlock(h, link - 8, x); }
    }
  }

  /** x lies in the header of some block. */
  ghost predicate InHeader(h: Heap, x: int) {
    exists a :: a in h.blocks && a <= x < a + HEADER
  }

  /** Only bytes of block headers differ, headers of blocks of h or of h'. */
  ghost predicate HeadersOnly(m: seq<byte>, m': seq<byte>, h: Heap, h': Heap) {
    |m'| == |m| && forall x :: 0 <= x < |m| && !InHeader(h, x) && !InHeader(h', x) ==> m'[x] == m[x]
  }

  lemma ChangedHeaders(m: seq<byte>, m': seq<byte>, h: Heap, h': Heap, b: nat, rest: nat, link: nat)
    requires ChangedAt(m, m', b, rest, link) && b in h.blocks && (rest in h.blocks || rest in h'.blocks)
    requires link == b || (link >= 8 && link - 8 in h.blocks)
    ensures HeadersOnly(m, m', h, h')
  {
    forall x | 0 <= x < |m| && !InHeader(h, x) && !InHeader(h', x)
      ensures m'[x] == m[x]
    {
      NotInHeader(h, b, x);
      if rest in h.blocks { NotInHeader(h, rest, x); } else { NotInHeader(h', rest, x); }
      if link != b { NotInHeader(h, link - 8, x); }
    }
  }

  lemma NotInHeader(h: Heap, a: nat, x: int)
    requires a in h.blocks && !InHeader(h, x)
    ensures !(a <= x < a + HEADER)
  {
  }

  lemma HeadersTwice(m: seq<byte>, m1: seq<byte>, m2: seq<byte>, h: Heap)
    requires HeadersOnly(m, m1, h, h) && HeadersOnly(m1, m2, h, h)
    ensures HeadersOnly(m, m2, h, h)
  {
  }

  /** A word inside a block, behind its header, lies in no header. */
  lemma PayloadWord(h: Heap, a: nat, x: int)
    requires Sound(h) && a in h.blocks && a + HEADER <= x < EndOf(h, a)
    ensures !InHeader(h, x)
  {
    hide ListOk, Aligned;
    forall b | b in h.blocks ensures !(b <= x < b + HEADER) {
      if b != a { Apart(h, a, b); }
    }
  }

  lemma NotInBlock(h: Heap, a: nat, x: int)
    requires a in h.blocks && !Owned(h, x)
    ensures !(a <= x < EndOf(h, a))
  {
  }

  /** Nothing changed. */
  lemma NothingChanged(m: seq<byte>, h: Heap)
    ensures KeepsUsed(m, m, h)
  {
  }

  lemma KeepsTwice(m: seq<byte>, m1: seq<byte>, m2: seq<byte>, h: Heap)
    requires KeepsUsed(m, m1, h) && KeepsUsed(m1, m2, h)
    ensures KeepsUsed(m, m2, h)
  {
  }

  /** Writing into the payload of a used block disturbs no header, no link and no other client byte. */
  lemma PayloadWrite(m: seq<byte>, m': seq<byte>, h: Heap, head: nat, a: nat)
    requires Represents(m, h, head) && a in h.blocks && !h.blocks[a].free && |m'| == |m|
    requires forall x :: 0 <= x < |m| && !(a + 32 <= x < EndOf(h, a)) ==> m'[x] == m[x]
    ensures Represents(m', h, head)
    ensures h.lo <= a && EndOf(h, a) <= h.hi
    ensures forall b :: b in h.blocks && b != a ==> Agree(m, m', b, EndOf(h, b))
  {
    hide Magic, Size, NextFree, Flags, ListOk, Aligned;
    forall b | b in h.blocks
      ensures Describes(m', b, h.blocks[b]) && NextFree(m', b) == NextFree(m, b)
      ensures b != a ==> Agree(m, m', b, EndOf(h, b))
    {
      if b != a { Apart(h, b, a); }
      assert Describes(m, b, h.blocks[b]);
      SameHeader(m, m', b);
    }
  }

  /** No byte pattern after the block at a could be taken for a free header: a header is there, or none is faked. */
  ghost predicate NoLookalike(m: seq<byte>, h: Heap, a: nat)
    requires Sound(h) && InMemory(m, h) && a in h.blocks
  {
    NoGapAfter(h, a) || U32(m, EndOf(h, a)) != MAGIC_FREE
  }

  /** The first bytes of a gap belong to no block, and lie in memory. */
  lemma GapBytes(h: Heap, a: nat)
    requires Sound(h) && a in h.blocks && !NoGapAfter(h, a)
    ensures EndOf(h, a) + 4 <= h.hi
    ensures forall x :: EndOf(h, a) <= x < EndOf(h, a) + 4 ==> !Owned(h, x)
  {
    hide ListOk;
    var e := EndOf(h, a);
    AlignedSum(a, h.blocks[a].size);
    AlignedSum(a + HEADER, h.blocks[a].size);
    NextAligned(e, h.hi);
    forall b | b in h.blocks ensures EndOf(h, b) <= e || e + 4 <= b {
      if e < b { NextAligned(e, b); }
      hide Aligned;
      assert b == a || b < a || a < b;
    }
  }

  /** Aligned addresses are 16 bytes apart. */
  lemma NextAligned(x: nat, y: nat)
    requires Aligned(x) && Aligned(y) && x < y
    ensures x + ALIGNMENT <= y
  {
  }

  /** Writing behind a gap's start disturbs no header, no link and no block. */
  lemma GapWrite(m: seq<byte>, m': seq<byte>, h: Heap, head: nat, a: nat)
    requires Represents(m, h, head) && a in h.blocks && !NoGapAfter(h, a) && |m'| == |m|
    requires forall x :: 0 <= x < |m| && !(EndOf(h, a) <= x < EndOf(h, a) + 4) ==> m'[x] == m[x]
    ensures Represents(m', h, head) && KeepsBlocks(m, m', h)
  {
    hide Magic, Size, NextFree, Flags, ListOk, Aligned, Owned;
    GapBytes(h, a);
    forall b | b in h.blocks
      ensures Describes(m', b, h.blocks[b]) && NextFree(m', b) == NextFree(m, b) && Agree(m, m', b, EndOf(h, b))
    {
      BlockApart(h, b, EndOf(h, a));
      assert Describes(m, b, h.blocks[b]);
      SameHeader(m, m', b);
    }
  }

  /** Four bytes of no block lie before a block or behind it. */
  lemma BlockApart(h: Heap, b: nat, e: nat)
    requires b in h.blocks && forall x :: e <= x < e + 4 ==> !Owned(h, x)
    ensures b + HEADER <= EndOf(h, b) && (EndOf(h, b) <= e || e + 4 <= b)
  {
    var x := if b <= e then e else b;
    assert e <= x < e + 4 ==> !Owned(h, x);
    assert b <= x < EndOf(h, b) ==> Owned(h, x);
  }

  ghost predicate KeepsBlocks(m: seq<byte>, m': seq<byte>, h: Heap) {
    forall b :: b in h.blocks ==> Agree(m, m', b, EndOf(h, b))
  }

  /**
   Where a used block is followed by a gap, the same heap may be held by memory in which the gap reads as a free
   block.
   */
  lemma LookalikePossible(m: seq<byte>, h: Heap, head: nat, a: nat) returns (m': seq<byte>)
    requires Represents(m, h, head) && a in h.blocks && !NoGapAfter(h, a)
    ensures Represents(m', h, head) && KeepsBlocks(m, m', h) && !NoLookalike(m', h, a)
  {
    hide BlocksOk, ListOk, Aligned, Owned, HeadersOk, LinksOk;
    GapBytes(h, a);
    var e := EndOf(h, a);
    m' := m[..e] + Bytes4(MAGIC_FREE) + m[e + 4..];
    assert m'[e..e + 4] == Bytes4(MAGIC_FREE);
    GapWrite(m, m', h, head, a);
    Bytes4Law(m', e, MAGIC_FREE);
  }

  // ----- The integrity check -----

  /** next_block at b, as heap_check computes it from the bytes. */
  function NextOf(m: seq<byte>, b: nat): nat
    requires b + 32 <= |m|
  {
    b + HEADER + Size(m, b)
  }

  predicate GoodMagic(m: seq<byte>, b: nat)
    requires b + 32 <= |m|
  {
    Magic(m, b) == MAGIC_FREE || Magic(m, b) == MAGIC_USED
  }

  /** Bytes and number of the used blocks a walk over the headers meets from b on, up to the first bad magic. */
  function UsedFrom(m: seq<byte>, b: nat, hi: nat): (nat, nat)
    requires hi + 32 <= |m|
    decreases hi - b
  {
    if b >= hi || !GoodMagic(m, b) then (0, 0)
    else
      var (bytes, blocks) := UsedFrom(m, NextOf(m, b), hi);
      if Magic(m, b) == MAGIC_USED then (HEADER + Size(m, b) + bytes, blocks + 1) else (bytes, blocks)
  }

  /** path leads from block to block through headers with a valid magic, and ends exactly at hi. */
  ghost predicate GoodPath(m: seq<byte>, path: seq<nat>, from: nat, hi: nat)
    requires hi + 32 <= |m|
  {
    && |path| > 0 && path[0] == from && path[|path| - 1] == hi
    && forall i :: 0 <= i < |path| - 1 ==> path[i] < hi && GoodMagic(m, path[i]) && path[i + 1] == NextOf(m, path[i])
  }

  ghost predicate HasPath(m: seq<byte>, from: nat, hi: nat)
    requires hi + 32 <= |m|
  {
    exists path :: GoodPath(m, path, from, hi)
  }

  /** Any good path starts with the step heap_check takes. */
  lemma PathStep(m: seq<byte>, path: seq<nat>, b: nat, hi: nat)
    requires hi + 32 <= |m| && b < hi && GoodPath(m, path, b, hi)
    ensures GoodMagic(m, b) && |path| > 1 && GoodPath(m, path[1..], NextOf(m, b), hi) && NextOf(m, b) <= hi
  {
    hide GoodMagic, NextOf;
    PathGrows(m, path, b, hi);
  }

  lemma {:induction false} PathGrows(m: seq<byte>, path: seq<nat>, b: nat, hi: nat)
    requires hi + 32 <= |m| && GoodPath(m, path, b, hi)
    ensures b <= hi && (|path| > 1 ==> path[1] <= hi)
    decreases |path|
  {
    if |path| > 1 {
      PathGrows(m, path[1..], path[1], hi);
    }
  }

  lemma PathExtend(m: seq<byte>, path: seq<nat>, b: nat, hi: nat)
    requires hi + 32 <= |m| && b < hi && GoodMagic(m, b) && GoodPath(m, path, NextOf(m, b), hi)
    ensures GoodPath(m, [b] + path, b, hi)
  {
  }

  /** On a tiled heap the check's walk is a good path from any block. */
  lemma {:induction false} TiledPath(m: seq<byte>, h: Heap, head: nat, a: nat) returns (path: seq<nat>)
    requires Represents(m, h, head) && Tiled(h) && (a in h.blocks || a == h.hi)
    ensures a <= h.hi && GoodPath(m, path, a, h.hi)
    decreases h.hi - a
  {
    hide HeadersOk, LinksOk, ListOk, Aligned, Magic, Size, Flags;
    if a !in h.blocks {
      path := [a];
    } else {
      BlockFields(m, h, head, a);
      path := TiledPath(m, h, head, EndOf(h, a));
      PathExtend(m, path, a, h.hi);
      path := [a] + path;
    }
  }
}
