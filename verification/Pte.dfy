/** Page-table entries and virtual-address fields of the 4-level x86-64 format. */
module Pte {
  import opened Bits

  const PRESENT: nat := 0x1
  const WRITE: nat := 0x2
  const USER: nat := 0x4
  const ACCESSED: nat := 0x20
  const HUGE: nat := 0x80
  const KERNEL_RW: u64 := 0x3
  const MMIO: u64 := 0x1B

  /** Bits 12..51, the physical page address inside an entry. */
  const ADDR_MASK: nat := 0x000F_FFFF_FFFF_F000

  /** The bits that say whether a page is writable, open to user code, cached, and executable. */
  const WRITE_BIT: nat := 1
  const USER_BIT: nat := 2
  const WRITE_THROUGH_BIT: nat := 3
  const NO_CACHE_BIT: nat := 4
  const NO_EXECUTE_BIT: nat := 63

  predicate Present(e: nat) {
    And(e, PRESENT) != 0
  }

  predicate Huge(e: nat) {
    And(e, HUGE) != 0
  }

  /** The physical page address an entry holds. */
  function Frame(e: nat): nat {
    And(e, ADDR_MASK)
  }

  /** The entry that links a table to a lower-level table at phys. */
  function LinkEntry(phys: nat): nat {
    Or(Or(Or(phys, PRESENT), WRITE), USER)
  }

  /** The entry once the processor has walked through it. */
  function Touched(e: nat): nat {
    Or(e, ACCESSED)
  }

  /** e links to the table at phys: as it was written, or with the accessed bit since set. */
  predicate IsLink(e: nat, phys: nat) {
    e == LinkEntry(phys) || e == Touched(LinkEntry(phys))
  }

  /** The entry that maps a page to phys. */
  function LeafEntry(phys: u64, flags: u64): u64 {
    OnesValues();
    OrBound(Frame(phys), flags, 64);
    OrBound(Or(Frame(phys), flags), PRESENT, 64);
    Or(Or(Frame(phys), flags), PRESENT)
  }

  predicate PageAddress(a: nat) {
    a % 4096 == 0 && a < TWO_52
  }

  function Pml4Index(v: nat): (i: nat) ensures i < 512 { v / 0x80_0000_0000 % 512 }
  function PdptIndex(v: nat): (i: nat) ensures i < 512 { v / 0x4000_0000 % 512 }
  function PdIndex(v: nat): (i: nat) ensures i < 512 { v / 0x20_0000 % 512 }
  function PtIndex(v: nat): (i: nat) ensures i < 512 { v / 0x1000 % 512 }

  /** The 36-bit virtual page number, bits 12..47 of an address. */
  function Vpn(v: nat): nat {
    v / 0x1000 % 0x10_0000_0000
  }

  lemma Mod36(p: nat, t: nat, d: nat)
    requires p == t * 0x10_0000_0000 + d && d < 0x10_0000_0000
    ensures p % 0x10_0000_0000 == d
  {
  }

  lemma ShiftAgain(v: nat)
    ensures v / 0x20_0000 == v / 0x1000 / 512
    ensures v / 0x4000_0000 == v / 0x20_0000 / 512
    ensures v / 0x80_0000_0000 == v / 0x4000_0000 / 512
  {
  }

  /** The four table indices of an address are the base-512 digits of its page number. */
  lemma VpnDigits(v: nat)
    ensures Vpn(v) == ((Pml4Index(v) * 512 + PdptIndex(v)) * 512 + PdIndex(v)) * 512 + PtIndex(v)
  {
    ShiftAgain(v);
    var p := v / 0x1000;
    var q := p / 512;
    var r := q / 512;
    var s := r / 512;
    Digits(p, q, r, s);
    var d := ((s % 512 * 512 + r % 512) * 512 + q % 512) * 512 + p % 512;
    Mod36(p, s / 512, d);
  }

  lemma Digits(p: nat, q: nat, r: nat, s: nat)
    requires q == p / 512 && r == q / 512 && s == r / 512
    ensures p == s / 512 * 0x10_0000_0000 + (((s % 512 * 512 + r % 512) * 512 + q % 512) * 512 + p % 512)
  {
    assert p == q * 512 + p % 512;
    assert q == r * 512 + q % 512;
    assert r == s * 512 + r % 512;
    assert s == s / 512 * 512 + s % 512;
  }

  /** Two addresses name the same page exactly when they agree on all four indices. */
  lemma SamePage(v: nat, w: nat)
    ensures Vpn(v) == Vpn(w) <==>
            Pml4Index(v) == Pml4Index(w) && PdptIndex(v) == PdptIndex(w) &&
            PdIndex(v) == PdIndex(w) && PtIndex(v) == PtIndex(w)
  {
    VpnDigits(v);
    VpnDigits(w);
  }

  lemma FrameShape(e: nat)
    ensures PageAddress(Frame(e)) && Frame(e) <= e
  {
    hide And;
    AndHigh12(e, 0xFF_FFFF_FFFF);
  }

  /** Masking keeps exactly the page-aligned addresses below 2^52. */
  lemma FrameFixed(p: nat)
    ensures Frame(p) == p <==> PageAddress(p)
  {
    FrameShape(p);
    if PageAddress(p) {
      hide And;
      AndHigh12(p, 0xFF_FFFF_FFFF);
      OnesValues();
      AndOnes(p / 4096, 40);
    }
  }

  lemma PresentIsOdd(e: nat)
    ensures Present(e) <==> e % 2 == 1
  {
    AndStep(e, 1);
  }

  /** A link entry is present, is not a huge-page entry, and gives its table back. */
  lemma LinkLaw(p: nat)
    requires PageAddress(p)
    ensures LinkEntry(p) == p + 7
    ensures Present(LinkEntry(p)) && !Huge(LinkEntry(p)) && Frame(LinkEntry(p)) == p
  {
    hide And, Or, LinkEntry;
    LinkValue(p);
    LowBits(p, 7, PRESENT);
    LowBits(p, 7, HUGE);
    SevenBits();
    assert Frame(p + 7) == p by {
      AndHigh12(p + 7, 0xFF_FFFF_FFFF);
      AndHigh12(p, 0xFF_FFFF_FFFF);
      FrameFixed(p);
    }
  }

  /**
   The accessed bit changes neither what a link entry links to nor that it does; setting it twice is setting it
   once.
   */
  lemma TouchedLaw(p: nat)
    requires PageAddress(p)
    ensures Touched(LinkEntry(p)) == p + 0x27 == Touched(Touched(LinkEntry(p)))
    ensures Present(p + 0x27) && !Huge(p + 0x27) && Frame(p + 0x27) == p
  {
    hide And, Or, LinkEntry;
    LinkValue(p);
    TouchedValue(p);
    LowBits(p, 0x27, PRESENT);
    LowBits(p, 0x27, HUGE);
    TouchedBits();
    assert Frame(p + 0x27) == p by {
      AndHigh12(p + 0x27, 0xFF_FFFF_FFFF);
      AndHigh12(p, 0xFF_FFFF_FFFF);
      FrameFixed(p);
    }
  }

  lemma TouchedBits()
    ensures And(0x27, PRESENT) == 1 && And(0x27, HUGE) == 0
  {
    assert And(1, 4) == 0 && And(2, 8) == 0 && And(4, 16) == 0 && And(9, 32) == 0 && And(19, 64) == 0;
  }

  lemma TouchedTwice()
    ensures Or(7, ACCESSED) == 0x27 == Or(0x27, ACCESSED)
  {
    assert Or(1, 8) == 9 && Or(3, 16) == 19;
    assert Or(1, 1) == 1 && Or(2, 2) == 2 && Or(4, 4) == 4 && Or(9, 8) == 9 && Or(19, 16) == 19;
  }

  lemma TouchedValue(p: nat)
    requires PageAddress(p)
    ensures Touched(p + 7) == p + 0x27 == Touched(p + 0x27)
  {
    TouchedTwice();
    hide And, Or;
    OrHigh12(p / 4096, 7);
    OrHigh12(p / 4096, 0x27);
    OrAssociative(p, 7, ACCESSED);
    OrAssociative(p, 0x27, ACCESSED);
  }

  /** A word that links to p, touched or not. */
  lemma IsLinkLaw(e: nat, p: nat)
    requires PageAddress(p) && IsLink(e, p)
    ensures Present(e) && !Huge(e) && Frame(e) == p && IsLink(Touched(e), p) && Touched(e) < TWO_64
  {
    hide Present, Huge, Frame, Or, LinkEntry;
    LinkLaw(p);
    TouchedLaw(p);
  }

  lemma SevenBits()
    ensures And(7, PRESENT) == 1 && And(7, HUGE) == 0
  {
  }

  lemma LinkValue(p: nat)
    requires PageAddress(p)
    ensures LinkEntry(p) == p + 7
  {
    OrAssociative(Or(p, PRESENT), WRITE, USER);
    OrAssociative(p, PRESENT, Or(WRITE, USER));
    assert Or(PRESENT, Or(WRITE, USER)) == 7;
    OrHigh12(p / 4096, 7);
  }

  /** Flag bits are read from the offset below the page address. */
  lemma LowBits(p: nat, b: nat, m: nat)
    requires p % 4096 == 0 && b < 4096 && m < 4096
    ensures And(p + b, m) == And(b, m)
  {
    OrHigh12(p / 4096, b);
    AndOverOr(p, b, m);
    AndLow12(p / 4096, m);
  }

  lemma ZeroAbsent()
    ensures !Present(0) && !Huge(0) && Frame(0) == 0
  {
  }

  /** A mapped page's entry is present whatever the flags. */
  lemma LeafPresent(phys: u64, flags: u64)
    ensures Present(LeafEntry(phys, flags))
  {
    hide Frame;
    PresentIsOdd(LeafEntry(phys, flags));
    OrStep(Or(Frame(phys), flags), PRESENT);
  }

  lemma MaskBits(k: nat)
    ensures Bit(ADDR_MASK, k) <==> 12 <= k < 52
  {
    OnesValues();
    assert Shifted(0xFF_FFFF_FFFF, 4) == 0xFF_FFFF_FFFF0;
    assert Shifted(0xFF_FFFF_FFFF, 8) == 0xFF_FFFF_FFFF00;
    assert Shifted(0xFF_FFFF_FFFF, 12) == ADDR_MASK;
    ShiftedBits(0xFF_FFFF_FFFF, 12, k);
    if k >= 12 { OnesBits(40, k - 12); }
  }

  lemma PresentBit(k: nat)
    ensures Bit(PRESENT, k) <==> k == 0
  {
    if k > 0 { BitOfZero(k - 1); }
  }

  /**
   The entry bit by bit: bit 0 is set, bits 12 to 51 are those of the physical address and of the flags together,
   and every other bit is that of the flags.
   */
  lemma LeafBits(phys: u64, flags: u64, k: nat)
    ensures Bit(LeafEntry(phys, flags), k) <==>
            if k == 0 then true
            else if 12 <= k < 52 then Bit(phys, k) || Bit(flags, k)
            else Bit(flags, k)
  {
    hide And, Or, Bit;
    BitLaw(Or(Frame(phys), flags), PRESENT, k);
    BitLaw(Frame(phys), flags, k);
    BitLaw(phys, ADDR_MASK, k);
    MaskBits(k);
    PresentBit(k);
  }

  /** A link entry forbids nothing: it is writable, open to user code, and executable. */
  lemma LinkRights(e: nat, p: nat)
    requires PageAddress(p) && IsLink(e, p)
    ensures Bit(e, WRITE_BIT) && Bit(e, USER_BIT) && !Bit(e, NO_EXECUTE_BIT)
  {
    hide Or, LinkEntry, Ones;
    LinkLaw(p);
    TouchedLaw(p);
    OnesValues();
    assert e == p + 7 || e == p + 0x27;
    OrHigh12(p / 4096, e - p);
    forall k ensures Bit(e, k) <==> Bit(p, k) || Bit(e - p, k) { BitLaw(p, e - p, k); }
    LinkFlags();
    SmallWord(e);
  }

  lemma LinkFlags()
    ensures Bit(7, WRITE_BIT) && Bit(7, USER_BIT) && Bit(0x27, WRITE_BIT) && Bit(0x27, USER_BIT)
  {
    assert Bit(3, 0) && Bit(3, 1) && Bit(0x13, 0) && Bit(0x13, 1);
  }

  lemma SmallWord(e: nat)
    requires e < 0x1000_0000_0000_0000
    ensures !Bit(e, NO_EXECUTE_BIT)
  {
    OnesValue60();
    BitsBelow(e, 60, NO_EXECUTE_BIT);
  }

  lemma OnesValue60()
    ensures Ones(60) == 0xFFF_FFFF_FFFF_FFFF
  {
    assert Ones(10) == 0x3FF;
    assert Ones(20) == 0xF_FFFF;
    assert Ones(30) == 0x3FFF_FFFF;
    assert Ones(40) == 0xFF_FFFF_FFFF;
    assert Ones(50) == 0x3_FFFF_FFFF_FFFF;
  }

  /** The entry gives the physical address back exactly when that address is a page address and
      the flags set no address bit that the page address lacks. */
  lemma LeafLaw(phys: u64, flags: u64)
    ensures Frame(LeafEntry(phys, flags)) == Or(Frame(phys), Frame(flags))
    ensures Frame(LeafEntry(phys, flags)) == phys <==>
            PageAddress(phys) && Or(phys, Frame(flags)) == phys
  {
    hide And, Or;
    var a := Frame(phys);
    AndOverOr(Or(a, flags), PRESENT, ADDR_MASK);
    AndOverOr(a, flags, ADDR_MASK);
    AndIdempotent(phys, ADDR_MASK);
    assert Frame(PRESENT) == 0 by { AndHigh12(PRESENT, 0xFF_FFFF_FFFF); AndZero(0xFF_FFFF_FFFF); }
    OrZero(Or(a, Frame(flags)));
    assert Frame(LeafEntry(phys, flags)) == Or(a, Frame(flags));
    if Or(a, Frame(flags)) == phys {
      AndOverOr(a, Frame(flags), ADDR_MASK);
      AndIdempotent(flags, ADDR_MASK);
      assert Frame(phys) == phys;
    }
    FrameFixed(phys);
  }
}
