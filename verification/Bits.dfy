/** 64-bit machine words and the bitwise operators the page-table code uses on them. */
module Bits {

  const TWO_64: int := 0x1_0000_0000_0000_0000
  const TWO_52: int := 0x10_0000_0000_0000

  type u64 = x: int | 0 <= x < TWO_64

  /** Bitwise conjunction, bit by bit from the least significant end. */
  function And(a: nat, b: nat): (r: nat)
    ensures r <= a && r <= b
    decreases a
  {
    if a == 0 || b == 0 then 0
    else (if a % 2 == 1 && b % 2 == 1 then 1 else 0) + 2 * And(a / 2, b / 2)
  }

  /** Bitwise disjunction, bit by bit from the least significant end. */
  function Or(a: nat, b: nat): (r: nat)
    ensures a <= r && b <= r && r <= a + b
    decreases a + b
  {
    if a == 0 then b
    else if b == 0 then a
    else (if a % 2 == 1 || b % 2 == 1 then 1 else 0) + 2 * Or(a / 2, b / 2)
  }

  /** 2^k - 1, the word whose low k bits are set. */
  function Ones(k: nat): (r: nat) {
    if k == 0 then 0 else 1 + 2 * Ones(k - 1)
  }

  lemma AndStep(a: nat, b: nat)
    ensures And(a, b) % 2 == (if a % 2 == 1 && b % 2 == 1 then 1 else 0)
    ensures And(a, b) / 2 == And(a / 2, b / 2)
  {
  }

  lemma OrStep(a: nat, b: nat)
    ensures Or(a, b) % 2 == (if a % 2 == 1 || b % 2 == 1 then 1 else 0)
    ensures Or(a, b) / 2 == Or(a / 2, b / 2)
  {
  }

  lemma {:induction false} AndIdempotent(a: nat, m: nat)
    ensures And(And(a, m), m) == And(a, m)
    decreases a
  {
    if a != 0 && m != 0 { AndIdempotent(a / 2, m / 2); AndStep(a, m); AndStep(And(a, m), m);}
  }

  /** Masking distributes over disjunction. */
  lemma {:induction false} AndOverOr(a: nat, b: nat, m: nat)
    ensures And(Or(a, b), m) == Or(And(a, m), And(b, m))
    decreases m
  {
    if m != 0 {
      AndOverOr(a / 2, b / 2, m / 2);
      OrStep(a, b);
      AndStep(a, m);
      AndStep(b, m);
      AndStep(Or(a, b), m);
      OrStep(And(a, m), And(b, m));
    }
  }

  /** Disjunction cannot leave the range of words of k bits. */
  lemma {:induction false} OrBound(a: nat, b: nat, k: nat)
    requires a <= Ones(k) && b <= Ones(k)
    ensures Or(a, b) <= Ones(k)
  {
    if k > 0 && a != 0 && b != 0 { OrBound(a / 2, b / 2, k - 1); }
  }

  /** A word of k bits is unchanged by masking with its k ones. */
  lemma {:induction false} AndOnes(a: nat, k: nat)
    requires a <= Ones(k)
    ensures And(a, Ones(k)) == a
  {
    if k > 0 && a != 0 { AndOnes(a / 2, k - 1); AndStep(a, Ones(k)); }
  }

  lemma {:induction false} OrAssociative(a: nat, b: nat, c: nat)
    ensures Or(Or(a, b), c) == Or(a, Or(b, c))
    decreases a + b + c
  {
    if a != 0 && b != 0 && c != 0 {
      OrAssociative(a / 2, b / 2, c / 2);
      OrStep(a, b);
      OrStep(b, c);
      OrStep(Or(a, b), c);
      OrStep(a, Or(b, c));
    }
  }

  lemma OnesValues()
    ensures Ones(40) == 0xFF_FFFF_FFFF
    ensures Ones(64) == TWO_64 - 1
  {
    assert Ones(10) == 0x3FF;
    assert Ones(20) == 0xF_FFFF;
    assert Ones(30) == 0x3FFF_FFFF;
    assert Ones(40) == 0xFF_FFFF_FFFF;
    assert Ones(50) == 0x3_FFFF_FFFF_FFFF;
    assert Ones(60) == 0xFFF_FFFF_FFFF_FFFF;
  }

  lemma Doubled(a: nat)
    ensures 2 * a % 2 == 0 && 2 * a / 2 == a
  {
  }

  lemma Halved(x: nat)
    ensures x == 2 * (x / 2) + x % 2
  {
  }

  lemma AndHigh1(a: nat, m: nat)
    ensures And(a, 2 * m) == 2 * And(a / 2, m)
  {
    AndStep(a, 2 * m);
    hide And;
    Doubled(m);
    Halved(And(a, 2 * m));
  }

  lemma OrHigh1(a: nat, b: nat)
    ensures Or(2 * a, b) == 2 * Or(a, b / 2) + b % 2
  {
    OrStep(2 * a, b);
    hide Or;
    Doubled(a);
    Halved(Or(2 * a, b));
  }

  lemma AndHigh3(a: nat, m: nat)
    ensures And(a, 8 * m) == 8 * And(a / 8, m)
  {
    hide And;
    AndHigh1(a, 4 * m);
    AndHigh1(a / 2, 2 * m);
    AndHigh1(a / 4, m);
    assert a / 2 / 2 == a / 4 && a / 4 / 2 == a / 8;
  }

  lemma OrHigh3(a: nat, b: nat)
    ensures Or(8 * a, b) == 8 * Or(a, b / 8) + b % 8
  {
    hide Or;
    OrHigh1(4 * a, b);
    OrHigh1(2 * a, b / 2);
    OrHigh1(a, b / 4);
    assert b / 2 / 2 == b / 4 && b / 4 / 2 == b / 8;
  }

  /** A mask whose low twelve bits are clear acts on the page number alone. */
  lemma AndHigh12(a: nat, m: nat)
    ensures And(a, 4096 * m) == 4096 * And(a / 4096, m)
  {
    hide And;
    AndHigh3(a, 512 * m);
    AndHigh3(a / 8, 64 * m);
    AndHigh3(a / 64, 8 * m);
    AndHigh3(a / 512, m);
    assert a / 8 / 8 == a / 64 && a / 64 / 8 == a / 512 && a / 512 / 8 == a / 4096;
  }

  /** Joining a page address with an offset below the page size is addition. */
  lemma OrHigh12(a: nat, b: nat)
    requires b < 4096
    ensures Or(4096 * a, b) == 4096 * a + b
  {
    hide Or;
    OrHigh3(512 * a, b);
    OrHigh3(64 * a, b / 8);
    OrHigh3(8 * a, b / 64);
    OrHigh3(a, b / 512);
    assert b / 8 / 8 == b / 64 && b / 64 / 8 == b / 512 && b / 512 / 8 == 0;
    assert Or(a, 0) == a by { OrZero(a); }
  }

  /** Masking a page address with a mask below the page size leaves nothing. */
  lemma AndLow12(a: nat, m: nat)
    requires m < 4096
    ensures And(4096 * a, m) == 0
  {
    hide And;
    AndLow3(512 * a, m);
    AndLow3(64 * a, m / 8);
    AndLow3(8 * a, m / 64);
    AndLow3(a, m / 512);
    assert m / 8 / 8 == m / 64 && m / 64 / 8 == m / 512 && m / 512 / 8 == 0;
    assert And(a, 0) == 0 by { AndZero(a); }
  }

  lemma AndLow1(a: nat, m: nat)
    ensures And(2 * a, m) == 2 * And(a, m / 2)
  {
    AndStep(2 * a, m);
  }

  lemma AndLow3(a: nat, m: nat)
    ensures And(8 * a, m) == 8 * And(a, m / 8)
  {
    hide And;
    AndLow1(4 * a, m);
    AndLow1(2 * a, m / 2);
    AndLow1(a, m / 4);
    assert m / 2 / 2 == m / 4 && m / 4 / 2 == m / 8;
  }

  // ----- Single bits -----

  /** Bit k of a word, counted from the lowest. */
  predicate Bit(w: nat, k: nat) {
    if k == 0 then w % 2 == 1 else Bit(w / 2, k - 1)
  }

  lemma {:induction false} BitOfZero(k: nat)
    ensures !Bit(0, k)
  {
    if k > 0 { BitOfZero(k - 1); }
  }

  /** Conjunction and disjunction of words are those of their bits. */
  lemma {:induction false} BitLaw(a: nat, b: nat, k: nat)
    ensures Bit(And(a, b), k) <==> Bit(a, k) && Bit(b, k)
    ensures Bit(Or(a, b), k) <==> Bit(a, k) || Bit(b, k)
    decreases k
  {
    AndStep(a, b);
    OrStep(a, b);
    if k > 0 { BitLaw(a / 2, b / 2, k - 1); }
  }

  /** The low n bits of a word of n ones are set and no others. */
  lemma {:induction false} OnesBits(n: nat, k: nat)
    ensures Bit(Ones(n), k) <==> k < n
    decreases n
  {
    if n == 0 {
      BitOfZero(k);
    } else {
      assert Ones(n) % 2 == 1 && Ones(n) / 2 == Ones(n - 1);
      if k > 0 { OnesBits(n - 1, k - 1); }
    }
  }

  /** A word of n bits has none beyond them. */
  lemma BitsBelow(w: nat, n: nat, k: nat)
    requires w <= Ones(n) && k >= n
    ensures !Bit(w, k)
  {
    hide And, Ones, Bit;
    AndOnes(w, n);
    BitLaw(w, Ones(n), k);
    OnesBits(n, k);
  }

  /** Doubling moves every bit one place up. */
  lemma ShiftedBit(w: nat, k: nat)
    ensures Bit(2 * w, k) <==> k > 0 && Bit(w, k - 1)
  {
  }

  /** Multiplying by 2^n, one doubling at a time, moves every bit n places up. */
  lemma {:induction false} ShiftedBits(w: nat, n: nat, k: nat)
    ensures Bit(Shifted(w, n), k) <==> k >= n && Bit(w, k - n)
    decreases n
  {
    if n > 0 {
      ShiftedBit(Shifted(w, n - 1), k);
      if k > 0 { ShiftedBits(w, n - 1, k - 1); }
    }
  }

  /** w * 2^n. */
  function Shifted(w: nat, n: nat): nat {
    if n == 0 then w else 2 * Shifted(w, n - 1)
  }

  lemma AndZero(a: nat)
    ensures And(a, 0) == 0 && And(0, a) == 0
  {
  }

  lemma OrZero(a: nat)
    ensures Or(a, 0) == a
  {
  }
}
