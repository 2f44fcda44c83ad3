/** The decoder of kernel/drivers/keyboard.c: scancodes of set 1 to keys, and what it computes over a whole stream. */
module Scancodes {
  import opened Words

  const PREFIX: byte := 0xE0
  const SHIFT: set<int> := {0x2A, 0x36}
  const CTRL: set<int> := {0x1D}
  const ALT: set<int> := {0x38}
  const CAPS: set<int> := {0x3A}

  /** The two layouts, sixteen codes a row, each up to its last character; \0 stands for none. */
  function LowerRow(row: nat): string {
    match row
    case 0 => "\0\U{1B}1234567890-=\U{8}\t"
    case 1 => "qwertyuiop[]\n\0as"
    case 2 => "dfghjkl;'`\0\\zxcv"
    case 3 => "bnm,./\0*\0 "
    case 4 => "\0\0\0\0\0\0\0789-456+1"
    case 5 => "230."
    case _ => ""
  }

  function UpperRow(row: nat): string {
    match row
    case 0 => "\0\U{1B}!@#$%^&*()_+\U{8}\t"
    case 1 => "QWERTYUIOP{}\n\0AS"
    case 2 => "DFGHJKL:\"~\0|ZXCV"
    case 3 => "BNM<>?\0*\0 "
    case 4 => "\0\0\0\0\0\0\0789-456+1"
    case 5 => "230."
    case _ => ""
  }

  datatype Mods = Mods(shift: bool, ctrl: bool, alt: bool, caps: bool, extended: bool)

  const NONE := Mods(false, false, false, false, false)

  /** The entry of a layout; 0 stands for no character. */
  function Entry(upper: bool, code: nat): nat {
    var row := if upper then UpperRow(code / 16) else LowerRow(code / 16);
    if code % 16 < |row| then row[code % 16] as nat else 0
  }

  /** The character of a key press, if it has one. */
  function Typed(upper: bool, ctrl: bool, code: nat): (ks: seq<nat>)
    ensures |ks| <= 1
  {
    var c := Entry(upper, code);
    var d: nat := if ctrl && 'a' as nat <= c <= 'z' as nat then c - 'a' as nat + 1 else c;
    if d == 0 then [] else [d]
  }

  /** The letter on a key, by the three rows of the keyboard. */
  function LetterOn(code: nat): nat {
    if 0x10 <= code <= 0x19 then "qwertyuiop"[code - 0x10] as nat
    else if 0x1E <= code <= 0x26 then "asdfghjkl"[code - 0x1E] as nat
    else if 0x2C <= code <= 0x32 then "zxcvbnm"[code - 0x2C] as nat
    else 0
  }

  /** The characters on another key, plain and shifted; 0 for none. */
  function SignsOn(code: nat): (nat, nat) {
    if 0x02 <= code <= 0x0B then ("1234567890"[code - 2] as nat, "!@#$%^&*()"[code - 2] as nat)
    else if 0x47 <= code <= 0x53 then ("789-456+1230."[code - 0x47] as nat, "789-456+1230."[code - 0x47] as nat)
    else
    match code
    case 0x01 => (27, 27)
    case 0x0C => ('-' as nat, '_' as nat)
    case 0x0D => ('=' as nat, '+' as nat)
    case 0x0E => (8, 8)
    case 0x0F => (9, 9)
    case 0x1A => ('[' as nat, '{' as nat)
    case 0x1B => (']' as nat, '}' as nat)
    case 0x1C => (10, 10)
    case 0x27 => (';' as nat, ':' as nat)
    case 0x28 => ('\'' as nat, '"' as nat)
    case 0x29 => ('`' as nat, '~' as nat)
    case 0x2B => ('\\' as nat, '|' as nat)
    case 0x33 => (',' as nat, '<' as nat)
    case 0x34 => ('.' as nat, '>' as nat)
    case 0x35 => ('/' as nat, '?' as nat)
    case 0x37 => ('*' as nat, '*' as nat)
    case 0x39 => (' ' as nat, ' ' as nat)
    case _ => (0, 0)
  }

  /**
   What each key types: a letter small, capital 32 below it, or with control held and no capital its number in the
   alphabet; any other key the sign on it, plain or shifted, whatever control does; keys without a sign nothing.
   */
  lemma TypedLaw(upper: bool, ctrl: bool, code: nat)
    ensures var letter, signs := LetterOn(code), SignsOn(code);
            Typed(upper, ctrl, code) ==
            if letter != 0 then [if upper then letter - 32 else if ctrl then letter - 96 else letter]
            else var sign := if upper then signs.1 else signs.0; if sign == 0 then [] else [sign]
  {
    hide Entry;
    LayoutLaw(code);
    LetterRange(code);
  }

  lemma LetterRange(code: nat)
    ensures LetterOn(code) != 0 ==> 'a' as nat <= LetterOn(code) <= 'z' as nat
    ensures var (plain, shifted) := SignsOn(code);
            !('a' as nat <= plain <= 'z' as nat) && !('a' as nat <= shifted <= 'z' as nat)
  {
  }

  /** The two layouts hold the letters, in both sizes, and the signs. */
  lemma LayoutLaw(code: nat)
    ensures KeyCap(code)
  {
    if code < 16 {
      Row0(code);
    } else if code < 32 {
      Row1(code);
    } else if code < 48 {
      Row2(code);
    } else if code < 64 {
      Row3(code);
    } else if code < 80 {
      Row4(code);
    } else {
      Row5(code);
    }
  }

  ghost predicate KeyCap(code: nat) {
    && Entry(false, code) == (if LetterOn(code) != 0 then LetterOn(code) else SignsOn(code).0)
    && Entry(true, code) == (if LetterOn(code) != 0 then LetterOn(code) - 32 else SignsOn(code).1)
  }

  lemma Row0(code: nat)
    requires code < 16
    ensures KeyCap(code)
  {
  }

  lemma Row1(code: nat)
    requires 16 <= code < 32
    ensures KeyCap(code)
  {
  }

  lemma Row2(code: nat)
    requires 32 <= code < 48
    ensures KeyCap(code)
  {
  }

  lemma Row3(code: nat)
    requires 48 <= code < 64
    ensures KeyCap(code)
  {
  }

  lemma Row4(code: nat)
    requires 64 <= code < 80
    ensures KeyCap(code)
  {
  }

  lemma Row5(code: nat)
    requires 80 <= code
    ensures KeyCap(code)
  {
  }

  /** The four arrow keys push 0x100 to 0x103: up, down, left, right; no other prefixed key pushes anything. */
  lemma ArrowLaw(sc: byte)
    ensures Arrow(sc) == if sc == 0x48 then [0x100] else if sc == 0x50 then [0x101] else if sc == 0x4B then [0x102]
                         else if sc == 0x4D then [0x103] else []
  {
  }

  /** The pseudo-character of an arrow key; other prefixed keys have none. */
  function Arrow(sc: byte): (ks: seq<nat>)
    ensures |ks| <= 1
  {
    match sc
    case 0x48 => [0x100]
    case 0x50 => [0x101]
    case 0x4B => [0x102]
    case 0x4D => [0x103]
    case _ => []
  }

  /** keyboard_handler without the log: the new modifiers, and the keys it pushes. */
  function Handle(m: Mods, sc: byte): (r: (Mods, seq<nat>))
    ensures |r.1| <= 1
  {
    var released, code := sc >= 0x80, sc % 0x80;
    if sc == PREFIX then (m.(extended := true), [])
    else if m.extended then (m.(extended := false), if released then [] else Arrow(code))
    else if code in SHIFT then (m.(shift := !released), [])
    else if code in CTRL then (m.(ctrl := !released), [])
    else if code in ALT then (m.(alt := !released), [])
    else if code in CAPS then (if released then m else m.(caps := !m.caps), [])
    else if released then (m, [])
    else (m, Typed(m.shift != m.caps, m.ctrl, code))
  }

  /** The branches of the handler. */
  lemma HandleCases(m: Mods, sc: byte)
    ensures sc == PREFIX ==> Handle(m, sc) == (m.(extended := true), [])
    ensures sc != PREFIX && m.extended ==>
              Handle(m, sc) == (m.(extended := false), if sc >= 0x80 then [] else Arrow(sc))
    ensures sc != PREFIX && !m.extended && sc % 0x80 !in {0x2A, 0x36, 0x1D, 0x38, 0x3A} ==>
              Handle(m, sc) == (m, if sc >= 0x80 then [] else Typed(m.shift != m.caps, m.ctrl, sc))
  {
    hide Typed, Arrow;
  }

  /** A modifier key types nothing and sets its own flag; caps lock turns over on presses only. */
  lemma ModifierLaw(m: Mods, released: bool, code: byte)
    requires code in {0x2A, 0x36, 0x1D, 0x38, 0x3A} && !m.extended
    ensures Handle(m, if released then code + 0x80 else code) ==
            (match code
             case 0x1D => m.(ctrl := !released)
             case 0x38 => m.(alt := !released)
             case 0x3A => m.(caps := m.caps != !released)
             case _ => m.(shift := !released), [])
  {
    hide Typed, Arrow;
  }

  /** The modifiers after a stream of scancodes from keyboard_init on, and every key pushed. */
  function After(scs: seq<byte>): (Mods, seq<nat>) {
    if scs == [] then (NONE, [])
    else
      var (m, keys) := After(scs[..|scs| - 1]);
      var (m', k) := Handle(m, scs[|scs| - 1]);
      (m', keys + k)
  }

  // ----- The stream read as a whole -----

  /** Byte i follows a prefix byte. */
  predicate Prefixed(scs: seq<byte>, i: nat)
    requires i < |scs|
  {
    i > 0 && scs[i - 1] == PREFIX
  }

  /** Byte i is a scancode of its own. */
  predicate Plain(scs: seq<byte>, i: nat)
    requires i < |scs|
  {
    scs[i] != PREFIX && !Prefixed(scs, i)
  }

  predicate Pressed(scs: seq<byte>, i: nat, keys: set<int>)
    requires i < |scs|
  {
    Plain(scs, i) && scs[i] < 0x80 && scs[i] in keys
  }

  predicate Lifted(scs: seq<byte>, i: nat, keys: set<int>)
    requires i < |scs|
  {
    Plain(scs, i) && scs[i] >= 0x80 && scs[i] - 0x80 in keys
  }

  /** One of the keys was pressed and none of them lifted since. */
  ghost predicate Held(scs: seq<byte>, keys: set<int>) {
    exists i :: 0 <= i < |scs| && Pressed(scs, i, keys) && forall j :: i < j < |scs| ==> !Lifted(scs, j, keys)
  }

  /** How often one of the keys was pressed. */
  ghost function Presses(scs: seq<byte>, keys: set<int>): nat {
    if scs == [] then 0
    else Presses(scs[..|scs| - 1], keys) + if Pressed(scs, |scs| - 1, keys) then 1 else 0
  }

  /** What byte i of the stream types, given the keys held and the locks set by the bytes before it. */
  ghost function KeyAt(scs: seq<byte>, i: nat): seq<nat>
    requires i < |scs|
  {
    if scs[i] >= 0x80 then []
    else if Prefixed(scs, i) then Arrow(scs[i])
    else if scs[i] in SHIFT + CTRL + ALT + CAPS then []
    else Typed(Held(scs[..i], SHIFT) != (Presses(scs[..i], CAPS) % 2 == 1), Held(scs[..i], CTRL), scs[i])
  }

  ghost function Keys(scs: seq<byte>): seq<nat> {
    if scs == [] then [] else Keys(scs[..|scs| - 1]) + KeyAt(scs, |scs| - 1)
  }

  ghost function ModsOf(scs: seq<byte>): Mods {
    Mods(Held(scs, SHIFT), Held(scs, CTRL), Held(scs, ALT), Presses(scs, CAPS) % 2 == 1,
         scs != [] && scs[|scs| - 1] == PREFIX)
  }

  lemma HeldStep(scs: seq<byte>, keys: set<int>)
    requires scs != []
    ensures var n := |scs| - 1;
            Held(scs, keys) <==> Pressed(scs, n, keys) || (Held(scs[..n], keys) && !Lifted(scs, n, keys))
  {
    var n := |scs| - 1;
    var old_ := scs[..n];
    assert forall i :: 0 <= i < n ==>
        Pressed(old_, i, keys) == Pressed(scs, i, keys) && Lifted(old_, i, keys) == Lifted(scs, i, keys);
    hide Pressed, Lifted;
    if Held(old_, keys) && !Lifted(scs, n, keys) {
      var i :| 0 <= i < n && Pressed(old_, i, keys) && forall j :: i < j < n ==> !Lifted(old_, j, keys);
      assert Pressed(scs, i, keys);
    }
    if Held(scs, keys) && !Pressed(scs, n, keys) {
      var i :| 0 <= i < |scs| && Pressed(scs, i, keys) && forall j :: i < j < |scs| ==> !Lifted(scs, j, keys);
      assert Pressed(old_, i, keys);
    }
  }

  /**
   Over any stream, the handler's five flags and the keys it pushes are those of the stream read as a
   whole: shift, control and alt say whether such a key was pressed and none lifted since, caps lock
   whether it was pressed an odd number of times; prefixed bytes never touch them; and each key is
   typed under the modifiers of the bytes before it.
   */
  lemma {:induction false} StreamDecoded(scs: seq<byte>)
    ensures After(scs) == (ModsOf(scs), Keys(scs))
    decreases |scs|
  {
    hide ModsOf, Handle, KeyAt;
    if scs == [] {
      Nothing();
    } else {
      StreamDecoded(scs[..|scs| - 1]);
      LastByte(scs);
    }
  }

  lemma Nothing()
    ensures ModsOf([]) == NONE
  {
  }

  /** The handler's step on the last byte is the step from one whole stream to the next. */
  lemma LastByte(scs: seq<byte>)
    requires scs != []
    ensures Handle(ModsOf(scs[..|scs| - 1]), scs[|scs| - 1]) == (ModsOf(scs), KeyAt(scs, |scs| - 1))
  {
    hide Held, Typed, Arrow, Pressed, Lifted, Handle, KeyAt;
    HeldStep(scs, SHIFT);
    HeldStep(scs, CTRL);
    HeldStep(scs, ALT);
    LastFields(scs);
  }

  lemma LastFields(scs: seq<byte>)
    requires scs != []
    ensures var n := |scs| - 1;
            var m := ModsOf(scs[..n]);
            var (m', k) := Handle(m, scs[n]);
            && k == KeyAt(scs, n)
            && m'.extended == (scs[n] == PREFIX)
            && m'.shift == (Pressed(scs, n, SHIFT) || (m.shift && !Lifted(scs, n, SHIFT)))
            && m'.ctrl == (Pressed(scs, n, CTRL) || (m.ctrl && !Lifted(scs, n, CTRL)))
            && m'.alt == (Pressed(scs, n, ALT) || (m.alt && !Lifted(scs, n, ALT)))
            && m'.caps == (if Pressed(scs, n, CAPS) then !m.caps else m.caps)
  {
    hide Held, Presses, Typed, Arrow, Handle;
    var n := |scs| - 1;
    var m := ModsOf(scs[..n]);
    HandleCases(m, scs[n]);
    if scs[n] != PREFIX && !m.extended && scs[n] % 0x80 in {0x2A, 0x36, 0x1D, 0x38, 0x3A} {
      ModifierLaw(m, scs[n] >= 0x80, scs[n] % 0x80);
    }
  }
}
