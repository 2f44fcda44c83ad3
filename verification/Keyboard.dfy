/** The keyboard driver's buffers as the code holds them: the key ring and the scancode log. */
module Keyboard {
  import opened KeyboardRing
  import opened Words
  import Scancodes

  const LOG_SIZE: nat := 16

  /** The last n elements of s, or all of them. */
  function Last(s: seq<nat>, n: nat): seq<nat> {
    if |s| <= n then s else s[|s| - n..]
  }

  lemma LastAppend(s: seq<nat>, x: nat, n: nat)
    requires n > 0
    ensures Last(Last(s, n) + [x], n) == Last(s + [x], n)
  {
  }

  /** A position of the circular log, counted on past its end. */
  function Round(x: nat): (k: nat)
    requires x < 3 * LOG_SIZE
    ensures k < LOG_SIZE && k == x % LOG_SIZE
  {
    if x < LOG_SIZE then x else if x < 2 * LOG_SIZE then x - LOG_SIZE else x - 2 * LOG_SIZE
  }

  /** Where the i-th of the last count entries before head is stored. */
  function LogIndex(head: nat, count: nat, i: nat): (k: nat)
    requires head < LOG_SIZE && i <= count <= LOG_SIZE
    ensures k < LOG_SIZE
  {
    Round(head + LOG_SIZE - count + i)
  }

  /** The last count entries before position head of a circular log, oldest first. */
  function LogView(m: seq<nat>, head: nat, count: nat): (s: seq<nat>)
    requires |m| == LOG_SIZE && head < LOG_SIZE && count <= LOG_SIZE
    ensures |s| == count
  {
    seq(count, i requires 0 <= i < count => m[LogIndex(head, count, i)])
  }

  lemma TakeIndex(m: seq<nat>, head: nat, count: nat, i: nat)
    requires |m| == LOG_SIZE && head < LOG_SIZE && i < count <= LOG_SIZE
    ensures LogView(m, head, count)[i] == m[(LogIndex(head, count, 0) + i) % LOG_SIZE]
  {
    assert Round(LogIndex(head, count, 0) + i) == LogIndex(head, count, i);
  }

  lemma NothingLogged(m: seq<nat>, head: nat)
    requires |m| == LOG_SIZE && head < LOG_SIZE
    ensures LogView(m, head, 0) == Last([], LOG_SIZE)
  {
  }

  /** One step of the log: the new entry comes last, and the oldest of a full log is gone. */
  lemma LogStep(m: seq<nat>, head: nat, count: nat, sc: nat)
    requires |m| == LOG_SIZE && head < LOG_SIZE && count <= LOG_SIZE
    ensures LogView(m[head := sc], (head + 1) % LOG_SIZE, if count < LOG_SIZE then count + 1 else count) ==
            Last(LogView(m, head, count) + [sc], 16)
  {
    hide LogIndex, Round;
    var count' := if count < LOG_SIZE then count + 1 else count;
    forall i | 0 <= i < count'
      ensures LogView(m[head := sc], (head + 1) % LOG_SIZE, count')[i]
              == Last(LogView(m, head, count) + [sc], LOG_SIZE)[i]
    {
      LogIndexStep(head, count, i);
    }
  }

  /** Moving head on, the i-th entry is the i-th or, of a full log, the next one of before; the new one is at head. */
  lemma LogIndexStep(head: nat, count: nat, i: nat)
    requires head < LOG_SIZE && count <= LOG_SIZE && i < (if count < LOG_SIZE then count + 1 else count)
    ensures var k := LogIndex((head + 1) % LOG_SIZE, if count < LOG_SIZE then count + 1 else count, i);
            var j := if count < LOG_SIZE then i else i + 1;
            if j < count then k == LogIndex(head, count, j) && k != head else k == head
  {
    assert Round(head + 1) == (head + 1) % LOG_SIZE;
  }

  /** The queue after keys arrive, at most one at a time: a full queue refuses it. */
  function Queued(q: seq<int>, keys: seq<nat>): seq<int> {
    if |q| == 255 then q else q + keys
  }

  class Driver {
    const buf: array<int>
    var head: nat
    var tail: nat
    const log: array<nat>
    var logHead: nat
    var logCount: nat
    var total: nat
    var shift: bool
    var ctrl: bool
    var alt: bool
    var caps: bool
    var extended: bool
    /** Every scancode since the log was last taken. */
    ghost var since: seq<nat>
    /** Every scancode since keyboard_init. */
    ghost var stream: seq<byte>

    ghost predicate Valid()
      reads this, buf, log
    {
      && buf.Length == SIZE && head < SIZE && tail < SIZE
      && buf as object != log && log.Length == LOG_SIZE && logHead < LOG_SIZE && logCount <= LOG_SIZE
      && Logged() == Last(since, LOG_SIZE)
    }

    /** The ring as the step model sees it, between calls. */
    function Shared(): Ring
      reads this, buf
    {
      Ring(buf[..], head, tail, Outside, [], [], 0, 0, 0)
    }

    function Keys(): seq<int>
      reads this, buf
      requires buf.Length == SIZE && head < SIZE && tail < SIZE
    {
      Buffered(Shared())
    }

    /** The scancodes in the log, oldest first. */
    function Logged(): (s: seq<nat>)
      reads this, log
      requires log.Length == LOG_SIZE && logHead < LOG_SIZE && logCount <= LOG_SIZE
      ensures |s| == logCount
    {
      LogView(log[..], logHead, logCount)
    }

    function Mods(): Scancodes.Mods
      reads this
    {
      Scancodes.Mods(shift, ctrl, alt, caps, extended)
    }

    /** The modifiers are those of the whole stream so far. */
    ghost predicate Decoded()
      reads this
    {
      total == |stream| && Mods() == Scancodes.ModsOf(stream)
    }

    /** keyboard_init. */
    constructor ()
      ensures Valid() && Decoded() && Keys() == [] && since == [] && stream == [] && fresh(buf) && fresh(log)
    {
      buf := new int[SIZE];
      log := new nat[LOG_SIZE];
      head, tail, logHead, logCount, total := 0, 0, 0, 0, 0;
      shift, ctrl, alt, caps, extended := false, false, false, false, false;
      since, stream := [], [];
      new;
      Scancodes.Nothing();
    }

    /**
     keyboard_handler: logs the byte, follows the modifiers, and queues what the byte types in the stream, if
     there is room.
     */
    method Handle(sc: byte)
      requires Valid() && Decoded()
      modifies this, buf, log
      ensures Valid() && Decoded()
      ensures stream == old(stream) + [sc] && since == old(since) + [sc]
      ensures Keys() == Queued(old(Keys()), Scancodes.KeyAt(stream, |stream| - 1))
    {
      hide Scancodes.ModsOf, Scancodes.KeyAt, Scancodes.Handle, Buffered, Last, LogView, Queued;
      ghost var scs := stream + [sc];
      assert scs[..|scs| - 1] == stream;
      Scancodes.LastByte(scs);
      LogScancode(sc);
      Decode(sc);
      stream := scs;
    }

    method Decode(sc: byte)
      requires Valid()
      modifies this`head, this`shift, this`ctrl, this`alt, this`caps, this`extended, buf
      ensures Valid()
      ensures var (m, keys) := Scancodes.Handle(old(Mods()), sc);
              Mods() == m && Keys() == Queued(old(Keys()), keys)
    {
      hide Buffered, Last, LogView, Scancodes.Typed, Scancodes.Arrow, Scancodes.Handle;
      Scancodes.HandleCases(Mods(), sc);
      if sc == Scancodes.PREFIX {
        extended := true;
        return;
      }
      if extended {
        extended := false;
        if sc >= 0x80 { return; }
        Extended(sc);
        return;
      }
      if sc % 0x80 in {0x2A, 0x36, 0x1D, 0x38, 0x3A} {
        Modifier(sc >= 0x80, sc % 0x80);
        return;
      }
      if sc >= 0x80 { return; }
      TypeKey(sc);
    }

    /** The look-up in the layouts; 0 is no character. */
    method TypeKey(code: byte)
      requires Valid()
      modifies this`head, buf
      ensures Valid() && Keys() == Queued(old(Keys()), Scancodes.Typed(shift != caps, ctrl, code))
    {
      hide Buffered, Last, LogView, Valid, Scancodes.Typed;
      var typed := Scancodes.Typed(shift != caps, ctrl, code);
      if |typed| == 1 { Push(typed[0]); }
    }

    /** The switch on prefixed keys. */
    method Extended(code: byte)
      requires Valid()
      modifies this`head, buf
      ensures Valid() && Keys() == Queued(old(Keys()), Scancodes.Arrow(code))
    {
      hide Buffered, Last, LogView, Valid;
      match code {
        case 0x48 => Push(0x100);
        case 0x50 => Push(0x101);
        case 0x4B => Push(0x102);
        case 0x4D => Push(0x103);
        case _ =>
      }
    }

    /** The switch on modifier keys. */
    method Modifier(released: bool, code: byte)
      requires code in {0x2A, 0x36, 0x1D, 0x38, 0x3A} && !extended
      modifies this`shift, this`ctrl, this`alt, this`caps
      ensures (Mods(), []) == Scancodes.Handle(old(Mods()), if released then code + 0x80 else code)
    {
      hide Scancodes.Handle;
      Scancodes.ModifierLaw(Mods(), released, code);
      match code {
        case 0x2A => shift := !released;
        case 0x36 => shift := !released;
        case 0x1D => ctrl := !released;
        case 0x38 => alt := !released;
        case 0x3A => if !released { caps := !caps; }
      }
    }

    method Push(c: int)
      requires Valid()
      modifies this`head, buf
      ensures Valid()
      ensures Keys() == if |old(Keys())| == 255 then old(Keys()) else old(Keys()) + [c]
    {
      ghost var r := Shared();
      PushLaw(r, c);
      var next := (head + 1) % SIZE;
      if next == tail { return; }
      buf[head] := c;
      head := next;
      assert buf[..] == KeyboardRing.Push(r, c).buf;
      SameShared(KeyboardRing.Push(r, c), Shared());
    }

    method Pop() returns (c: int)
      requires Valid()
      modifies this`tail
      ensures Valid()
      ensures old(Keys()) == [] ==> c == -1 && Keys() == []
      ensures old(Keys()) != [] ==> old(Keys()) == [c] + Keys()
    {
      ghost var r := Shared();
      EmptyLaw(r);
      if tail == head { return -1; }
      PopLaw(r);
      c := buf[tail];
      tail := (tail + 1) % SIZE;
      SameShared(r.(tail := (r.tail + 1) % SIZE), Shared());
    }

    method LogScancode(sc: nat)
      requires Valid()
      modifies this`logHead, this`logCount, this`total, this`since, log
      ensures Valid() && since == old(since) + [sc] && total == old(total) + 1
    {
      hide LogView, Last;
      ghost var m, h, n := log[..], logHead, logCount;
      log[logHead] := sc;
      logHead := (logHead + 1) % LOG_SIZE;
      if logCount < LOG_SIZE { logCount := logCount + 1; }
      total := total + 1;
      LastAppend(since, sc, LOG_SIZE);
      since := since + [sc];
      assert log[..] == m[h := sc];
      LogStep(m, h, n, sc);
    }

    /**
     keyboard_take_scancodes: the oldest of the last 16 scancodes since the last call, at most max; the rest is
     dropped.
     */
    method TakeScancodes(max: int) returns (out: seq<nat>)
      requires Valid()
      modifies this`logCount, this`since
      ensures Valid() && since == []
      ensures var kept := Last(old(since), LOG_SIZE);
              out == if max <= 0 then [] else if |kept| <= max then kept else kept[..max]
    {
      hide LogIndex, Last;
      out := [];
      ghost var logged := Logged();
      var start := LogIndex(logHead, logCount, 0);
      var i := 0;
      while i < logCount && i < max
        invariant unchanged(this, log) && 0 <= i <= logCount && (i <= max || i == 0)
        invariant out == logged[..i]
      {
        TakeIndex(log[..], logHead, logCount, i);
        out := out + [log[(start + i) % LOG_SIZE]];
        i := i + 1;
      }
      assert logged[..|logged|] == logged;
      logCount := 0;
      since := [];
      NothingLogged(log[..], logHead);
    }
  }
}
