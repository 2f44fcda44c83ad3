/** The input multiplexer of kernel/input/input.c as the code holds it, over the keyboard driver's ring. */
module Input {
  import opened InputModel
  import Keyboard
  import KeyboardRing

  class Multiplexer {
    const script: Script
    const keyboard: Keyboard.Driver
    var source: int
    var ps2: bool
    var usb: bool
    var active: bool
    var line: nat
    var ch: nat
    var nextTick: nat
    var lastReal: nat

    /** The driver is sound, and its ring holds characters: no key is negative. */
    ghost predicate Valid()
      reads this, keyboard, keyboard.buf, keyboard.log
    {
      keyboard.Valid() && NoneNegative(keyboard.Keys())
    }

    function State(): Mux
      reads this
    {
      Mux(source, ps2, usb, active, line, ch, nextTick, lastReal)
    }

    ghost function Queue(): (q: seq<nat>)
      reads this, keyboard, keyboard.buf, keyboard.log
      requires Valid()
      ensures q == keyboard.Keys()
    {
      Naturals(keyboard.Keys())
    }

    /** input_init at time now. */
    constructor (script: Script, keyboard: Keyboard.Driver, now: nat)
      requires keyboard.Valid() && NoneNegative(keyboard.Keys())
      ensures this.script == script && this.keyboard == keyboard && Valid()
      ensures State() == InputModel.Init(now)
    {
      this.script, this.keyboard := script, keyboard;
      source, ps2, usb := SRC_AUTO, true, false;
      active, line, ch, nextTick, lastReal := false, 0, 0, 0, now;
    }

    /** demo_start. */
    method DemoStart(now: nat)
      modifies this
      ensures State() == InputModel.DemoStart(old(State()), now)
    {
      active, line, ch := true, 0, 0;
      nextTick := now + LINE_DELAY;
    }

    /** demo_stop. */
    method DemoStop()
      modifies this
      ensures State() == InputModel.DemoStop(old(State()))
    {
      if !active { return; }
      active, line, ch := false, 0, 0;
    }

    /** demo_get_char. */
    method DemoGetChar(now: nat) returns (c: int)
      modifies this
      ensures var (m, a) := InputModel.DemoGetChar(script, old(State()), now);
              State() == m && c == Code(a)
    {
      if !active { return -1; }
      if now < nextTick { return -1; }
      if line >= |script| {
        line, ch := 0, 0;
        nextTick := now + RESTART_DELAY;
        return -1;
      }
      if ch >= |script[line]| {
        line, ch := line + 1, 0;
        nextTick := now + LINE_DELAY;
        return -1;
      }
      c := script[line][ch] as int;
      ch := ch + 1;
      nextTick := now + CHAR_DELAY;
    }

    /** input_reset_demo_timeout. */
    method ResetTimeout(now: nat)
      modifies this
      ensures State() == InputModel.ResetTimeout(old(State()), now)
    {
      lastReal := now;
      if active { DemoStop(); }
    }

    /** input_set_source. */
    method SetSource(src: int)
      modifies this
      ensures State() == InputModel.SetSource(old(State()), src)
    {
      source := src;
      if src != SRC_DEMO { active := false; }
    }

    /** keyboard_getchar: the oldest queued key, or -1. */
    method PopKey() returns (c: int)
      requires Valid()
      modifies keyboard`tail
      ensures Valid() && unchanged(this)
      ensures var (a, rest) := InputModel.PopKey(old(Queue()));
              Queue() == rest && c == Code(a)
      ensures c >= 0 <==> old(Queue()) != []
    {
      hide KeyboardRing.Buffered;
      ghost var q := keyboard.Keys();
      c := keyboard.Pop();
      PopNaturals(q, c, keyboard.Keys());
    }

    /**
     input_getchar at time now: the state, the key queue and the answer are those of the model. The
     USB source is a stub without characters.
     */
    method GetChar(now: nat) returns (c: int)
      requires Valid() && lastReal <= now
      modifies this, keyboard`tail
      ensures Valid()
      ensures var (m, keys, a) := InputModel.GetChar(script, old(State()), now, old(Queue()));
              State() == m && Queue() == keys && c == Code(a)
    {
      hide InputModel.DemoGetChar;
      if source >= 0 {
        if source == SRC_PS2 {
          c := PopKey();
          return;
        }
        if source == SRC_USB { return -1; }
        if source == SRC_DEMO {
          if !active { DemoStart(now); }
          c := DemoGetChar(now);
          return;
        }
      }
      if ps2 {
        c := PopKey();
        if c >= 0 {
          ResetTimeout(now);
          return;
        }
      }
      if !active && now - lastReal >= TIMEOUT { DemoStart(now); }
      if active {
        c := DemoGetChar(now);
        return;
      }
      Inactive(script, State(), now);
      c := -1;
    }
  }

  ghost predicate NoneNegative(s: seq<int>) {
    forall i :: 0 <= i < |s| ==> s[i] >= 0
  }

  /** The same keys, as naturals. */
  function Naturals(s: seq<int>): (q: seq<nat>)
    requires forall i :: 0 <= i < |s| ==> s[i] >= 0
    ensures q == s
  {
    seq(|s|, i requires 0 <= i < |s| => s[i])
  }

  /** Taking the first key off s leaves the rest without negative keys. */
  lemma PopNaturals(s: seq<int>, c: int, rest: seq<int>)
    requires NoneNegative(s)
    requires if s == [] then c == -1 && rest == [] else s == [c] + rest
    ensures NoneNegative(rest) && (c >= 0 <==> s != [])
    ensures InputModel.PopKey(Naturals(s)).1 == Naturals(rest) && c == Code(InputModel.PopKey(Naturals(s)).0)
  {
    if s != [] {
      assert s[0] == c;
      assert forall i :: 0 <= i < |rest| ==> rest[i] == s[i + 1];
      assert s[1..] == rest;
    }
  }
}
