/** The input multiplexer of kernel/input/input.c as a value: real keys first, a timed demo script otherwise. */
module InputModel {

  const CHAR_DELAY: nat := 5
  const LINE_DELAY: nat := 50
  const RESTART_DELAY: nat := 500
  const TIMEOUT: nat := 300

  const SRC_AUTO: int := -1
  const SRC_DEMO: int := 0
  const SRC_PS2: int := 1
  const SRC_USB: int := 2

  /** Lines of characters, each ending where the C string does. */
  type Script = seq<string>

  /** g_demo_script. */
  const DEMO_SCRIPT: Script := [
    "help\r", "pci_info\r", "ehci_info\r", "ehci_ports\r", "ehci_reset 0\r",
    "ehci_device\r", "vmm_info\r", "heap_info\r", "pmm_info\r", "fb_info\r"]

  /** Every line ends with the one carriage return that makes the shell run it. */
  lemma ScriptLines(i: nat)
    requires i < |DEMO_SCRIPT|
    ensures var l := DEMO_SCRIPT[i]; |l| > 1 && forall j :: 0 <= j < |l| ==> (l[j] == '\r' <==> j == |l| - 1)
  {
  }

  datatype Mux = Mux(source: int, ps2: bool, usb: bool, active: bool, line: nat, ch: nat, nextTick: nat, lastReal: nat)

  /** input_init at time now. */
  function Init(now: nat): Mux {
    Mux(SRC_AUTO, true, false, false, 0, 0, 0, now)
  }

  function DemoStart(m: Mux, now: nat): Mux {
    m.(active := true, line := 0, ch := 0, nextTick := now + LINE_DELAY)
  }

  function DemoStop(m: Mux): Mux {
    if m.active then m.(active := false, line := 0, ch := 0) else m
  }

  /** What input_getchar answers, and where it comes from. */
  datatype Answer = Nothing | Key(key: nat) | Demo(c: char)

  /** The int the C function returns. */
  function Code(a: Answer): int {
    match a
    case Nothing => -1
    case Key(c) => c
    case Demo(c) => c as int
  }

  /** demo_get_char: the next character of the script once its time has come. */
  function DemoGetChar(script: Script, m: Mux, now: nat): (Mux, Answer) {
    if !m.active then (m, Nothing)
    else if now < m.nextTick then (m, Nothing)
    else if m.line >= |script| then (m.(line := 0, ch := 0, nextTick := now + RESTART_DELAY), Nothing)
    else if m.ch >= |script[m.line]| then (m.(line := m.line + 1, ch := 0, nextTick := now + LINE_DELAY), Nothing)
    else (m.(ch := m.ch + 1, nextTick := now + CHAR_DELAY), Demo(script[m.line][m.ch]))
  }

  /** input_reset_demo_timeout. */
  function ResetTimeout(m: Mux, now: nat): Mux {
    DemoStop(m.(lastReal := now))
  }

  /** input_set_source. */
  function SetSource(m: Mux, src: int): Mux {
    if src != SRC_DEMO then m.(source := src, active := false) else m.(source := src)
  }

  /** keyboard_getchar on the queued keys. */
  function PopKey(keys: seq<nat>): (Answer, seq<nat>) {
    if keys == [] then (Nothing, []) else (Key(keys[0]), keys[1..])
  }

  /** The automatic mode of input_getchar; the USB source is a stub that never has a character. */
  function AutoGetChar(script: Script, m: Mux, now: nat, keys: seq<nat>): (Mux, seq<nat>, Answer) {
    if m.ps2 && keys != [] then (ResetTimeout(m, now), keys[1..], Key(keys[0]))
    else
      var m1 := if !m.active && now - m.lastReal >= TIMEOUT then DemoStart(m, now) else m;
      var (m2, d) := DemoGetChar(script, m1, now);
      (m2, keys, d)
  }

  /** input_getchar: the state and key queue after it, and the answer. */
  function GetChar(script: Script, m: Mux, now: nat, keys: seq<nat>): (Mux, seq<nat>, Answer) {
    if m.source == SRC_PS2 then
      var (c, rest) := PopKey(keys);
      (m, rest, c)
    else if m.source == SRC_USB then (m, keys, Nothing)
    else if m.source == SRC_DEMO then
      var (m1, d) := DemoGetChar(script, if m.active then m else DemoStart(m, now), now);
      (m1, keys, d)
    else AutoGetChar(script, m, now, keys)
  }

  // ----- Runs -----

  /** A demo character, when it was delivered, and where in the script it stands. */
  datatype Typed = Typed(c: char, at: nat, line: nat, ch: nat)

  /**
   The multiplexer with its clock and key queue, and a history: what the demo typed since it last
   started, when that was, when automatic mode last returned a key or the timeout was reset, when a forced
   keyboard last returned a key, and when any mode did; the last two are 0 as long as there was no such key.
   */
  datatype World = World(mux: Mux, now: nat, keys: seq<nat>, typed: seq<Typed>, started: nat,
                         realAt: nat, forcedAt: nat, keyAt: nat)

  datatype Event = Tick | KeyArrives(c: nat) | Ask | ChooseSource(src: int) | ResetDemo

  function Begin(now: nat): World {
    World(Init(now), now, [], [], 0, now, 0, 0)
  }

  /** No source is forced: anything but the three source numbers leaves input_getchar in automatic mode. */
  predicate Automatic(m: Mux) {
    m.source != SRC_PS2 && m.source != SRC_USB && m.source != SRC_DEMO
  }

  /** The answer of input_getchar in a world. */
  function AnswerIn(script: Script, w: World): Answer {
    GetChar(script, w.mux, w.now, w.keys).2
  }

  function Asked(script: Script, w: World): World {
    var (m, keys, a) := GetChar(script, w.mux, w.now, w.keys);
    var w1 := if m.active && !w.mux.active then w.(typed := [], started := w.now) else w;
    var w2 := match a
              case Nothing => w1
              case Key(_) => if Automatic(w.mux) then w1.(realAt := w.now, keyAt := w.now)
                             else w1.(forcedAt := w.now, keyAt := w.now)
              case Demo(c) => w1.(typed := w1.typed + [Typed(c, w.now, m.line, if m.ch > 0 then m.ch - 1 else 0)]);
    w2.(mux := m, keys := keys)
  }

  function Next(script: Script, w: World, e: Event): World {
    match e
    case Tick => w.(now := w.now + 1)
    case KeyArrives(c) => w.(keys := w.keys + [c])
    case Ask => Asked(script, w)
    case ChooseSource(src) => w.(mux := SetSource(w.mux, src))
    case ResetDemo => w.(mux := ResetTimeout(w.mux, w.now), realAt := w.now)
  }

  /** The characters of the script, line after line. */
  function Flat(script: Script): string {
    if script == [] then [] else Flat(script[..|script| - 1]) + script[|script| - 1]
  }

  /** Number of characters before line `line`. */
  function Offset(script: Script, line: nat): nat
    requires line <= |script|
  {
    |Flat(script[..line])|
  }

  lemma {:induction false} FlatAt(script: Script, line: nat, ch: nat)
    requires line < |script| && ch < |script[line]|
    ensures Offset(script, line) + ch < |Flat(script)|
    ensures Flat(script)[Offset(script, line) + ch] == script[line][ch]
    decreases |script|
  {
    var n := |script| - 1;
    if line < n {
      FlatAt(script[..n], line, ch);
      assert script[..n][..line] == script[..line];
    }
  }

  lemma OffsetNext(script: Script, line: nat)
    requires line < |script|
    ensures Offset(script, line + 1) == Offset(script, line) + |script[line]|
  {
    assert script[..line + 1][..line] == script[..line];
  }

  lemma OffsetEnds(script: Script)
    ensures Offset(script, 0) == 0 && Offset(script, |script|) == |Flat(script)|
  {
    assert script[..0] == [] && script[..|script|] == script;
  }

  // ----- The demo's characters -----

  /** Ticks that pass at least before a character at position ch of line `line`, after the one before it. */
  function MinGap(line: nat, ch: nat): nat {
    if ch > 0 then CHAR_DELAY
    else if line > 0 then CHAR_DELAY + LINE_DELAY
    else CHAR_DELAY + LINE_DELAY + RESTART_DELAY
  }

  /** k counted round and round modulo n. */
  function Cycle(k: nat, n: nat): (r: nat)
    ensures n > 0 ==> r < n
  {
    if n == 0 then 0 else if k < n then k else Cycle(k - n, n)
  }

  lemma {:induction false} CycleNext(k: nat, n: nat)
    ensures Cycle(k + 1, n) == if n == 0 || Cycle(k, n) + 1 == n then 0 else Cycle(k, n) + 1
    decreases k
  {
    if n > 0 {
      if k < n {
        if k + 1 == n { assert Cycle(k + 1, n) == Cycle(0, n); }
      } else {
        CycleNext(k - n, n);
        assert Cycle(k + 1, n) == Cycle(k - n + 1, n);
      }
    }
  }

  /** x is the k-th character of the script repeated for ever. */
  ghost predicate InScript(script: Script, x: Typed, k: nat) {
    && x.line < |script| && x.ch < |script[x.line]| && x.c == script[x.line][x.ch]
    && Offset(script, x.line) + x.ch < |Flat(script)|
    && Offset(script, x.line) + x.ch == Cycle(k, |Flat(script)|)
  }

  /** The characters typed since the start repeat the script from its beginning, at its pace, never early. */
  ghost predicate TypedOk(script: Script, typed: seq<Typed>, started: nat) {
    && (forall k :: 0 <= k < |typed| ==> InScript(script, typed[k], k))
    && (forall k :: 0 < k < |typed| ==> typed[k].at >= typed[k - 1].at + MinGap(typed[k].line, typed[k].ch))
    && (|typed| > 0 ==> typed[0].at >= started + LINE_DELAY)
  }

  /** The script position an active multiplexer stands at is where the typed characters have led. */
  ghost predicate PositionOk(script: Script, m: Mux, typed: seq<Typed>, started: nat) {
    && m.line <= |script| && (m.line == |script| ==> m.ch == 0) && (m.line < |script| ==> m.ch <= |script[m.line]|)
    && Cycle(Offset(script, m.line) + m.ch, |Flat(script)|) == Cycle(|typed|, |Flat(script)|)
    && (|typed| == 0 ==> m.nextTick >= started + LINE_DELAY && m.ch == 0)
    && (|typed| > 0 ==> m.nextTick >= typed[|typed| - 1].at + MinGap(m.line, m.ch))
  }

  /** The invariant of every run, in whatever mode. */
  ghost predicate RunOk(script: Script, w: World) {
    && w.mux.ps2
    && w.mux.lastReal == w.realAt <= w.now
    && w.forcedAt <= w.keyAt <= w.now && (w.keyAt <= w.realAt || w.keyAt == w.forcedAt)
    && TypedOk(script, w.typed, w.started)
    && (w.mux.active ==>
          && PositionOk(script, w.mux, w.typed, w.started)
          && (w.mux.source != SRC_DEMO ==> w.started >= w.realAt + TIMEOUT))
  }

  /** The history after the demo answered a at time now, standing at m. */
  function TypedAfter(typed: seq<Typed>, a: Answer, now: nat, m: Mux): seq<Typed> {
    match a
    case Demo(c) => typed + [Typed(c, now, m.line, if m.ch > 0 then m.ch - 1 else 0)]
    case Key(_) => typed
    case Nothing => typed
  }

  /** Delivering a character: it is the next one of the repeated script. */
  lemma DeliverStep(script: Script, m: Mux, now: nat, typed: seq<Typed>, started: nat)
    requires TypedOk(script, typed, started) && PositionOk(script, m, typed, started)
    requires now >= m.nextTick && m.line < |script| && m.ch < |script[m.line]|
    ensures var m' := m.(ch := m.ch + 1, nextTick := now + CHAR_DELAY);
            var typed' := typed + [Typed(script[m.line][m.ch], now, m.line, m.ch)];
            TypedOk(script, typed', started) && PositionOk(script, m', typed', started)
  {
    FlatAt(script, m.line, m.ch);
    var f := |Flat(script)|;
    var o := Offset(script, m.line) + m.ch;
    CycleNext(o, f);
    CycleNext(|typed|, f);
    var x := Typed(script[m.line][m.ch], now, m.line, m.ch);
    assert InScript(script, x, |typed|);
    TypedMore(script, typed, started, x);
  }

  lemma TypedMore(script: Script, typed: seq<Typed>, started: nat, x: Typed)
    requires TypedOk(script, typed, started) && InScript(script, x, |typed|)
    requires if |typed| == 0 then x.at >= started + LINE_DELAY else x.at >= typed[|typed| - 1].at + MinGap(x.line, x.ch)
    ensures TypedOk(script, typed + [x], started)
  {
    hide InScript, MinGap;
    var typed' := typed + [x];
    assert forall k :: 0 <= k < |typed| ==> typed'[k] == typed[k];
  }

  lemma DemoStep(script: Script, m: Mux, now: nat, typed: seq<Typed>, started: nat)
    requires m.active && TypedOk(script, typed, started) && PositionOk(script, m, typed, started)
    ensures var (m', a) := DemoGetChar(script, m, now);
            && m'.active && m'.source == m.source && m'.ps2 == m.ps2 && m'.lastReal == m.lastReal
            && !a.Key?
            && TypedOk(script, TypedAfter(typed, a, now, m'), started)
            && PositionOk(script, m', TypedAfter(typed, a, now, m'), started)
  {
    hide TypedOk, Flat;
    if now >= m.nextTick {
      if m.line >= |script| {
        RestartStep(script, m, now, typed, started);
      } else if m.ch >= |script[m.line]| {
        OffsetNext(script, m.line);
      } else {
        DeliverStep(script, m, now, typed, started);
      }
    }
  }

  lemma RestartStep(script: Script, m: Mux, now: nat, typed: seq<Typed>, started: nat)
    requires PositionOk(script, m, typed, started) && now >= m.nextTick && m.line >= |script|
    ensures PositionOk(script, m.(line := 0, ch := 0, nextTick := now + RESTART_DELAY), typed, started)
  {
    OffsetEnds(script);
    var f := |Flat(script)|;
    assert f > 0 ==> Cycle(f, f) == Cycle(0, f);
  }

  lemma StartStep(script: Script, m: Mux, now: nat)
    ensures TypedOk(script, [], now) && PositionOk(script, DemoStart(m, now), [], now)
  {
    OffsetEnds(script);
  }

  /** Every event keeps the invariant. */
  lemma NextOk(script: Script, w: World, e: Event)
    requires RunOk(script, w)
    ensures RunOk(script, Next(script, w, e))
  {
    hide TypedOk, PositionOk, DemoGetChar, Asked;
    match e
    case Tick =>
    case KeyArrives(_) =>
    case ChooseSource(src) =>
      if w.mux.active { SourceKeepsPosition(script, w.mux, src, w.typed, w.started); }
    case ResetDemo =>
    case Ask => AskOk(script, w);
  }

  lemma SourceKeepsPosition(script: Script, m: Mux, src: int, typed: seq<Typed>, started: nat)
    requires PositionOk(script, m, typed, started)
    ensures PositionOk(script, m.(source := src), typed, started)
  {
  }

  lemma AskOk(script: Script, w: World)
    requires RunOk(script, w)
    ensures RunOk(script, Asked(script, w))
  {
    hide TypedOk, PositionOk, DemoGetChar;
    if w.mux.source == SRC_DEMO || (Automatic(w.mux) && w.keys == []) {
      if w.mux.active {
        DemoStep(script, w.mux, w.now, w.typed, w.started);
      } else if w.mux.source == SRC_DEMO || w.now - w.mux.lastReal >= TIMEOUT {
        StartStep(script, w.mux, w.now);
        DemoStep(script, DemoStart(w.mux, w.now), w.now, [], w.now);
      } else {
        Inactive(script, w.mux, w.now);
      }
    }
  }

  lemma Inactive(script: Script, m: Mux, now: nat)
    requires !m.active
    ensures DemoGetChar(script, m, now) == (m, Nothing)
  {
  }

  lemma BeginOk(script: Script, now: nat)
    ensures RunOk(script, Begin(now))
  {
  }

  function After(script: Script, w: World, es: seq<Event>): World
    decreases |es|
  {
    if es == [] then w else After(script, Next(script, w, es[0]), es[1..])
  }

  lemma {:induction false} AfterOk(script: Script, w: World, es: seq<Event>)
    requires RunOk(script, w)
    ensures RunOk(script, After(script, w, es))
    decreases |es|
  {
    hide RunOk, Next;
    if es != [] {
      NextOk(script, w, es[0]);
      AfterOk(script, Next(script, w, es[0]), es[1..]);
    }
  }

  /**
   Over any interleaving of ticks, key arrivals, input_getchar calls, changes of source and resets of
   the timeout: the demo has typed the script over and over from its start, characters at least 5
   ticks apart and longer at line and script ends; unless forced, it runs only if it started at least
   300 ticks after the last key returned in automatic mode (or reset), and then 300 ticks after the last key
   of any mode exactly if that holds of the last key a forced keyboard returned; and in automatic mode the
   next answer is a demo character only if no key is queued and those 300 ticks and a line delay have passed.
   */
  lemma AutoMode(script: Script, now: nat, es: seq<Event>)
    ensures var w := After(script, Begin(now), es);
            && TypedOk(script, w.typed, w.started)
            && (w.mux.active && w.mux.source != SRC_DEMO ==>
                  && w.started >= w.realAt + TIMEOUT
                  && (w.started >= w.keyAt + TIMEOUT <==> w.started >= w.forcedAt + TIMEOUT))
            && (Automatic(w.mux) && AnswerIn(script, w).Demo? ==>
                  w.keys == [] && w.mux.active && w.now >= w.realAt + TIMEOUT + LINE_DELAY)
            && (Automatic(w.mux) && w.keys != [] ==>
                  AnswerIn(script, w) == Key(w.keys[0]) && !Next(script, w, Ask).mux.active)
  {
    BeginOk(script, now);
    AfterOk(script, Begin(now), es);
    var w := After(script, Begin(now), es);
    if Automatic(w.mux) { DemoNotEarly(script, w); }
  }

  /** n ticks. */
  function Ticks(n: nat): seq<Event> {
    if n == 0 then [] else [Tick] + Ticks(n - 1)
  }

  lemma {:induction false} TicksPass(script: Script, w: World, n: nat, es: seq<Event>)
    ensures After(script, w, Ticks(n) + es) == After(script, w.(now := w.now + n), es)
    decreases n
  {
    hide Asked;
    if n == 0 {
      assert Ticks(0) + es == es;
    } else {
      assert (Ticks(n) + es)[1..] == Ticks(n - 1) + es;
      TicksPass(script, Next(script, w, Tick), n - 1, es);
    }
  }

  /** A key is read from the forced keyboard, and automatic mode comes back. */
  function ForcedKey(c: nat): seq<Event> {
    [ChooseSource(SRC_PS2)] + (Ticks(TIMEOUT) + [KeyArrives(c), Ask, ChooseSource(SRC_AUTO), Ask])
  }

  /**
   The silence is not measured from a key that a forced keyboard returned: 300 ticks after the start the
   demo begins in the very tick in which such a key was read.
   */
  lemma ForcedKeyForgotten(script: Script, now: nat, c: nat)
    ensures var w := After(script, Begin(now), ForcedKey(c));
            && w.mux.active && w.mux.source == SRC_AUTO && w.keys == []
            && w.started == w.now == w.keyAt == w.forcedAt == now + TIMEOUT && w.realAt == now
  {
    var w0 := Begin(now);
    var w1 := Next(script, w0, ChooseSource(SRC_PS2));
    var es := [KeyArrives(c), Ask, ChooseSource(SRC_AUTO), Ask];
    assert ForcedKey(c)[1..] == Ticks(TIMEOUT) + es;
    TicksPass(script, w1, TIMEOUT, es);
    var w2 := w1.(now := now + TIMEOUT);
    var w3 := Next(script, w2, KeyArrives(c));
    var w4 := Next(script, w3, Ask);
    var w5 := Next(script, w4, ChooseSource(SRC_AUTO));
    assert es[1..] == [Ask, ChooseSource(SRC_AUTO), Ask] && es[2..] == [ChooseSource(SRC_AUTO), Ask]
           && es[3..] == [Ask];
    assert es[1..][1..] == es[2..] && es[2..][1..] == es[3..] && es[3..][1..] == [];
    assert After(script, w2, es) == After(script, w3, es[1..]) == After(script, w4, es[2..])
           == After(script, w5, es[3..])
        == Next(script, w5, Ask);
  }

  lemma DemoNotEarly(script: Script, w: World)
    requires RunOk(script, w) && Automatic(w.mux)
    ensures AnswerIn(script, w).Demo? ==> w.keys == [] && w.mux.active && w.now >= w.realAt + TIMEOUT + LINE_DELAY
    ensures w.keys != [] ==> AnswerIn(script, w) == Key(w.keys[0]) && !Next(script, w, Ask).mux.active
  {
    hide InScript, Offset, Flat, Cycle, MinGap;
    if AnswerIn(script, w).Demo? { TypedGrows(script, w.typed, w.started, |w.typed|); }
  }

  /**
   What input_set_source means for the calls after it, in any run: a forced keyboard answers queued
   keys alone and in order, the USB stub answers nothing, a forced demo never answers or drops a key
   and is running from the first call on; any other source lets keys through first again, and every
   source but the demo ends a running demo.
   */
  lemma SourceDecides(script: Script, w: World, src: int)
    requires RunOk(script, w)
    ensures var v := Next(script, w, ChooseSource(src));
            var a, v' := AnswerIn(script, v), Next(script, v, Ask);
            && RunOk(script, v) && v.keys == w.keys && v.typed == w.typed
            && (src != SRC_DEMO ==> !v.mux.active)
            && (src == SRC_PS2 ==>
                  && (if w.keys == [] then a == Nothing && v'.keys == []
                      else a == Key(w.keys[0]) && v'.keys == w.keys[1..])
                  && v'.mux == v.mux)
            && (src == SRC_USB ==> a == Nothing && v' == v)
            && (src == SRC_DEMO ==> !a.Key? && v'.keys == w.keys && v'.mux.active)
            && (Automatic(v.mux) ==> a == if w.keys != [] then Key(w.keys[0]) else Nothing)
  {
    hide TypedOk, PositionOk;
    NextOk(script, w, ChooseSource(src));
  }

  /** Every typed character came at least one line delay after the start. */
  lemma {:induction false} TypedGrows(script: Script, typed: seq<Typed>, started: nat, n: nat)
    requires TypedOk(script, typed, started) && n <= |typed|
    ensures forall k :: 0 <= k < n ==> typed[k].at >= started + LINE_DELAY
    decreases n
  {
    hide InScript, MinGap;
    if n > 0 { TypedGrows(script, typed, started, n - 1); }
    if n > 1 { assert typed[n - 1].at >= typed[n - 2].at; }
  }
}
