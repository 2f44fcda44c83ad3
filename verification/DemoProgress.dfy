/** The demo of kernel/input/input.c when it is polled: every character of the script arrives, and exactly on time. */
module DemoProgress {
  import opened InputModel

  // ----- When the demo starts -----

  /** In automatic mode with no key queued a call starts the demo exactly when 300 ticks have passed in silence. */
  lemma StartsExactly(script: Script, w: World)
    requires RunOk(script, w) && Automatic(w.mux) && !w.mux.active && w.keys == []
    ensures Next(script, w, Ask).mux.active <==> w.now >= w.realAt + 300
    ensures Next(script, w, Ask).mux.active ==> JustStarted(script, Next(script, w, Ask))
  {
    hide TypedOk, PositionOk;
    NextOk(script, w, Ask);
  }

  /** The demo has started at this very tick. */
  ghost predicate JustStarted(script: Script, w: World) {
    && RunOk(script, w) && w.mux.active && (Automatic(w.mux) || w.mux.source == SRC_DEMO)
    && w.keys == [] && w.typed == [] && w.started == w.now
    && w.mux.line == 0 && w.mux.ch == 0 && w.mux.nextTick == w.now + 50
  }

  /** Silence starts it: 300 ticks without a key, from any state of automatic mode, and it runs. */
  lemma SilenceStarts(script: Script, w: World)
    requires RunOk(script, w) && Automatic(w.mux) && w.keys == []
    ensures After(script, w, Ticks(300) + [Ask]).mux.active
  {
    hide TypedOk, PositionOk;
    TicksPass(script, w, 300, [Ask]);
    assert [Ask][1..] == [];
  }

  // ----- When each character is due -----

  /** The ticks before each character of the script: 55 before the first of a line, 5 before the others. */
  function Gaps(script: Script): seq<nat> {
    if script == [] then []
    else Gaps(script[..|script| - 1]) + seq(|script[|script| - 1]|, i => if i == 0 then 55 else 5)
  }

  /** The ticks from the start of the demo to its k-th character: 50 to the first, 555 over the script's end. */
  function DueAt(script: Script, k: nat): nat {
    if k == 0 then 50
    else
      var f := |Flat(script)|;
      DueAt(script, k - 1) + if f == 0 || k % f == 0 || k % f >= |Gaps(script)| then 555 else Gaps(script)[k % f]
  }

  /** The script has lines, and none of them is empty. */
  predicate Solid(script: Script) {
    script != [] && forall i :: 0 <= i < |script| ==> script[i] != []
  }

  lemma DemoScriptSolid()
    ensures Solid(DEMO_SCRIPT)
  {
  }

  lemma {:induction false} GapsAt(script: Script, line: nat, ch: nat)
    requires line < |script| && ch < |script[line]|
    ensures |Gaps(script)| == |Flat(script)| && Offset(script, line) + ch < |Flat(script)|
    ensures Gaps(script)[Offset(script, line) + ch] == if ch == 0 then 55 else 5
    decreases |script|
  {
    var n := |script| - 1;
    GapsSize(script);
    GapsSize(script[..n]);
    FlatAt(script, line, ch);
    if line < n {
      GapsAt(script[..n], line, ch);
      assert script[..n][..line] == script[..line];
    }
  }

  lemma {:induction false} GapsSize(script: Script)
    ensures |Gaps(script)| == |Flat(script)|
    decreases |script|
  {
    if script != [] { GapsSize(script[..|script| - 1]); }
  }

  lemma {:induction false} CycleIsRemainder(k: nat, n: nat)
    requires n > 0
    ensures Cycle(k, n) == k % n
    decreases k
  {
    if k >= n {
      CycleIsRemainder(k - n, n);
      OneTurn(k - n, n);
    }
  }

  lemma OneTurn(k: nat, n: nat)
    requires n > 0
    ensures (k + n) % n == k % n
  {
    Quotient(k + n, n, k / n + 1, k % n);
  }

  lemma Quotient(x: nat, n: nat, q: nat, r: nat)
    requires n > 0 && r < n && x == n * q + r
    ensures x % n == r
  {
    var b := x / n;
    assert x == n * b + x % n;
    if b < q {
      Times(n, b + 1, q);
    } else if q < b {
      Times(n, q + 1, b);
    }
  }

  lemma Times(n: nat, a: nat, b: nat)
    requires a <= b
    ensures n * a <= n * b
  {
  }

  // ----- Polling -----

  /** n ticks, with a call after each. */
  function Polled(n: nat): seq<Event> {
    if n == 0 then [] else Polled(n - 1) + [Tick, Ask]
  }

  /** When the next character is delivered, from where the multiplexer stands. */
  function NextDue(script: Script, m: Mux): nat
    requires m.line <= |script|
  {
    if m.line == |script| then m.nextTick + 500
    else if m.ch < |script[m.line]| then m.nextTick
    else if m.line + 1 < |script| then m.nextTick + 50
    else m.nextTick + 550
  }

  /** The demo runs, has typed just what was due by now, each character when it was due, and knows what comes next. */
  ghost predicate Punctual(script: Script, w: World) {
    && RunOk(script, w) && w.mux.active && (Automatic(w.mux) || w.mux.source == SRC_DEMO) && w.keys == []
    && w.started <= w.now < w.mux.nextTick
    && PositionOk(script, w.mux, w.typed, w.started)
    && NextDue(script, w.mux) == w.started + DueAt(script, |w.typed|)
    && forall k :: 0 <= k < |w.typed| ==> w.typed[k].at == w.started + DueAt(script, k)
  }

  lemma StartIsPunctual(script: Script, w: World)
    requires Solid(script) && JustStarted(script, w)
    ensures Punctual(script, w)
  {
    hide TypedOk;
  }

  /** A call when a character is due delivers the one at the multiplexer's place, and the next is due 5 ticks later. */
  lemma DueCharacter(script: Script, m: Mux, now: nat)
    requires m.active && now >= m.nextTick && m.line < |script| && m.ch < |script[m.line]|
    ensures DemoGetChar(script, m, now) == (m.(ch := m.ch + 1, nextTick := now + 5), Demo(script[m.line][m.ch]))
  {
  }

  /** The gap before the character after the one at (line, ch), by where the multiplexer then stands. */
  lemma GapAfter(script: Script, line: nat, ch: nat, k: nat)
    requires Solid(script) && line < |script| && ch < |script[line]|
    requires Cycle(Offset(script, line) + ch, |Flat(script)|) == Cycle(k, |Flat(script)|)
    ensures DueAt(script, k + 1) - DueAt(script, k) ==
            if ch + 1 < |script[line]| then 5 else if line + 1 < |script| then 55 else 555
  {
    hide DueAt, Flat, Gaps, Offset;
    var f := |Flat(script)|;
    FlatAt(script, line, ch);
    var o := Offset(script, line) + ch;
    CycleIsRemainder(k, f);
    CycleIsRemainder(o, f);
    CycleNext(k, f);
    CycleIsRemainder(k + 1, f);
    DueStep(script, k);
    if ch + 1 < |script[line]| {
      GapsAt(script, line, ch + 1);
    } else {
      OffsetNext(script, line);
      OffsetEnds(script);
      if line + 1 < |script| { GapsAt(script, line + 1, 0); }
    }
  }

  lemma DueStep(script: Script, k: nat)
    ensures var f := |Flat(script)|;
            DueAt(script, k + 1) == DueAt(script, k) +
              if f == 0 || (k + 1) % f == 0 || (k + 1) % f >= |Gaps(script)| then 555 else Gaps(script)[(k + 1) % f]
  {
  }

  /** One tick and a call keep the demo punctual; it delivers a character exactly at the tick when one is due. */
  lemma PollStep(script: Script, w: World)
    requires Solid(script) && Punctual(script, w)
    ensures var w' := Next(script, Next(script, w, Tick), Ask);
            && Punctual(script, w') && w'.now == w.now + 1 && w'.started == w.started
            && (if w.now + 1 == w.started + DueAt(script, |w.typed|) then |w'.typed| == |w.typed| + 1
                else w'.typed == w.typed && w.now + 1 < w.started + DueAt(script, |w.typed|))
  {
    hide DueAt, TypedOk, Offset, Flat, InScript, MinGap;
    var w1 := Next(script, w, Tick);
    var w' := Next(script, w1, Ask);
    NextOk(script, w, Tick);
    NextOk(script, w1, Ask);
    var m := w.mux;
    if w1.now == m.nextTick && m.line < |script| && m.ch < |script[m.line]| {
      DueCharacter(script, m, w1.now);
      GapAfter(script, m.line, m.ch, |w.typed|);
    }
  }

  lemma {:induction false} GapsPositive(script: Script, i: nat)
    requires i < |Gaps(script)|
    ensures Gaps(script)[i] >= 5
    decreases |script|
  {
    var n := |script| - 1;
    if i < |Gaps(script[..n])| { GapsPositive(script[..n], i); }
  }

  lemma {:induction false} DueInOrder(script: Script, j: nat, k: nat)
    ensures DueAt(script, k) >= 50
    ensures j < k ==> DueAt(script, j) < DueAt(script, k)
    decreases k
  {
    if k > 0 {
      DueInOrder(script, j, k - 1);
      var f := |Flat(script)|;
      if f > 0 && k % f < |Gaps(script)| { GapsPositive(script, k % f); }
    }
  }

  /** Polled at every tick, the demo has typed the k-th character exactly if its time has come. */
  lemma {:induction false} PolledArrives(script: Script, w: World, n: nat, k: nat)
    requires Solid(script) && JustStarted(script, w)
    ensures var w' := After(script, w, Polled(n));
            && Punctual(script, w') && w'.now == w.now + n && w'.started == w.started
            && (k < |w'.typed| <==> DueAt(script, k) <= n)
    decreases n
  {
    hide Punctual, DueAt, RunOk;
    if n == 0 {
      StartIsPunctual(script, w);
      DueInOrder(script, 0, k);
    } else {
      hide JustStarted;
      var v := After(script, w, Polled(n - 1));
      PolledArrives(script, w, n - 1, k);
      PollStep(script, v);
      AfterConcat(script, w, Polled(n - 1), [Tick, Ask]);
      assert [Tick, Ask][1..] == [Ask] && [Ask][1..] == [];
      DueInOrder(script, k, |v.typed|);
      DueInOrder(script, |v.typed|, k);
    }
  }

  lemma {:induction false} AfterConcat(script: Script, w: World, a: seq<Event>, b: seq<Event>)
    ensures After(script, w, a + b) == After(script, After(script, w, a), b)
    decreases |a|
  {
    hide Next;
    if a == [] {
      assert a + b == b;
    } else {
      assert (a + b)[1..] == a[1..] + b;
      AfterConcat(script, Next(script, w, a[0]), a[1..], b);
    }
  }

  /**
   Progress: once the demo has started with no key queued, polling it at every tick delivers the k-th character of
   the script, repeated for ever, at exactly its tick: 50 after the start, 5 within a line, 55 from line to line,
   and 555 from the script's end to its beginning.
   */
  lemma DemoOnTime(script: Script, w: World, n: nat, k: nat)
    requires Solid(script) && JustStarted(script, w)
    ensures var w' := After(script, w, Polled(n));
            && w'.mux.active && |Flat(script)| > 0
            && (k < |w'.typed| <==> DueAt(script, k) <= n)
            && (k < |w'.typed| ==>
                  && w'.typed[k].c == Flat(script)[k % |Flat(script)|]
                  && w'.typed[k].at == w.now + DueAt(script, k))
  {
    hide DueAt, JustStarted, Flat, Offset;
    PolledArrives(script, w, n, k);
    FlatAt(script, 0, 0);
    CycleIsRemainder(k, |Flat(script)|);
    StartedNow(script, w);
    var w' := After(script, w, Polled(n));
    if k < |w'.typed| {
      assert InScript(script, w'.typed[k], k);
      FlatAt(script, w'.typed[k].line, w'.typed[k].ch);
    }
  }

  lemma StartedNow(script: Script, w: World)
    requires JustStarted(script, w)
    ensures w.started == w.now
  {
  }

  /** From input_init on: 300 silent ticks, one call, and then calls at every tick type the script on time. */
  lemma DemoFromInit(script: Script, now: nat, n: nat, k: nat)
    requires Solid(script)
    ensures var w := After(script, After(script, Begin(now), Ticks(300) + [Ask]), Polled(n));
            && |Flat(script)| > 0 && (k < |w.typed| <==> DueAt(script, k) <= n)
            && (k < |w.typed| ==>
                  && w.typed[k].c == Flat(script)[k % |Flat(script)|]
                  && w.typed[k].at == now + 300 + DueAt(script, k))
  {
    hide DueAt, Flat, JustStarted, Gaps, RunOk, Polled;
    var w0 := Begin(now);
    BeginOk(script, now);
    AfterOk(script, w0, Ticks(300));
    TicksPass(script, w0, 300, []);
    TicksPass(script, w0, 300, [Ask]);
    assert Ticks(300) + [] == Ticks(300) && [Ask][1..] == [];
    var w1 := w0.(now := now + 300);
    StartsExactly(script, w1);
    var w2 := Next(script, w1, Ask);
    StartedNow(script, w2);
    DemoOnTime(script, w2, n, k);
  }
}
