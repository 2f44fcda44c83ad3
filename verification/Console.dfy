/** The text console as a character grid with a cursor and a streaming UTF-8 decoder. */
module Console {
  import opened CodePage
  import opened Words

  const SPACE: byte := 0x20

  /** grid has rows lines of cols glyphs; pending and awaited are the decoder's state. */
  datatype Screen = Screen(cols: nat, rows: nat, grid: seq<seq<byte>>, col: nat, row: nat, pending: nat, awaited: nat)

  function BlankLine(cols: nat): (l: seq<byte>)
    ensures |l| == cols && forall i :: 0 <= i < cols ==> l[i] == SPACE
  {
    seq(cols, i => SPACE)
  }

  function Cleared(cols: nat, rows: nat): Screen {
    Screen(cols, rows, seq(rows, i => BlankLine(cols)), 0, 0, 0, 0)
  }

  /** The grid has its declared shape, the cursor is on it, and the decoder waits for at most three bytes. */
  ghost predicate OnGrid(s: Screen) {
    && s.cols > 0 && s.rows > 0
    && |s.grid| == s.rows && (forall r :: 0 <= r < s.rows ==> |s.grid[r]| == s.cols)
    && s.col < s.cols && s.row < s.rows
    && s.awaited <= 3
    && (s.awaited == 0 ==> s.pending == 0)
    && (s.awaited == 1 ==> s.pending < 0x8000) && (s.awaited == 2 ==> s.pending < 0x200)
       && (s.awaited == 3 ==> s.pending < 8)
  }

  /** The screen with glyph g at the cursor. */
  function Drawn(s: Screen, g: byte): Screen {
    if s.row < |s.grid| && s.col < |s.grid[s.row]| then
      var line: seq<byte> := s.grid[s.row][s.col := g];
      s.(grid := s.grid[s.row := line])
    else s
  }

  /** The cursor one cell on, wrapping to the next line. */
  function Advanced(s: Screen): Screen {
    if s.col + 1 >= s.cols then s.(col := 0, row := s.row + 1) else s.(col := s.col + 1)
  }

  /** scroll_up: the first line is dropped and a blank one appended. */
  function ScrolledUp(s: Screen): Screen {
    if s.grid == [] then s else s.(grid := s.grid[1..] + [BlankLine(s.cols)])
  }

  /** The scroll label at the end of fb_putc. */
  function Scrolled(s: Screen): Screen {
    if s.row >= s.rows && s.rows > 0 then ScrolledUp(s).(row := s.rows - 1) else s
  }

  function Emit(s: Screen, g: byte): Screen {
    Scrolled(Advanced(Drawn(s, g)))
  }

  function Idle(s: Screen): Screen {
    s.(pending := 0, awaited := 0)
  }

  /** fb_putc. */
  function Putc(s: Screen, b: byte): Screen {
    if b == 0x0A then Scrolled(Idle(s).(col := 0, row := s.row + 1))
    else if b == 0x0D then Idle(s).(col := 0)
    else if b == 0x08 then
      if s.col > 0 then Drawn(Idle(s).(col := s.col - 1), SPACE) else Idle(s)
    else if b == 0x09 then
      var col := (s.col + 8) / 8 * 8;
      Scrolled(if col >= s.cols then Idle(s).(col := 0, row := s.row + 1) else Idle(s).(col := col))
    else if b < 0x20 then s
    else if b < 0x80 && s.awaited == 0 then Emit(s, b)
    else if s.awaited == 0 then
      if 0xC0 <= b < 0xE0 then s.(pending := b % 0x20, awaited := 1)
      else if 0xE0 <= b < 0xF0 then s.(pending := b % 0x10, awaited := 2)
      else if 0xF0 <= b < 0xF8 then s.(pending := b % 0x08, awaited := 3)
      else s
    else if !(0x80 <= b < 0xC0) then Idle(s)
    else
      var pending := s.pending * 0x40 + b % 0x40;
      if s.awaited != 1 then s.(pending := pending, awaited := s.awaited - 1)
      else Emit(s.(awaited := 0), ToCp1251(pending)).(pending := 0)
  }

  function Feed(s: Screen, bytes: seq<byte>): Screen
    decreases |bytes|
  {
    if bytes == [] then s else Feed(Putc(s, bytes[0]), bytes[1..])
  }

  // ----- The cursor stays on the grid -----

  lemma EmitOnGrid(s: Screen, g: byte)
    requires OnGrid(s)
    ensures OnGrid(Emit(s, g)) && Emit(s, g).cols == s.cols && Emit(s, g).rows == s.rows
  {
  }

  lemma PutcOnGrid(s: Screen, b: byte)
    requires OnGrid(s)
    ensures OnGrid(Putc(s, b)) && Putc(s, b).cols == s.cols && Putc(s, b).rows == s.rows
  {
    if b < 0x20 {
      ControlOnGrid(s, b);
    } else {
      ByteOnGrid(s, b);
    }
  }

  lemma ControlOnGrid(s: Screen, b: byte)
    requires OnGrid(s) && b < 0x20
    ensures OnGrid(Putc(s, b)) && Putc(s, b).cols == s.cols && Putc(s, b).rows == s.rows
  {
    hide Emit, ToCp1251;
  }

  lemma ByteOnGrid(s: Screen, b: byte)
    requires OnGrid(s) && b >= 0x20
    ensures OnGrid(Putc(s, b)) && Putc(s, b).cols == s.cols && Putc(s, b).rows == s.rows
  {
    hide Emit, ToCp1251, Scrolled, Drawn;
    if s.awaited == 0 || s.awaited == 1 {
      EmitOnGrid(s, b);
      EmitOnGrid(s.(awaited := 0, pending := 0), ToCp1251(s.pending * 0x40 + b % 0x40));
      EmitPending(s.(awaited := 0), ToCp1251(s.pending * 0x40 + b % 0x40));
    }
  }

  /** Emitting a glyph does not read the decoder's state. */
  lemma EmitPending(s: Screen, g: byte)
    ensures Emit(s, g).(pending := 0) == Emit(s.(pending := 0), g)
  {
  }

  /** Over any byte stream from a cleared screen the cursor stays on the grid. */
  lemma {:induction false} FeedOnGrid(s: Screen, bytes: seq<byte>)
    requires OnGrid(s)
    ensures OnGrid(Feed(s, bytes)) && Feed(s, bytes).cols == s.cols && Feed(s, bytes).rows == s.rows
    decreases |bytes|
  {
    hide OnGrid, Putc;
    if bytes != [] {
      PutcOnGrid(s, bytes[0]);
      FeedOnGrid(Putc(s, bytes[0]), bytes[1..]);
    }
  }

  // ----- UTF-8 -----

  /** The UTF-8 encoding of a code point, as in section 3 of RFC 3629. */
  function Utf8(cp: nat): (s: seq<byte>)
    requires cp < 0x11_0000
  {
    if cp < 0x80 then [cp]
    else if cp < 0x800 then [0xC0 + cp / 0x40, 0x80 + cp % 0x40]
    else if cp < 0x1_0000 then [0xE0 + cp / 0x1000, 0x80 + cp / 0x40 % 0x40, 0x80 + cp % 0x40]
    else [0xF0 + cp / 0x4_0000, 0x80 + cp / 0x1000 % 0x40, 0x80 + cp / 0x40 % 0x40, 0x80 + cp % 0x40]
  }

  ghost predicate Printable(cps: seq<nat>) {
    forall i :: 0 <= i < |cps| ==> 0x20 <= cps[i] < 0x11_0000
  }

  function Encode(cps: seq<nat>): seq<byte>
    requires Printable(cps)
    decreases |cps|
  {
    if cps == [] then [] else Utf8(cps[0]) + Encode(cps[1..])
  }

  /** The screen after drawing the glyphs of a text in order. */
  function EmitText(s: Screen, text: seq<byte>): Screen
    decreases |text|
  {
    if text == [] then s else EmitText(Emit(s, text[0]), text[1..])
  }

  /** One glyph for each code point. */
  function Glyphs(cps: seq<nat>): seq<byte>
    decreases |cps|
  {
    if cps == [] then [] else [ToCp1251(cps[0])] + Glyphs(cps[1..])
  }

  lemma {:induction false} FeedConcat(s: Screen, a: seq<byte>, b: seq<byte>)
    ensures Feed(s, a + b) == Feed(Feed(s, a), b)
    decreases |a|
  {
    hide Putc;
    if a == [] {
      assert a + b == b;
    } else {
      assert (a + b)[1..] == a[1..] + b;
      FeedConcat(Putc(s, a[0]), a[1..], b);
    }
  }

  lemma Feed1(s: Screen, b: byte)
    ensures Feed(s, [b]) == Putc(s, b)
  {
    hide Putc;
    assert Feed(Putc(s, b), [b][1..]) == Putc(s, b);
  }

  lemma FeedCons(s: Screen, b: byte, rest: seq<byte>)
    ensures Feed(s, [b] + rest) == Feed(Putc(s, b), rest)
  {
    hide Putc;
    assert ([b] + rest)[1..] == rest;
  }

  /** The decoder part way through a sequence: a continuation byte adds six bits. */
  lemma Continue(s: Screen, b: byte)
    requires 0x80 <= b < 0xC0 && s.awaited > 1
    ensures Putc(s, b) == s.(pending := s.pending * 0x40 + (b - 0x80), awaited := s.awaited - 1)
  {
  }

  lemma Finish(s: Screen, b: byte)
    requires 0x80 <= b < 0xC0 && s.awaited == 1
    ensures Putc(s, b) == Emit(s.(pending := 0, awaited := 0), ToCp1251(s.pending * 0x40 + (b - 0x80)))
  {
    hide Emit, ToCp1251;
    EmitPending(s.(awaited := 0), ToCp1251(s.pending * 0x40 + (b - 0x80)));
  }

  /** An idle decoder fed the encoding of a printable code point draws its glyph once and is idle again. */
  lemma OneCodePoint(s: Screen, cp: nat)
    requires s.pending == 0 && s.awaited == 0 && 0x20 <= cp < 0x11_0000
    ensures Feed(s, Utf8(cp)) == Emit(s, ToCp1251(cp))
    ensures Emit(s, ToCp1251(cp)).pending == 0 && Emit(s, ToCp1251(cp)).awaited == 0
  {
    if cp < 0x80 {
      hide Emit;
      Feed1(s, cp);
    } else if cp < 0x800 {
      TwoBytes(s, cp);
    } else if cp < 0x1_0000 {
      ThreeBytes(s, cp);
    } else {
      FourBytes(s, cp);
    }
    EmitIdle(s, ToCp1251(cp));
  }

  lemma EmitIdle(s: Screen, g: byte)
    ensures Emit(s, g).pending == s.pending && Emit(s, g).awaited == s.awaited
  {
  }

  lemma TwoBytes(s: Screen, cp: nat)
    requires s.pending == 0 && s.awaited == 0 && 0x80 <= cp < 0x800
    ensures Feed(s, Utf8(cp)) == Emit(s, ToCp1251(cp))
  {
    hide Emit, ToCp1251;
    var b0, b1 := 0xC0 + cp / 0x40, 0x80 + cp % 0x40;
    var s1 := s.(pending := cp / 0x40, awaited := 1);
    assert Putc(s, b0) == s1;
    hide Putc;
    FeedCons(s, b0, [b1]);
    Feed1(s1, b1);
    Finish(s1, b1);
  }

  lemma ThreeBytes(s: Screen, cp: nat)
    requires s.pending == 0 && s.awaited == 0 && 0x800 <= cp < 0x1_0000
    ensures Feed(s, Utf8(cp)) == Emit(s, ToCp1251(cp))
  {
    hide Emit, ToCp1251;
    var b0, b1, b2 := 0xE0 + cp / 0x1000, 0x80 + cp / 0x40 % 0x40, 0x80 + cp % 0x40;
    var s1 := s.(pending := cp / 0x1000, awaited := 2);
    assert Putc(s, b0) == s1;
    hide Putc;
    Continue(s1, b1);
    var s2 := s.(pending := cp / 0x1000 * 0x40 + cp / 0x40 % 0x40, awaited := 1);
    FeedCons(s, b0, [b1, b2]);
    FeedCons(s1, b1, [b2]);
    Feed1(s2, b2);
    Finish(s2, b2);
    Join6(cp);
    assert [b0, b1, b2] == [b0] + [b1, b2] && [b1, b2] == [b1] + [b2];
  }

  lemma Join6(cp: nat)
    ensures (cp / 0x1000 * 0x40 + cp / 0x40 % 0x40) * 0x40 + cp % 0x40 == cp
    ensures cp / 0x1000 * 0x40 + cp / 0x40 % 0x40 == cp / 0x40
    ensures cp / 0x4_0000 * 0x40 + cp / 0x1000 % 0x40 == cp / 0x1000
  {
    var q := cp / 0x40;
    assert q / 0x40 == cp / 0x1000;
    assert q / 0x40 / 0x40 == cp / 0x4_0000;
  }

  lemma LeadOfFour(s: Screen, cp: nat)
    requires s.pending == 0 && s.awaited == 0 && 0x1_0000 <= cp < 0x11_0000
    ensures Putc(s, 0xF0 + cp / 0x4_0000) == s.(pending := cp / 0x4_0000, awaited := 3)
  {
    hide Emit, ToCp1251, Scrolled, Drawn;
  }

  lemma FourBytes(s: Screen, cp: nat)
    requires s.pending == 0 && s.awaited == 0 && 0x1_0000 <= cp < 0x11_0000
    ensures Feed(s, Utf8(cp)) == Emit(s, ToCp1251(cp))
  {
    hide Emit, ToCp1251;
    var b0, b1, b2, b3 := 0xF0 + cp / 0x4_0000, 0x80 + cp / 0x1000 % 0x40, 0x80 + cp / 0x40 % 0x40, 0x80 + cp % 0x40;
    var s1 := s.(pending := cp / 0x4_0000, awaited := 3);
    LeadOfFour(s, cp);
    hide Putc;
    Join6(cp);
    Continue(s1, b1);
    var s2 := s.(pending := cp / 0x1000, awaited := 2);
    Continue(s2, b2);
    var s3 := s.(pending := cp / 0x40, awaited := 1);
    Finish(s3, b3);
    hide ToCp1251, Emit, Feed;
    FeedCons(s, b0, [b1, b2, b3]);
    FeedCons(s1, b1, [b2, b3]);
    FeedCons(s2, b2, [b3]);
    Feed1(s3, b3);
    assert [b0, b1, b2, b3] == [b0] + [b1, b2, b3] && [b1, b2, b3] == [b1] + [b2, b3] && [b2, b3] == [b2] + [b3];
  }

  /** For any printable code points, feeding their UTF-8 bytes draws one CP1251 glyph for each, in order. */
  lemma {:induction false} DecodesUtf8(s: Screen, cps: seq<nat>)
    requires s.pending == 0 && s.awaited == 0 && Printable(cps)
    ensures Feed(s, Encode(cps)) == EmitText(s, Glyphs(cps)) && |Glyphs(cps)| == |cps|
    ensures Feed(s, Encode(cps)).pending == 0 && Feed(s, Encode(cps)).awaited == 0
    decreases |cps|
  {
    hide Emit, ToCp1251, Utf8;
    if cps != [] {
      var s1 := Emit(s, ToCp1251(cps[0]));
      OneCodePoint(s, cps[0]);
      FeedConcat(s, Utf8(cps[0]), Encode(cps[1..]));
      DecodesUtf8(s1, cps[1..]);
      assert Glyphs(cps)[1..] == Glyphs(cps[1..]);
    }
  }

  /** One byte for a decoder that waits, or does not: leads, stray bytes, and sequences that break off. */
  lemma DecoderLaw(s: Screen, b: byte)
    requires OnGrid(s) && b >= 0x80
    ensures s.awaited == 0 ==>
              Putc(s, b) ==
              if 0xC0 <= b < 0xE0 then s.(pending := b - 0xC0, awaited := 1)
              else if 0xE0 <= b < 0xF0 then s.(pending := b - 0xE0, awaited := 2)
              else if 0xF0 <= b < 0xF8 then s.(pending := b - 0xF0, awaited := 3)
              else s
    ensures s.awaited > 0 && b >= 0xC0 ==> Putc(s, b) == s.(pending := 0, awaited := 0)
  {
    hide Emit, ToCp1251, Drawn, Scrolled;
  }

  /** A printable ASCII byte ends a sequence that waits for more, and is itself lost. */
  lemma BrokenOff(s: Screen, b: byte)
    requires s.awaited > 0 && 0x20 <= b < 0x80
    ensures Putc(s, b) == s.(pending := 0, awaited := 0)
  {
    hide Emit, ToCp1251, Drawn, Scrolled;
  }

  // ----- The control bytes -----

  /** t is s one line further down, at its start: the next row, or the last one with the grid moved up by a line. */
  ghost predicate LineDown(s: Screen, t: Screen) {
    && t.cols == s.cols && t.rows == s.rows && t.col == 0
    && (s.row + 1 < s.rows ==> t.row == s.row + 1 && t.grid == s.grid)
    && (s.row + 1 >= s.rows ==> t.row == s.row && s.grid != [] && t.grid == s.grid[1..] + [BlankLine(s.cols)])
  }

  ghost predicate IsIdle(s: Screen) {
    s.pending == 0 && s.awaited == 0
  }

  /** A newline goes to the start of the next line. */
  lemma NewlineLaw(s: Screen)
    requires OnGrid(s)
    ensures LineDown(s, Putc(s, 0x0A)) && IsIdle(Putc(s, 0x0A))
  {
  }

  /** A carriage return goes to the start of the line. */
  lemma ReturnLaw(s: Screen)
    ensures Putc(s, 0x0D) == s.(col := 0, pending := 0, awaited := 0)
  {
  }

  /** A backspace goes one cell back and blanks it; at the start of a line it does nothing. */
  lemma BackspaceLaw(s: Screen)
    requires OnGrid(s)
    ensures var t := Putc(s, 0x08);
            && OnGrid(t) && t.cols == s.cols && t.rows == s.rows && t.row == s.row && IsIdle(t)
            && t.col == (if s.col == 0 then 0 else s.col - 1)
            && forall r: nat, c: nat :: r < s.rows && c < s.cols ==>
                 t.grid[r][c] == if s.col > 0 && r == s.row && c == s.col - 1 then SPACE else s.grid[r][c]
  {
    PutcOnGrid(s, 0x08);
  }

  /** A tab goes to the next column that is a multiple of 8, or to the start of the next line if there is none. */
  lemma TabLaw(s: Screen)
    requires OnGrid(s)
    ensures var t := Putc(s, 0x09);
            && IsIdle(t)
            && (LineDown(s, t) ||
                (s.col < t.col < s.cols && t.col % 8 == 0 && t == s.(col := t.col, pending := 0, awaited := 0)))
            && (forall c: nat :: s.col < c < s.cols && c % 8 == 0 ==> !LineDown(s, t) && t.col <= c)
  {
    var col := (s.col + 8) / 8 * 8;
    assert col % 8 == 0 && s.col < col <= s.col + 8;
    forall c: nat | s.col < c < s.cols && c % 8 == 0 ensures col <= c { NextTab(s.col, c); }
  }

  lemma NextTab(col: nat, c: nat)
    requires col < c && c % 8 == 0
    ensures (col + 8) / 8 * 8 <= c
  {
    assert c == c / 8 * 8;
    assert (col + 8) / 8 <= c / 8;
  }

  /** The other control bytes do nothing. */
  lemma OtherControls(s: Screen, b: byte)
    requires b < 0x20 && b !in {0x08, 0x09, 0x0A, 0x0D}
    ensures Putc(s, b) == s
  {
  }

  /** A glyph is drawn at the cursor, which moves one cell on, to the next line from the last column. */
  lemma EmitLaw(s: Screen, g: byte) returns (d: Screen)
    requires OnGrid(s)
    ensures OnGrid(d) && d == s.(grid := d.grid)
    ensures forall r: nat, c: nat :: r < s.rows && c < s.cols ==>
              d.grid[r][c] == if r == s.row && c == s.col then g else s.grid[r][c]
    ensures var t := Emit(s, g);
            && t.pending == s.pending && t.awaited == s.awaited
            && (s.col + 1 < s.cols ==> t == d.(col := s.col + 1))
            && (s.col + 1 == s.cols ==> LineDown(d, t))
  {
    d := Drawn(s, g);
    EmitIdle(s, g);
  }

  // ----- What a text looks like -----

  /** The glyph in column c of a row of the text; blank behind its end. */
  function GlyphAt(row: seq<byte>, c: nat): byte {
    if c < |row| then row[c] else SPACE
  }

  /** A line of a text as rows of cols glyphs; the last one is short, and empty if the line fills its rows. */
  function Broken(line: seq<byte>, cols: nat): (rows: seq<seq<byte>>)
    requires cols > 0
    ensures |rows| > 0 && |rows[|rows| - 1]| < cols
    decreases |line|
  {
    if |line| < cols then [line] else [line[..cols]] + Broken(line[cols..], cols)
  }

  /** The lines of a text, each on rows of its own, as on a sheet of paper without end. */
  function Paper(lines: seq<seq<byte>>, cols: nat): seq<seq<byte>>
    requires cols > 0
  {
    if lines == [] then [] else Paper(lines[..|lines| - 1], cols) + Broken(lines[|lines| - 1], cols)
  }

  /** The first row of the paper in view. */
  function Top(paper: seq<seq<byte>>, rows: nat): nat {
    if |paper| > rows then |paper| - rows else 0
  }

  /** The screen shows the last rows of the paper, blank below them, and the cursor stands behind the last glyph. */
  ghost predicate Shows(s: Screen, paper: seq<seq<byte>>) {
    && OnGrid(s) && |paper| > 0
    && s.row == |paper| - 1 - Top(paper, s.rows) && s.col == |paper[|paper| - 1]|
    && forall r: nat, c: nat :: r < s.rows && c < s.cols ==> s.grid[r][c] == PaperAt(paper, Top(paper, s.rows) + r, c)
  }

  function PaperAt(paper: seq<seq<byte>>, row: nat, c: nat): byte {
    if row < |paper| then GlyphAt(paper[row], c) else SPACE
  }

  lemma ClearedShows(cols: nat, rows: nat)
    requires cols > 0 && rows > 0
    ensures Shows(Cleared(cols, rows), [[]])
  {
  }

  /** An empty row at the end of the paper. */
  lemma NewRow(d: Screen, t: Screen, paper: seq<seq<byte>>)
    requires OnGrid(d) && OnGrid(t) && LineDown(d, t) && |paper| > 0 && d.row == |paper| - 1 - Top(paper, d.rows)
    requires forall r: nat, c: nat :: r < d.rows && c < d.cols ==>
               d.grid[r][c] == PaperAt(paper, Top(paper, d.rows) + r, c)
    ensures Shows(t, paper + [[]])
  {
    var more := paper + [[]];
    var top := Top(paper, d.rows);
    forall r: nat, c: nat | r < t.rows && c < t.cols
      ensures t.grid[r][c] == PaperAt(more, Top(more, t.rows) + r, c)
    {
      if d.row + 1 < d.rows {
        assert Top(more, t.rows) == top;
      } else if r + 1 < t.rows {
        assert t.grid[r] == d.grid[r + 1] && d.grid[r + 1][c] == PaperAt(paper, top + (r + 1), c);
      }
    }
  }

  lemma NewlineShows(s: Screen, paper: seq<seq<byte>>)
    requires Shows(s, paper)
    ensures Shows(Putc(s, 0x0A), paper + [[]]) && IsIdle(Putc(s, 0x0A))
  {
    hide Putc;
    NewlineLaw(s);
    PutcOnGrid(s, 0x0A);
    NewRow(s, Putc(s, 0x0A), paper);
  }

  /** The paper with one more glyph. */
  function Extended(paper: seq<seq<byte>>, g: byte, cols: nat): seq<seq<byte>>
    requires |paper| > 0
  {
    var n := |paper| - 1;
    var row := paper[n] + [g];
    if |row| < cols then paper[..n] + [row] else paper[..n] + [row] + [[]]
  }

  lemma EmitShows(s: Screen, paper: seq<seq<byte>>, g: byte)
    requires Shows(s, paper)
    ensures Shows(Emit(s, g), Extended(paper, g, s.cols))
  {
    hide Emit;
    var n := |paper| - 1;
    var full := paper[..n] + [paper[n] + [g]];
    var d := EmitLaw(s, g);
    EmitOnGrid(s, g);
    var top := Top(paper, s.rows);
    assert |full| == |paper| && Top(full, s.rows) == top;
    forall r: nat, c: nat | r < s.rows && c < s.cols
      ensures d.grid[r][c] == PaperAt(full, top + r, c)
    {
      assert s.grid[r][c] == PaperAt(paper, top + r, c);
      if top + r < n { assert full[top + r] == paper[top + r]; }
    }
    if s.col + 1 == s.cols { NewRow(d, Emit(s, g), full); }
  }

  lemma {:induction false} BrokenMore(line: seq<byte>, g: byte, cols: nat)
    requires cols > 0
    ensures Broken(line + [g], cols) == Extended(Broken(line, cols), g, cols)
    decreases |line|
  {
    if |line| >= cols {
      assert (line + [g])[..cols] == line[..cols] && (line + [g])[cols..] == line[cols..] + [g];
      BrokenMore(line[cols..], g, cols);
      ExtendedTail([line[..cols]], Broken(line[cols..], cols), g, cols);
    } else if |line| + 1 == cols {
      assert (line + [g])[..cols] == line + [g] && (line + [g])[cols..] == [];
    }
  }

  lemma ExtendedTail(a: seq<seq<byte>>, b: seq<seq<byte>>, g: byte, cols: nat)
    requires |b| > 0
    ensures |a + b| > 0 && Extended(a + b, g, cols) == a + Extended(b, g, cols)
  {
    var n := |a + b| - 1;
    assert (a + b)[n] == b[|b| - 1] && (a + b)[..n] == a + b[..|b| - 1];
  }

  /** The text with glyph g at the end of its last line. */
  lemma PaperMore(before: seq<seq<byte>>, line: seq<byte>, g: byte, cols: nat)
    requires cols > 0
    ensures |Paper(before + [line], cols)| > 0
    ensures Paper(before + [line + [g]], cols) == Extended(Paper(before + [line], cols), g, cols)
  {
    hide Broken, Extended;
    PaperLast(before, line, cols);
    PaperLast(before, line + [g], cols);
    BrokenMore(line, g, cols);
    ExtendedTail(Paper(before, cols), Broken(line, cols), g, cols);
  }

  lemma PaperLast(before: seq<seq<byte>>, line: seq<byte>, cols: nat)
    requires cols > 0
    ensures Paper(before + [line], cols) == Paper(before, cols) + Broken(line, cols)
  {
    hide Broken;
    assert (before + [line])[..|before|] == before;
  }

  /** Glyphs drawn one after the other extend the last line. */
  lemma {:induction false} TextShows(s: Screen, before: seq<seq<byte>>, line: seq<byte>, text: seq<byte>)
    requires s.cols > 0 && Shows(s, Paper(before + [line], s.cols))
    ensures EmitText(s, text).cols == s.cols && Shows(EmitText(s, text), Paper(before + [line + text], s.cols))
    decreases |text|
  {
    hide Emit, Shows, Paper;
    if text == [] {
      assert line + text == line;
    } else {
      PaperMore(before, line, text[0], s.cols);
      ShownOnGrid(s, Paper(before + [line], s.cols));
      EmitOnGrid(s, text[0]);
      EmitShows(s, Paper(before + [line], s.cols), text[0]);
      TextShows(Emit(s, text[0]), before, line + [text[0]], text[1..]);
      assert line + [text[0]] + text[1..] == line + text;
    }
  }

  lemma ShownOnGrid(s: Screen, paper: seq<seq<byte>>)
    requires Shows(s, paper)
    ensures OnGrid(s)
  {
  }

  ghost predicate PrintableLines(lines: seq<seq<nat>>) {
    forall i :: 0 <= i < |lines| ==> Printable(lines[i])
  }

  /** The bytes of lines with a newline between each two. */
  function EncodeLines(lines: seq<seq<nat>>): seq<byte>
    requires PrintableLines(lines)
  {
    if lines == [] then []
    else if |lines| == 1 then Encode(lines[0])
    else EncodeLines(lines[..|lines| - 1]) + [0x0A] + Encode(lines[|lines| - 1])
  }

  function GlyphLines(lines: seq<seq<nat>>): seq<seq<byte>> {
    if lines == [] then [] else GlyphLines(lines[..|lines| - 1]) + [Glyphs(lines[|lines| - 1])]
  }

  /** One more line, from a screen that shows the text before it and stands on a fresh row. */
  lemma LineShows(s: Screen, before: seq<seq<byte>>, cps: seq<nat>)
    requires s.cols > 0 && Printable(cps) && Shows(s, Paper(before + [[]], s.cols)) && IsIdle(s)
    ensures var t := Feed(s, Encode(cps));
            t.cols == s.cols && IsIdle(t) && Shows(t, Paper(before + [Glyphs(cps)], s.cols))
  {
    hide Feed, EmitText, Encode, Shows, Paper;
    DecodesUtf8(s, cps);
    TextShows(s, before, [], Glyphs(cps));
    assert [] + Glyphs(cps) == Glyphs(cps);
  }

  lemma {:induction false} LinesShow(cols: nat, rows: nat, lines: seq<seq<nat>>)
    requires cols > 0 && rows > 0 && lines != [] && PrintableLines(lines)
    ensures var t := Feed(Cleared(cols, rows), EncodeLines(lines));
            t.cols == cols && t.rows == rows && IsIdle(t) && Shows(t, Paper(GlyphLines(lines), cols))
    decreases |lines|
  {
    hide Feed, Encode, Shows, Paper, Printable, Putc, Glyphs;
    var n := |lines| - 1;
    var s := Cleared(cols, rows);
    if n == 0 {
      ClearedShows(cols, rows);
      FreshPaper(cols);
      FeedOnGrid(s, Encode(lines[0]));
      LineShows(s, [], lines[0]);
      assert GlyphLines(lines[..0]) == [];
    } else {
      LinesShow(cols, rows, lines[..n]);
      var t := Feed(s, EncodeLines(lines[..n]));
      var before := GlyphLines(lines[..n]);
      NewlineShows(t, Paper(before, cols));
      RowAfter(before, cols);
      ShownOnGrid(t, Paper(before, cols));
      PutcOnGrid(t, 0x0A);
      LineShows(Putc(t, 0x0A), before, lines[n]);
      FeedOnGrid(Putc(t, 0x0A), Encode(lines[n]));
      FeedConcat(s, EncodeLines(lines[..n]), [0x0A] + Encode(lines[n]));
      FeedCons(t, 0x0A, Encode(lines[n]));
      assert EncodeLines(lines) == EncodeLines(lines[..n]) + ([0x0A] + Encode(lines[n]));
    }
  }

  lemma FreshPaper(cols: nat)
    requires cols > 0
    ensures Paper([] + [[]], cols) == [[]]
  {
    PaperLast([], [], cols);
  }

  lemma RowAfter(before: seq<seq<byte>>, cols: nat)
    requires cols > 0
    ensures Paper(before + [[]], cols) == Paper(before, cols) + [[]]
  {
    PaperLast(before, [], cols);
  }

  /**
   End to end: UTF-8 text with newlines, fed to a cleared console of any size, leaves on the screen the CP1251 glyphs
   of its code points, each line begun on a row of its own at column 0 and broken after cols glyphs, the last rows
   in view and the cursor behind the last glyph.
   */
  lemma ConsoleShowsText(cols: nat, rows: nat, lines: seq<seq<nat>>)
    requires cols > 0 && rows > 0 && lines != [] && PrintableLines(lines)
    ensures Shows(Feed(Cleared(cols, rows), EncodeLines(lines)), Paper(GlyphLines(lines), cols))
  {
    hide Shows, Feed, EncodeLines, GlyphLines, Paper;
    LinesShow(cols, rows, lines);
  }
}
