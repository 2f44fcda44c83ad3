/** The pixel framebuffer of kernel/fb/fb.c and the character grid it shows. */
module FrameBuffer {
  import opened Console
  import opened CodePage
  import opened Words

  const GLYPH_WIDTH: nat := 8
  const GLYPH_HEIGHT: nat := 16
  const BLACK: nat := 0x0000_0000
  const WHITE: nat := 0x00FF_FFFF

  /** 256 glyphs of 16 rows of 8 bits. */
  type Font = seq<seq<byte>>

  /** The font is complete and its space is empty. */
  ghost predicate ValidFont(font: Font) {
    && |font| == 256 && (forall g :: 0 <= g < 256 ==> |font[g]| == GLYPH_HEIGHT)
    && forall y :: 0 <= y < GLYPH_HEIGHT ==> font[0x20][y] == 0
  }

  /** Bit 7 - x of a glyph row: the pixel in column x. */
  predicate GlyphBit(bits: byte, x: nat)
    requires x < 8
  {
    bits / [0x80, 0x40, 0x20, 0x10, 0x08, 0x04, 0x02, 0x01][x] % 2 == 1
  }

  function GlyphPixel(font: Font, g: byte, x: nat, y: nat): nat
    requires ValidFont(font) && x < GLYPH_WIDTH && y < GLYPH_HEIGHT
  {
    if GlyphBit(font[g][y], x) then WHITE else BLACK
  }

  /** The colour the grid gives the pixel at (x, y); pixels beyond the text area are black. */
  function Shade(font: Font, s: Screen, x: nat, y: nat): nat
    requires ValidFont(font) && OnGrid(s)
  {
    if y / GLYPH_HEIGHT < s.rows && x / GLYPH_WIDTH < s.cols
    then GlyphPixel(font, s.grid[y / GLYPH_HEIGHT][x / GLYPH_WIDTH], x % GLYPH_WIDTH, y % GLYPH_HEIGHT)
    else BLACK
  }

  /** The place of pixel (x, y) in the buffer. */
  function Offset(pitch: nat, x: nat, y: nat): nat {
    y * pitch + x
  }

  lemma RowBelow(pitch: nat, y: nat, y': nat)
    requires y < y'
    ensures y * pitch + pitch <= y' * pitch
  {
    var k := y' - y - 1;
    assert y' * pitch == (y + 1 + k) * pitch == y * pitch + pitch + k * pitch;
    assert k * pitch >= 0;
  }

  lemma OffsetLaw(pitch: nat, height: nat, x: nat, y: nat, x': nat, y': nat)
    requires x < pitch && x' < pitch && y < height
    ensures Offset(pitch, x, y) == Offset(pitch, x', y') <==> x == x' && y == y'
    ensures Offset(pitch, x, y) < height * pitch
  {
    RowBelow(pitch, y, height);
    if y < y' {
      RowBelow(pitch, y, y');
    } else if y' < y {
      RowBelow(pitch, y', y);
    }
  }

  function Digit(bits: byte, x: nat): nat
    requires x < 8
  {
    if GlyphBit(bits, x) then 1 else 0
  }

  /** The pixels of a glyph row are the binary digits of its byte, the highest first. */
  lemma GlyphDigits(bits: byte)
    ensures bits == 0x80 * Digit(bits, 0) + 0x40 * Digit(bits, 1) + 0x20 * Digit(bits, 2) + 0x10 * Digit(bits, 3)
                    + 8 * Digit(bits, 4) + 4 * Digit(bits, 5) + 2 * Digit(bits, 6) + Digit(bits, 7)
  {
    DigitValues(bits);
    hide Digit;
    Binary(bits);
  }

  lemma DigitValues(bits: byte)
    ensures Digit(bits, 0) == bits / 128 % 2 && Digit(bits, 1) == bits / 64 % 2
    ensures Digit(bits, 2) == bits / 32 % 2 && Digit(bits, 3) == bits / 16 % 2
    ensures Digit(bits, 4) == bits / 8 % 2 && Digit(bits, 5) == bits / 4 % 2
    ensures Digit(bits, 6) == bits / 2 % 2 && Digit(bits, 7) == bits % 2
  {
  }

  lemma Binary(b: byte)
    ensures b == 128 * (b / 128 % 2) + 64 * (b / 64 % 2) + 32 * (b / 32 % 2) + 16 * (b / 16 % 2)
                 + 8 * (b / 8 % 2) + 4 * (b / 4 % 2) + 2 * (b / 2 % 2) + b % 2
  {
    Quarters(b);
    Quarters(b / 4);
    Quarters(b / 16);
    Quarters(b / 64);
    Eighths(b);
  }

  /** The last two binary digits. */
  lemma Quarters(q: nat)
    ensures q == 4 * (q / 4) + 2 * (q / 2 % 2) + q % 2
  {
    var half := q / 2;
    assert half / 2 == q / 4;
  }

  lemma Eighths(b: byte)
    ensures b / 4 / 2 == b / 8 && b / 4 / 4 == b / 16 && b / 16 / 2 == b / 32 && b / 16 / 4 == b / 64
    ensures b / 64 / 2 == b / 128 && b / 64 / 4 == 0
  {
  }

  class Terminal {
    const px: array<nat>
    const font: Font
    const width: nat
    const height: nat
    const pitch: nat
    var col: nat
    var row: nat
    var cols: nat
    var rows: nat
    var pending: nat
    var awaited: nat
    ghost var screen: Screen

    /** A usable mode: at least one cell, the pitch covers the width, and no 32-bit product overflows. */
    ghost predicate Mode() {
      && ValidFont(font)
      && GLYPH_WIDTH <= width <= pitch && GLYPH_HEIGHT <= height
      && height * pitch < TWO_32 && 4 * GLYPH_HEIGHT * pitch < TWO_32
      && px.Length == height * pitch
    }

    /** Every visible pixel has the colour the grid gives it, and the cursor and decoder are the grid's. */
    ghost predicate Valid()
      reads this, px
    {
      && Mode() && OnGrid(screen)
      && cols == screen.cols == width / GLYPH_WIDTH && rows == screen.rows == height / GLYPH_HEIGHT
      && col == screen.col && row == screen.row && pending == screen.pending && awaited == screen.awaited
      && Pictures(px[..], screen)
    }

    /** m shows s. */
    ghost predicate Pictures(m: seq<nat>, s: Screen)
      requires Mode() && OnGrid(s) && |m| == height * pitch
    {
      forall x: nat, y: nat :: x < width && y < height ==> At(m, x, y) == Shade(font, s, x, y)
    }

    function At(m: seq<nat>, x: nat, y: nat): nat
      requires x < width && y < height && width <= pitch && |m| == height * pitch
    {
      OffsetLaw(pitch, height, x, y, x, y);
      m[Offset(pitch, x, y)]
    }

    method PutPixel(x: nat, y: nat, color: nat)
      requires Mode()
      modifies px
      ensures forall a: nat, b: nat :: a < width && b < height ==>
                At(px[..], a, b) == if a == x && b == y then color else old(At(px[..], a, b))
    {
      if x >= width || y >= height { return; }
      OffsetLaw(pitch, height, x, y, x, y);
      ghost var m := px[..];
      px[y * pitch + x] := color;
      forall a: nat, b: nat | a < width && b < height
        ensures At(px[..], a, b) == if a == x && b == y then color else At(m, a, b)
      {
        OffsetLaw(pitch, height, a, b, x, y);
      }
    }

    /** draw_glyph: exactly the 8 by 16 pixels at (left, top) take the glyph's colours. */
    method DrawGlyph(left: nat, top: nat, g: byte)
      requires Mode()
      modifies px
      ensures forall a: nat, b: nat :: a < width && b < height ==>
                At(px[..], a, b) == if left <= a < left + GLYPH_WIDTH && top <= b < top + GLYPH_HEIGHT
                                    then GlyphPixel(font, g, a - left, b - top) else old(At(px[..], a, b))
    {
      hide At, Offset, GlyphBit;
      ghost var m := px[..];
      var y := 0;
      while y < GLYPH_HEIGHT
        invariant y <= GLYPH_HEIGHT
        invariant forall a: nat, b: nat :: a < width && b < height ==>
                    At(px[..], a, b) == if left <= a < left + GLYPH_WIDTH && top <= b < top + y
                                        then GlyphPixel(font, g, a - left, b - top) else At(m, a, b)
      {
        var bits := font[g][y];
        var x := 0;
        while x < GLYPH_WIDTH
          invariant x <= GLYPH_WIDTH
          invariant forall a: nat, b: nat :: a < width && b < height ==>
                      At(px[..], a, b) == if (left <= a < left + GLYPH_WIDTH && top <= b < top + y)
                          || (b == top + y && left <= a < left + x)
                                          then GlyphPixel(font, g, a - left, b - top) else At(m, a, b)
        {
          PutPixel(left + x, top + y, if GlyphBit(bits, x) then WHITE else BLACK);
          x := x + 1;
        }
        y := y + 1;
      }
    }

    method Fill(color: nat)
      requires Mode()
      modifies px
      ensures forall a: nat, b: nat :: a < width && b < height ==> At(px[..], a, b) == color
    {
      hide Offset;
      var y := 0;
      while y < height
        invariant y <= height
        invariant forall a: nat, b: nat :: a < width && b < y ==> At(px[..], a, b) == color
      {
        var x := 0;
        while x < width
          invariant x <= width
          invariant forall a: nat, b: nat :: a < width && b < y ==> At(px[..], a, b) == color
          invariant forall a: nat :: a < x ==> At(px[..], a, y) == color
        {
          hide At;
          PutPixel(x, y, color);
          x := x + 1;
        }
        y := y + 1;
      }
    }

    /**
     scroll_up on the flat buffer, in place: every word takes the one a text line further on, the last line goes
     black.
     */
    method ScrollUp()
      requires Mode()
      modifies px
      ensures forall i :: 0 <= i < px.Length ==>
                px[i] == if i < (height - GLYPH_HEIGHT) * pitch then old(px[..])[i + GLYPH_HEIGHT * pitch] else BLACK
    {
      ghost var m := px[..];
      var line := GLYPH_HEIGHT * pitch;
      var copied := (height - GLYPH_HEIGHT) * pitch;
      assert copied + line == height * pitch;
      var i := 0;
      while i < copied
        invariant 0 <= i <= copied
        invariant forall j :: 0 <= j < i ==> px[j] == m[j + line]
        invariant forall j :: i <= j < px.Length ==> px[j] == m[j]
      {
        px[i] := px[i + line];
        i := i + 1;
      }
      i := copied;
      while i < height * pitch
        invariant copied <= i <= height * pitch
        invariant forall j :: 0 <= j < copied ==> px[j] == m[j + line]
        invariant forall j :: copied <= j < i ==> px[j] == BLACK
      {
        px[i] := BLACK;
        i := i + 1;
      }
    }

    lemma ScrolledPixel(m: seq<nat>, m': seq<nat>, x: nat, y: nat)
      requires Mode() && |m| == |m'| == height * pitch && x < width && y < height
      requires forall i :: 0 <= i < |m| ==>
                 m'[i] == if i < (height - GLYPH_HEIGHT) * pitch then m[i + GLYPH_HEIGHT * pitch] else BLACK
      ensures At(m', x, y) == if y + GLYPH_HEIGHT < height then At(m, x, y + GLYPH_HEIGHT) else BLACK
    {
      OffsetLaw(pitch, height, x, y, x, y);
      var limit := height - GLYPH_HEIGHT;
      if y < limit {
        OffsetLaw(pitch, limit, x, y, x, y);
        assert Offset(pitch, x, y + GLYPH_HEIGHT) == Offset(pitch, x, y) + GLYPH_HEIGHT * pitch by {
          assert (y + GLYPH_HEIGHT) * pitch == y * pitch + GLYPH_HEIGHT * pitch;
        }
      } else {
        assert limit * pitch <= y * pitch by { if limit < y { RowBelow(pitch, limit, y); } }
      }
    }

    /** 1 for a white pixel, 0 for a black one; other colours have no value. */
    predicate Lit(m: seq<nat>, x: nat, y: nat, digit: nat)
      requires x < width && y < height && width <= pitch && |m| == height * pitch
    {
      At(m, x, y) == if digit == 1 then 0x00FF_FFFF else 0
    }

    /** Pixel k of row y of a cell shows bit 7 - k of the font's byte. */
    lemma PixelShows(r: nat, c: nat, y: nat, k: nat)
      requires Valid() && r < rows && c < cols && y < 16 && k < 8
      ensures 8 * c + k < width && 16 * r + y < height && |px[..]| == height * pitch
      ensures Lit(px[..], 8 * c + k, 16 * r + y, Digit(font[screen.grid[r][c]][y], k))
    {
      hide At, GlyphBit;
      assert (8 * c + k) / 8 == c && (8 * c + k) % 8 == k;
      assert (16 * r + y) / 16 == r && (16 * r + y) % 16 == y;
    }

    /**
     Whatever is on the screen, the eight pixels of a row of a cell are the binary digits of the font's byte for its
     glyph, the highest on the left, white for 1 on black for 0.
     */
    lemma PixelsSpellGlyphs(r: nat, c: nat, y: nat) returns (d: seq<nat>)
      requires Valid() && r < rows && c < cols && y < 16
      ensures 8 * c + 7 < width && 16 * r + y < height && |px[..]| == height * pitch
      ensures |d| == 8 && forall k: nat :: k < 8 ==> d[k] <= 1 && Lit(px[..], 8 * c + k, 16 * r + y, d[k])
      ensures font[screen.grid[r][c]][y] ==
              128 * d[0] + 64 * d[1] + 32 * d[2] + 16 * d[3] + 8 * d[4] + 4 * d[5] + 2 * d[6] + d[7]
    {
      hide At, GlyphBit, Lit;
      var bits := font[screen.grid[r][c]][y];
      PixelShows(r, c, y, 7);
      forall k: nat | k < 8 ensures Lit(px[..], 8 * c + k, 16 * r + y, Digit(bits, k)) { PixelShows(r, c, y, k); }
      d := seq(8, k requires 0 <= k < 8 => Digit(bits, k));
      GlyphDigits(bits);
    }

    /** Pixels beyond the cells are black. */
    lemma MarginIsBlack(x: nat, y: nat)
      requires Valid() && x < width && y < height && (x >= 8 * cols || y >= 16 * rows)
      ensures At(px[..], x, y) == BLACK
    {
      hide At, GlyphBit;
    }

    /** Moving all pixels up by one text line shows the grid scrolled by one line. */
    lemma ScrollPictures(m: seq<nat>, m': seq<nat>, s: Screen)
      requires Mode() && OnGrid(s) && |m| == |m'| == height * pitch && Pictures(m, s)
      requires s.rows == height / GLYPH_HEIGHT && s.cols == width / GLYPH_WIDTH
      requires forall i :: 0 <= i < |m| ==>
                 m'[i] == if i < (height - GLYPH_HEIGHT) * pitch then m[i + GLYPH_HEIGHT * pitch] else BLACK
      ensures OnGrid(ScrolledUp(s)) && Pictures(m', ScrolledUp(s))
    {
      forall x: nat, y: nat | x < width && y < height
        ensures At(m', x, y) == Shade(font, ScrolledUp(s), x, y)
      {
        hide At, Pictures;
        ScrolledPixel(m, m', x, y);
        if y + GLYPH_HEIGHT < height {
          assert At(m, x, y + GLYPH_HEIGHT) == Shade(font, s, x, y + GLYPH_HEIGHT) by {
            PictureAt(m, s, x, y + GLYPH_HEIGHT);
          }
        }
        ShadeScrolled(s, x, y);
      }
    }

    lemma PictureAt(m: seq<nat>, s: Screen, x: nat, y: nat)
      requires Mode() && OnGrid(s) && |m| == height * pitch && Pictures(m, s) && x < width && y < height
      ensures At(m, x, y) == Shade(font, s, x, y)
    {
    }

    lemma SpaceIsBlack(x: nat, y: nat)
      requires ValidFont(font) && x < GLYPH_WIDTH && y < GLYPH_HEIGHT
      ensures GlyphPixel(font, SPACE, x, y) == BLACK
    {
    }

    lemma ShadeScrolled(s: Screen, x: nat, y: nat)
      requires Mode() && OnGrid(s) && x < width && y < height && s.rows == height / GLYPH_HEIGHT
      ensures OnGrid(ScrolledUp(s))
      ensures Shade(font, ScrolledUp(s), x, y) ==
              if y + GLYPH_HEIGHT < height then Shade(font, s, x, y + GLYPH_HEIGHT) else BLACK
    {
      hide GlyphPixel;
      var r, c := y / GLYPH_HEIGHT, x / GLYPH_WIDTH;
      assert (y + GLYPH_HEIGHT) / GLYPH_HEIGHT == r + 1 && (y + GLYPH_HEIGHT) % GLYPH_HEIGHT == y % GLYPH_HEIGHT;
      SpaceIsBlack(x % GLYPH_WIDTH, y % GLYPH_HEIGHT);
      if y + GLYPH_HEIGHT >= height { assert r + 1 >= s.rows; }
    }

    /** Drawing a glyph in a cell shows the grid with that cell changed. */
    lemma DrawPictures(m: seq<nat>, m': seq<nat>, s: Screen, g: byte)
      requires Mode() && OnGrid(s) && |m| == |m'| == height * pitch && Pictures(m, s)
      requires forall a: nat, b: nat :: a < width && b < height ==>
                 At(m', a, b) == if s.col * GLYPH_WIDTH <= a < s.col * GLYPH_WIDTH + GLYPH_WIDTH &&
                                    s.row * GLYPH_HEIGHT <= b < s.row * GLYPH_HEIGHT + GLYPH_HEIGHT
                                 then GlyphPixel(font, g, a - s.col * GLYPH_WIDTH, b - s.row * GLYPH_HEIGHT)
                                     else At(m, a, b)
      ensures OnGrid(Drawn(s, g)) && Pictures(m', Drawn(s, g))
    {
      forall x: nat, y: nat | x < width && y < height
        ensures At(m', x, y) == Shade(font, Drawn(s, g), x, y)
      {
        hide At, GlyphPixel;
        ShadeDrawn(s, g, x, y);
      }
    }

    lemma ShadeDrawn(s: Screen, g: byte, x: nat, y: nat)
      requires ValidFont(font) && OnGrid(s)
      ensures OnGrid(Drawn(s, g))
      ensures Shade(font, Drawn(s, g), x, y) ==
              if s.col * GLYPH_WIDTH <= x < s.col * GLYPH_WIDTH + GLYPH_WIDTH &&
                 s.row * GLYPH_HEIGHT <= y < s.row * GLYPH_HEIGHT + GLYPH_HEIGHT
              then GlyphPixel(font, g, x - s.col * GLYPH_WIDTH, y - s.row * GLYPH_HEIGHT) else Shade(font, s, x, y)
    {
      hide GlyphPixel;
      var r, c := y / GLYPH_HEIGHT, x / GLYPH_WIDTH;
      assert c == s.col <==> s.col * GLYPH_WIDTH <= x < s.col * GLYPH_WIDTH + GLYPH_WIDTH;
      assert r == s.row <==> s.row * GLYPH_HEIGHT <= y < s.row * GLYPH_HEIGHT + GLYPH_HEIGHT;
    }

    /** draw_glyph at the cursor. */
    method DrawHere(g: byte)
      requires Valid()
      modifies px, this`screen
      ensures Valid() && screen == Drawn(old(screen), g)
    {
      hide At, Pictures, OnGrid;
      ghost var m := px[..];
      DrawGlyph(col * GLYPH_WIDTH, row * GLYPH_HEIGHT, g);
      DrawPictures(m, px[..], screen, g);
      DrawnCursor(screen, g);
      screen := Drawn(screen, g);
    }

    /** The fields follow the screen s, whose cursor may stand one line below the grid. */
    ghost predicate Follows(s: Screen)
      reads this
    {
      && Mode() && s.row <= s.rows && OnGrid(s.(row := 0))
      && cols == s.cols == width / GLYPH_WIDTH && rows == s.rows == height / GLYPH_HEIGHT
      && col == s.col && row == s.row && pending == s.pending && awaited == s.awaited
    }

    /** The scroll label at the end of fb_putc. */
    method Settle(ghost s: Screen)
      requires Follows(s) && Pictures(px[..], s.(row := 0))
      modifies this`row, this`screen, px
      ensures Valid() && screen == Scrolled(s)
    {
      hide At, Shade;
      ghost var m := px[..];
      ghost var g := s.(row := 0);
      if row >= rows {
        ScrollUp();
        ScrollPictures(m, px[..], g);
        row := rows - 1;
        screen := Scrolled(s);
        SamePictures(px[..], ScrolledUp(g), screen);
      } else {
        screen := s;
        SamePictures(m, g, s);
      }
    }

    lemma SamePictures(m: seq<nat>, s: Screen, s': Screen)
      requires Mode() && OnGrid(s) && |m| == height * pitch && Pictures(m, s)
      requires OnGrid(s') && s'.grid == s.grid && s'.cols == s.cols && s'.rows == s.rows
      ensures Pictures(m, s')
    {
      hide At, GlyphPixel;
    }

    /** Drawing a glyph and moving on, as both character branches of fb_putc do. */
    method EmitGlyph(g: byte)
      requires Valid()
      modifies px, this`screen, this`col, this`row
      ensures Valid() && screen == Emit(old(screen), g)
    {
      hide At, Shade, Pictures;
      DrawHere(g);
      ghost var d := screen;
      col := col + 1;
      if col >= cols { col := 0; row := row + 1; }
      SamePictures(px[..], d, Advanced(d).(row := 0));
      Settle(Advanced(d));
    }

    method Putc(b: byte)
      requires Valid()
      modifies px, this
      ensures Valid() && screen == Console.Putc(old(screen), b)
    {
      hide At, Shade, Pictures, Emit, ToCp1251, ScrolledUp;
      ghost var s := screen;
      if b == 0x0A {
        pending, awaited, col, row := 0, 0, 0, row + 1;
        ghost var s1 := Idle(s).(col := 0, row := s.row + 1);
        SamePictures(px[..], s, s1.(row := 0));
        Settle(s1);
        return;
      }
      if b == 0x0D {
        pending, awaited, col := 0, 0, 0;
        screen := Idle(s).(col := 0);
        SamePictures(px[..], s, screen);
        return;
      }
      if b == 0x08 {
        pending, awaited := 0, 0;
        screen := Idle(s);
        SamePictures(px[..], s, screen);
        if col > 0 {
          col := col - 1;
          screen := screen.(col := col);
          SamePictures(px[..], s, screen);
          DrawHere(SPACE);
        }
        return;
      }
      if b == 0x09 {
        pending, awaited := 0, 0;
        col := (col + 8) / 8 * 8;
        if col >= cols { col := 0; row := row + 1; }
        ghost var s1 := Idle(s).(col := col, row := row);
        SamePictures(px[..], s, s1.(row := 0));
        Settle(s1);
        return;
      }
      if b < 0x20 { return; }
      if b < 0x80 && awaited == 0 {
        EmitGlyph(b);
        return;
      }
      if awaited == 0 {
        if 0xC0 <= b < 0xE0 { pending := b % 0x20; awaited := 1; }
        else if 0xE0 <= b < 0xF0 { pending := b % 0x10; awaited := 2; }
        else if 0xF0 <= b < 0xF8 { pending := b % 0x08; awaited := 3; }
        screen := s.(pending := pending, awaited := awaited);
        SamePictures(px[..], s, screen);
        return;
      }
      if !(0x80 <= b < 0xC0) {
        pending, awaited := 0, 0;
        screen := Idle(s);
        SamePictures(px[..], s, screen);
        return;
      }
      PutContinuation(b);
    }

    /** The tail of fb_putc: a continuation byte while the decoder waits for one. */
    method PutContinuation(b: byte)
      requires Valid() && 0x80 <= b < 0xC0 && awaited > 0
      modifies px, this
      ensures Valid() && screen == Console.Putc(old(screen), b)
    {
      hide At, Shade, Pictures, Emit, ToCp1251;
      ghost var s := screen;
      pending := pending * 0x40 + b % 0x40;
      awaited := awaited - 1;
      if awaited != 0 {
        screen := s.(pending := pending, awaited := awaited);
        SamePictures(px[..], s, screen);
        return;
      }
      var glyph := ToCp1251(pending);
      pending := 0;
      screen := s.(pending := 0, awaited := 0);
      SamePictures(px[..], s, screen);
      EmitPending(s.(awaited := 0), glyph);
      EmitGlyph(glyph);
    }

    /** fb_init on a usable mode: a black buffer, which shows the cleared grid. */
    constructor (buffer: array<nat>, glyphs: Font, w: nat, h: nat, p: nat)
      requires ValidFont(glyphs) && GLYPH_WIDTH <= w <= p && GLYPH_HEIGHT <= h
      requires h * p < TWO_32 && 4 * GLYPH_HEIGHT * p < TWO_32 && buffer.Length == h * p
      modifies buffer
      ensures Valid() && screen == Cleared(w / GLYPH_WIDTH, h / GLYPH_HEIGHT)
      ensures px == buffer && font == glyphs && width == w && height == h && pitch == p
    {
      px, font, width, height, pitch := buffer, glyphs, w, h, p;
      cols, rows := w / GLYPH_WIDTH, h / GLYPH_HEIGHT;
      col, row, pending, awaited := 0, 0, 0, 0;
      screen := Cleared(w / GLYPH_WIDTH, h / GLYPH_HEIGHT);
      new;
      hide At, Offset;
      Fill(BLACK);
      BlackIsCleared(px[..]);
    }

    lemma BlackIsCleared(m: seq<nat>)
      requires Mode() && |m| == height * pitch
      requires forall a: nat, b: nat :: a < width && b < height ==> At(m, a, b) == BLACK
      ensures OnGrid(Cleared(width / GLYPH_WIDTH, height / GLYPH_HEIGHT))
      ensures Pictures(m, Cleared(width / GLYPH_WIDTH, height / GLYPH_HEIGHT))
    {
      hide At;
      forall x: nat, y: nat | x < width && y < height
        ensures Shade(font, Cleared(width / GLYPH_WIDTH, height / GLYPH_HEIGHT), x, y) == BLACK
      {
        SpaceIsBlack(x % GLYPH_WIDTH, y % GLYPH_HEIGHT);
      }
    }

    /** fb_puts: the pixels show what the grid model makes of the bytes. */
    method Puts(bytes: seq<byte>)
      requires Valid()
      modifies px, this
      ensures Valid() && screen == Feed(old(screen), bytes)
    {
      hide At, Shade, Pictures, Console.Putc, OnGrid;
      ghost var s := screen;
      var i := 0;
      assert bytes[..0] == [];
      while i < |bytes|
        invariant 0 <= i <= |bytes| && Valid() && screen == Feed(s, bytes[..i])
      {
        Putc(bytes[i]);
        assert bytes[..i + 1] == bytes[..i] + [bytes[i]];
        FeedConcat(s, bytes[..i], [bytes[i]]);
        Feed1(Feed(s, bytes[..i]), bytes[i]);
        i := i + 1;
      }
      assert bytes[..|bytes|] == bytes;
    }
  }

  lemma DrawnCursor(s: Screen, g: byte)
    ensures var d := Drawn(s, g);
            d.cols == s.cols && d.rows == s.rows && d.col == s.col && d.row == s.row && d.pending == s.pending
                && d.awaited == s.awaited
  {
  }
}
