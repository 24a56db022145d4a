/** What stands on the screen after a character has been put, byte by byte. */
module FrameBufferMeaning {
  import opened Grids
  import opened FrameBuffer

  function Power(b: nat, k: nat): nat {
    if k == 0 then 1 else b * Power(b, k - 1)
  }

  lemma {:induction false} Multiple(d: nat, n: nat)
    requires n > 0
    ensures d * n >= d
  {
    if n > 1 {
      Multiple(d, n - 1);
    }
  }

  lemma OneMultipleMore(d: nat, q: nat, e: nat)
    requires e < q
    ensures d * q >= d * e + d
  {
    Multiple(d, q - e);
    assert d * (q - e) == d * q - d * e;
  }

  lemma SameQuotient(d: nat, q: nat, r: nat, e: nat, m: nat)
    requires d * q + r == d * e + m && r < d && m < d
    ensures q == e
  {
    if e < q {
      OneMultipleMore(d, q, e);
    } else if q < e {
      OneMultipleMore(d, e, q);
    }
  }

  lemma Division(a: nat, d: nat)
    requires d > 0
    ensures a == d * (a / d) + a % d && a % d < d
  {
  }

  /** Dividing by a product is dividing twice. */
  lemma DivDiv(a: nat, b: nat, c: nat)
    requires b > 0 && c > 0
    ensures b * c > 0 && a / (b * c) == a / b / c
  {
    Multiple(b, c);
    var d := b * c;
    Division(a, b);
    Division(a / b, c);
    Division(a, d);
    Digits(b, c, d, a / b / c, a / b % c, a % b, a / b, a, a / d, a % d);
  }

  lemma Digits(b: nat, c: nat, d: nat, q: nat, s: nat, r: nat, n: nat, a: nat, e: nat, m: nat)
    requires d == b * c && s < c && r < b && m < d
    requires a == b * n + r && n == c * q + s && a == d * e + m
    ensures q == e
  {
    assert b * n == d * q + b * s;
    OneMultipleMore(b, c, s);
    SameQuotient(d, q, b * s + r, e, m);
  }

  lemma {:induction false} PowerPositive(b: nat, k: nat)
    requires b > 0
    ensures Power(b, k) > 0
  {
    if k > 0 {
      PowerPositive(b, k - 1);
    }
  }

  lemma {:induction false} BitMeaning(word: nat, k: nat)
    ensures Power(2, k) > 0 && (Bit(word, k) <==> word / Power(2, k) % 2 == 1)
  {
    if k > 0 {
      BitMeaning(word / 2, k - 1);
      PowerDivides(word, 2, k);
      assert Bit(word, k) == Bit(word / 2, k - 1);
      hide Bit, Power;
    }
  }

  /** Byte `k` of a pixel. */
  lemma {:induction false} PixelByte(color: nat, bytes: nat, k: nat)
    requires k < bytes
    ensures Power(256, k) > 0 && Pixel(color, bytes)[k] == color / Power(256, k) % 256
  {
    if k > 0 {
      PixelByte(color / 256, bytes - 1, k - 1);
      PowerDivides(color, 256, k);
      assert Pixel(color, bytes)[k] == Pixel(color / 256, bytes - 1)[k - 1];
      hide Pixel, Power;
    }
  }

  lemma PowerDivides(n: nat, b: nat, k: nat)
    requires b > 0 && k > 0
    ensures Power(b, k - 1) > 0 && Power(b, k) > 0 && n / Power(b, k) == n / b / Power(b, k - 1)
  {
    PowerPositive(b, k - 1);
    PowerPositive(b, k);
    DivDiv(n, b, Power(b, k - 1));
  }

  /** The font has two words for each character from 32 on: the first is for the upper six rows of the glyph and
      the second for the lower six, five bits for each row, the lowest bit at the left. */
  predicate FontBit(font: seq<nat>, c: nat, y: nat, x: nat)
    requires 32 <= c && 2 * (c - 32) + 1 < |font| && y < 12 && x < 5
  {
    var word, bit := font[2 * (c - 32) + (if y < 6 then 0 else 1)], 5 * (y % 6) + x;
    PowerPositive(2, bit);
    word / Power(2, bit) % 2 == 1
  }

  /** Byte `k` of pixel (row, column) of the screen has the value that it has in this color. */
  ghost predicate HasColor(screen: seq<seq<Byte>>, bytes: nat, row: nat, column: nat, k: nat, color: nat) {
    && row < |screen| && bytes * column + k < |screen[row]|
    && Power(256, k) > 0 && screen[row][bytes * column + k] == color / Power(256, k) % 256
  }

  /** A character takes six by twelve pixels, of which one column is left free, times the scale, but twelve rows of
      the screen to each row of text; each pixel of the five by twelve is a square in the foreground color where its
      bit in the font is set, and in the background color where not.  Here it is pixel (i, j) of the square for
      glyph pixel (gy, gx), and byte `k` of that. */
  ghost predicate PixelShown(p: Layout, screen: seq<seq<Byte>>, x: nat, y: nat, c: Byte,
                             gy: nat, i: nat, gx: nat, j: nat, k: nat)
    requires 32 <= c && 2 * (c - 32) + 1 < |p.font| && gy < 12 && gx < 5
  {
    HasColor(screen, p.ink.bytes, 12 * y + p.ink.scale * gy + i, p.ink.scale * (6 * x + gx) + j, k,
             if FontBit(p.font, c, gy, gx) then p.ink.foreground else p.ink.background)
  }

  /** What it is for a character to show at a place. */
  lemma ShownMeaning(p: Layout, screen: seq<seq<Byte>>, x: nat, y: nat, c: Byte,
                     gy: nat, i: nat, gx: nat, j: nat, k: nat)
    requires p.Good() && Shown(p, screen, x, y, c)
    requires gy < 12 && gx < 5 && i < p.ink.scale && j < p.ink.scale && k < p.ink.bytes
    ensures PixelShown(p, screen, x, y, c, gy, i, gx, j, k)
  {
    hide Offset, Ink.Glyph, Pixel, Power, Bit, Shown, GlyphBit, FontBit, HasColor, Layout.Good;
    FontSize(p);
    ShownByte(p, screen, x, y, c, gy, i, gx, j, k);
    GlyphBitMeaning(p.font, c, gy, gx);
    var color := if FontBit(p.font, c, gy, gx) then p.ink.foreground else p.ink.background;
    PixelByte(color, p.ink.bytes, k);
    BytePlace(p, x, gx, j, k);
    OffsetIsProduct(p.ink.scale, gy);
    ColorAt(screen, p.ink.bytes, 12 * y + p.ink.scale * gy + i, p.ink.scale * (6 * x + gx) + j, k, color,
            12 * y + (Offset(p.ink.scale, gy) + i),
            p.CellX(x) + (Offset(p.ink.Width(), gx) + (Offset(p.ink.bytes, j) + k)));
  }

  lemma FontSize(p: Layout)
    requires p.Good()
    ensures |p.font| == 2 * (128 - 32)
  {
  }

  lemma ColorAt(screen: seq<seq<Byte>>, bytes: nat, row: nat, column: nat, k: nat, color: nat, q: nat, b: nat)
    requires q == row && b == bytes * column + k && q < |screen| && b < |screen[q]|
    requires Power(256, k) > 0 && screen[q][b] == color / Power(256, k) % 256
    ensures HasColor(screen, bytes, row, column, k, color)
  {
  }

  lemma ShownByte(p: Layout, screen: seq<seq<Byte>>, x: nat, y: nat, c: Byte,
                  gy: nat, i: nat, gx: nat, j: nat, k: nat)
    requires p.Good() && Shown(p, screen, x, y, c)
    requires gy < 12 && gx < 5 && i < p.ink.scale && j < p.ink.scale && k < p.ink.bytes
    ensures 32 <= c < 128
    ensures var q := 12 * y + (Offset(p.ink.scale, gy) + i);
            var b := p.CellX(x) + (Offset(p.ink.Width(), gx) + (Offset(p.ink.bytes, j) + k));
            var on := GlyphBit(p.font[(c - 32) * 2], p.font[(c - 32) * 2 + 1], gy, gx);
            && q < |screen| && b < |screen[q]|
            && screen[q][b] == Pixel(if on then p.ink.foreground else p.ink.background, p.ink.bytes)[k]
  {
    hide Offset, Ink.Glyph, Pixel, Bit, CellHolds, Fits, GlyphBit;
    var upper, lower := p.font[(c - 32) * 2], p.font[(c - 32) * 2 + 1];
    GlyphMeaning(p.ink, upper, lower, gy, i, gx, j, k);
    HeldByte(screen, p.CellX(x), 12 * y, p.GlyphOf(c), Offset(p.ink.scale, gy) + i,
             Offset(p.ink.Width(), gx) + (Offset(p.ink.bytes, j) + k));
  }

  lemma HeldByte(screen: seq<seq<Byte>>, x: nat, y: nat, rows: seq<seq<Byte>>, q: nat, o: nat)
    requires Fits(screen, x, y, rows) && CellHolds(screen, x, y, rows) && q < |rows| && o < |rows[q]|
    ensures y + q < |screen| && x + o < |screen[y + q]| && screen[y + q][x + o] == rows[q][o]
  {
    assert RowHolds(screen[y + q], x, rows[q]);
    assert screen[y + q][x..x + |rows[q]|][o] == rows[q][o];
  }

  lemma GlyphBitMeaning(font: seq<nat>, c: nat, y: nat, x: nat)
    requires 32 <= c < 128 && |font| == 2 * (128 - 32) && y < 12 && x < 5
    ensures GlyphBit(font[(c - 32) * 2], font[(c - 32) * 2 + 1], y, x) == FontBit(font, c, y, x)
  {
    hide Bit, Power;
    var word, bit := font[2 * (c - 32) + (if y < 6 then 0 else 1)], 5 * (y % 6) + x;
    assert GlyphBit(font[(c - 32) * 2], font[(c - 32) * 2 + 1], y, x) == Bit(word, bit);
    BitMeaning(word, bit);
  }

  lemma BytePlace(p: Layout, x: nat, gx: nat, j: nat, k: nat)
    ensures p.CellX(x) + (Offset(p.ink.Width(), gx) + (Offset(p.ink.bytes, j) + k))
         == p.ink.bytes * (p.ink.scale * (6 * x + gx) + j) + k
  {
    hide Offset;
    var b, s := p.ink.bytes, p.ink.scale;
    OffsetIsProduct(b, s);
    OffsetIsProduct(p.ink.Width(), 6);
    OffsetIsProduct(Offset(p.ink.Width(), 6), x);
    OffsetIsProduct(p.ink.Width(), gx);
    OffsetIsProduct(b, j);
    ByteSum(b, s, x, gx, j);
  }

  lemma ByteSum(b: nat, s: nat, x: nat, gx: nat, j: nat)
    ensures b * s * 6 * x + (b * s * gx + b * j) == b * (s * (6 * x + gx) + j)
  {
    assert s * (6 * x + gx) == s * (6 * x) + s * gx;
    assert b * (s * (6 * x)) == b * s * 6 * x;
  }

  // ---------- one character ----------

  /** A character put above the bottom: where it is drawn it shows in the end, every byte of the screen outside
      of its cell is as it was, and the next place is beside it, or at the beginning of the next line if it fills
      this one. */
  lemma PutShown(p: Layout, t: Text, c: Byte)
    requires Placed(p, t) && 32 <= c < 128 && (c == 32 ==> t.x > 0)
    requires t.y + p.ink.scale < p.rows && (t.x + 1 == p.columns ==> t.y + 2 * p.ink.scale < p.rows)
    ensures PutEnds(p, c, false)
    ensures var u := Put(p, t, c, false);
            && (u.x, u.y) == (if t.x + 1 < p.columns then (t.x + 1, t.y) else (0, t.y + p.ink.scale))
            && Shown(p, u.screen, t.x, t.y, c)
            && |u.screen| == |t.screen|
            && forall q, b :: 0 <= q < |t.screen| && 0 <= b < |t.screen[q]| ==> KeptOutside(p, t, u.screen, q, b)
  {
    hide Drawn, Offset, Fits, Ink.Glyph, CellHolds, KeptOutside, Put;
    PutOnce(p, t, c);
    DrawnShows(p, t, c);
    forall q, b | 0 <= q < |t.screen| && 0 <= b < |t.screen[q]|
      ensures KeptOutside(p, t, Put(p, t, c, false).screen, q, b)
    {
      CellOutside(p, t, c, q, b);
    }
  }

  /** The bytes of the character on the screen. */
  lemma PutMeaning(p: Layout, t: Text, c: Byte, gy: nat, i: nat, gx: nat, j: nat, k: nat)
    requires Placed(p, t) && 32 <= c < 128 && (c == 32 ==> t.x > 0)
    requires t.y + p.ink.scale < p.rows && (t.x + 1 == p.columns ==> t.y + 2 * p.ink.scale < p.rows)
    requires gy < 12 && gx < 5 && i < p.ink.scale && j < p.ink.scale && k < p.ink.bytes
    ensures 2 * (c - 32) + 1 < |p.font|
    ensures PixelShown(p, Put(p, t, c, false).screen, t.x, t.y, c, gy, i, gx, j, k)
  {
    assert p.Good();
    hide Put, Shown, PixelShown, Placed, Layout.Good, KeptOutside;
    FontSize(p);
    PutShown(p, t, c);
    ShownMeaning(p, Put(p, t, c, false).screen, t.x, t.y, c, gy, i, gx, j, k);
  }

  /** The byte is in the cell at the text's place, or it is as it was. */
  ghost predicate KeptOutside(p: Layout, t: Text, screen: seq<seq<Byte>>, q: nat, b: nat)
    requires q < |t.screen| && b < |t.screen[q]|
  {
    var pitch, cell := 6 * p.ink.scale * p.ink.bytes, 5 * p.ink.scale * p.ink.bytes;
    || (12 * t.y <= q < 12 * t.y + 12 * p.ink.scale && pitch * t.x <= b < pitch * t.x + cell)
    || (q < |screen| && b < |screen[q]| && screen[q][b] == t.screen[q][b])
  }

  lemma CellOutside(p: Layout, t: Text, c: Byte, q: nat, b: nat)
    requires Placed(p, t) && 32 <= c < 128 && q < |t.screen| && b < |t.screen[q]|
    ensures Fits(t.screen, p.CellX(t.x), FONT_HEIGHT * t.y, p.GlyphOf(c))
    ensures KeptOutside(p, t, Drawn(t.screen, p.CellX(t.x), FONT_HEIGHT * t.y, p.GlyphOf(c)), q, b)
  {
    hide Drawn, Offset, Fits, Ink.Glyph, InCell;
    PlacedFits(p, t, c);
    InCellMeaning(p, t.x, t.y, q, b);
    if !InCell(p, Place(t.x, t.y), q, b) {
      DrawnElsewhere(p, t, c, q, b);
    }
  }

  lemma InCellMeaning(p: Layout, x: nat, y: nat, q: nat, b: nat)
    ensures var pitch, cell := 6 * p.ink.scale * p.ink.bytes, 5 * p.ink.scale * p.ink.bytes;
            InCell(p, Place(x, y), q, b) <==>
            12 * y <= q < 12 * y + 12 * p.ink.scale && pitch * x <= b < pitch * x + cell
  {
    hide Offset;
    OffsetIsProduct(p.ink.bytes, p.ink.scale);
    OffsetIsProduct(p.ink.Width(), 6);
    OffsetIsProduct(p.ink.Width(), 5);
    OffsetIsProduct(Offset(p.ink.Width(), 6), x);
    assert x * (6 * (p.ink.scale * p.ink.bytes)) == 6 * p.ink.scale * p.ink.bytes * x;
  }

  // ---------- the bottom ----------

  /** Painting asks to be repeated exactly for a newline and for a character that fills its line, in the last line
      for which there is room; the screen has then been cleared and the place is the first one. */
  lemma AgainMeaning(p: Layout, t: Text, c: Byte)
    requires Placed(p, t)
    ensures var (u, again) := Paint(p, t, c, false);
            && (again <==>
                && t.y + 2 * p.ink.scale >= p.rows
                && (c == 10 || (t.x + 1 == p.columns && 32 <= c < 128 && (c == 32 ==> t.x > 0))))
            && (again ==> u == Text(0, 0, BlankScreen(p.stride, p.height)))
  {
    PaintKeeps(p, t, c, false);
    hide Drawn, Offset, Fits, Ink.Glyph, BlankScreen;
  }

  /** What comes of it, where it comes to an end: a newline leaves a cleared screen and goes on in its second line;
      a space leaves a cleared screen; any other character is the first and only one on it. */
  lemma BottomMeaning(p: Layout, t: Text, c: Byte)
    requires Placed(p, t) && Paint(p, t, c, false).1 && PutEnds(p, c, false)
    ensures var u := Put(p, t, c, false);
            if c == 10 then u == Text(0, p.ink.scale, BlankScreen(p.stride, p.height))
            else if c == 32 then u == Text(0, 0, BlankScreen(p.stride, p.height))
            else (u.x, u.y) == (if p.columns > 1 then (1, 0) else (0, p.ink.scale)) && Shown(p, u.screen, 0, 0, c)
  {
    var blank := BlankScreen(p.stride, p.height);
    AgainMeaning(p, t, c);
    PaintKeeps(p, t, c, false);
    hide Drawn, Offset, Fits, Ink.Glyph, CellHolds, BlankScreen;
    if c != 10 && c != 32 {
      PlacedFits(p, Text(0, 0, blank), c);
      DrawnShows(p, Text(0, 0, blank), c);
    }
  }

  lemma BlankMeaning(stride: nat, height: nat)
    ensures |BlankScreen(stride, height)| == height
    ensures forall q :: 0 <= q < height ==> |BlankScreen(stride, height)[q]| == stride
    ensures forall q, b :: 0 <= q < height && 0 <= b < stride ==> BlankScreen(stride, height)[q][b] == 0
  {
  }

  // ---------- the places of a text ----------

  /** Visible text from the beginning of a line on fills line after line: after `lines` whole lines and `rest` more
      characters, the next place is that many lines down and that many columns to the right. */
  lemma {:induction false} FlowMeaning(p: Layout, y: nat, s: seq<Byte>, lines: nat, rest: nat)
    requires rest < p.columns && |s| == lines * p.columns + rest
    requires forall i :: 0 <= i < |s| ==> 32 < s[i] < 128
    ensures PlaceAfter(p, Place(0, y), s) == Place(rest, y + lines * p.ink.scale)
  {
    if s != [] {
      var n := |s| - 1;
      if rest > 0 {
        FlowMeaning(p, y, s[..n], lines, rest - 1);
      } else {
        OneLineLess(lines, p.columns);
        OneLineLess(lines, p.ink.scale);
        FlowMeaning(p, y, s[..n], lines - 1, p.columns - 1);
      }
    } else {
      NoLines(lines, p.columns);
    }
  }

  lemma OneLineLess(lines: nat, columns: nat)
    requires lines > 0
    ensures lines * columns == (lines - 1) * columns + columns
  {
  }

  lemma NoLines(lines: nat, columns: nat)
    requires lines * columns == 0 && columns > 0
    ensures lines == 0
  {
    if lines > 0 {
      Multiple(columns, lines);
    }
  }

  /** What is not drawn: a newline goes to the next line, a return to the beginning of this one, and nothing else
      goes anywhere. */
  lemma OtherPlaces(p: Layout, at: Place, c: Byte)
    requires !(32 <= c < 128) || (c == 32 && at.x == 0)
    ensures NextPlaceOf(p, at, c) ==
            if c == 10 then Place(0, at.y + p.ink.scale) else if c == 13 then Place(0, at.y) else at
  {
  }
}
