/** The text console on the frame buffer: a glyph is drawn by walking byte pointers over the pixels. */
module FrameBuffer {
  import opened Grids

  type Byte = b: nat | b < 256

  const FONT_WIDTH := 5
  const FONT_HEIGHT := 12
  const BLACK := 0
  const WHITE := 0xffff
  const SCALE := 1
  const NEWLINE := 10
  const RETURN := 13
  const SPACE := 32

  // ---------- what is drawn ----------

  /** The bytes of a pixel, the low byte first. */
  function Pixel(color: nat, bytes: nat): (p: seq<Byte>)
    ensures |p| == bytes
  {
    if bytes == 0 then [] else [color % 256] + Pixel(color / 256, bytes - 1)
  }

  function Repeated<T>(t: seq<T>, n: nat): (r: seq<T>)
    ensures |r| == Offset(|t|, n)
  {
    if n == 0 then [] else Repeated(t, n - 1) + t
  }

  function Copies<T>(t: T, n: nat): (r: seq<T>)
    ensures |r| == n && forall i :: 0 <= i < n ==> r[i] == t
  {
    seq(n, _ => t)
  }

  /** Bit `k` of a word. */
  predicate Bit(word: nat, k: nat) {
    if k == 0 then word % 2 == 1 else Bit(word / 2, k - 1)
  }

  /** The word moved `k` bits to the right. */
  function Shifted(word: nat, k: nat): nat {
    if k == 0 then word else Shifted(word / 2, k - 1)
  }

  lemma {:induction false} ShiftedBit(word: nat, k: nat, i: nat)
    ensures Bit(Shifted(word, k), i) == Bit(word, k + i)
    ensures Shifted(Shifted(word, k), i) == Shifted(word, k + i)
  {
    if k > 0 {
      ShiftedBit(word / 2, k - 1, i);
    }
  }

  /** One glyph pixel in one row of the screen: `scale` pixels of one colour. */
  function Block(color: nat, bytes: nat, scale: nat): (r: seq<Byte>)
    ensures |r| == Offset(bytes, scale)
  {
    Repeated(Pixel(color, bytes), scale)
  }

  datatype Ink = Ink(foreground: nat, background: nat, bytes: nat, scale: nat)
  {
    function Color(on: bool): nat {
      if on then foreground else background
    }

    /** The width of a glyph pixel in bytes. */
    function Width(): nat {
      Offset(bytes, scale)
    }

    /** The first `n` glyph pixels of a row, whose bits are the low bits of `word`. */
    function Row(word: nat, n: nat): (r: seq<Byte>)
      ensures |r| == Offset(Width(), n)
    {
      if n == 0 then [] else Row(word, n - 1) + Block(Color(Bit(word, n - 1)), bytes, scale)
    }

    /** The first `n` glyph rows of half a glyph, each `scale` rows of the screen. */
    function Half(word: nat, n: nat): (r: seq<seq<Byte>>)
      ensures |r| == Offset(scale, n)
      ensures forall q :: 0 <= q < |r| ==> |r[q]| == Offset(Width(), FONT_WIDTH)
    {
      if n == 0 then []
      else Half(word, n - 1) + Copies(Row(Shifted(word, FONT_WIDTH * (n - 1)), FONT_WIDTH), scale)
    }

    function Glyph(upper: nat, lower: nat): (r: seq<seq<Byte>>)
      ensures |r| == Offset(scale, FONT_HEIGHT)
      ensures forall q :: 0 <= q < |r| ==> |r[q]| == Offset(Width(), FONT_WIDTH)
    {
      OffsetSum(scale, 6, 6);
      Half(upper, 6) + Half(lower, 6)
    }
  }

  lemma {:induction false} OffsetSum(step: nat, m: nat, n: nat)
    ensures Offset(step, m + n) == Offset(step, m) + Offset(step, n)
  {
    if n > 0 {
      OffsetSum(step, m, n - 1);
    }
  }

  lemma {:induction false} RepeatedAt<T>(t: seq<T>, n: nat, i: nat, k: nat)
    requires i < n && k < |t|
    ensures Offset(|t|, i) + k < |Repeated(t, n)|
    ensures Repeated(t, n)[Offset(|t|, i) + k] == t[k]
  {
    OffsetMonotone(|t|, i, n);
    OffsetMonotone(|t|, i, n - 1);
    if i < n - 1 {
      RepeatedAt(t, n - 1, i, k);
    }
  }

  lemma {:induction false} RowAt(ink: Ink, word: nat, n: nat, x: nat, o: nat)
    requires x < n && o < ink.Width()
    ensures Offset(ink.Width(), x) + o < |ink.Row(word, n)|
    ensures ink.Row(word, n)[Offset(ink.Width(), x) + o]
         == Block(ink.Color(Bit(word, x)), ink.bytes, ink.scale)[o]
  {
    OffsetMonotone(ink.Width(), x, n);
    OffsetMonotone(ink.Width(), x, n - 1);
    if x < n - 1 {
      RowAt(ink, word, n - 1, x, o);
    }
  }

  lemma {:induction false} HalfAt(ink: Ink, word: nat, n: nat, y: nat, i: nat)
    requires y < n && i < ink.scale
    ensures Offset(ink.scale, y) + i < |ink.Half(word, n)|
    ensures ink.Half(word, n)[Offset(ink.scale, y) + i]
         == ink.Row(Shifted(word, FONT_WIDTH * y), FONT_WIDTH)
  {
    OffsetMonotone(ink.scale, y, n);
    OffsetMonotone(ink.scale, y, n - 1);
    if y < n - 1 {
      HalfAt(ink, word, n - 1, y, i);
    }
  }

  /** The bit of the glyph for its pixel in row `y` and column `x`. */
  predicate GlyphBit(upper: nat, lower: nat, y: nat, x: nat)
    requires y < FONT_HEIGHT && x < FONT_WIDTH
  {
    if y < 6 then Bit(upper, FONT_WIDTH * y + x) else Bit(lower, FONT_WIDTH * (y - 6) + x)
  }

  /** The bits of row `y` of the glyph, from the lowest on. */
  function GlyphWord(upper: nat, lower: nat, y: nat): nat {
    if y < 6 then Shifted(upper, FONT_WIDTH * y) else Shifted(lower, FONT_WIDTH * (y - 6))
  }

  lemma GlyphWordBit(upper: nat, lower: nat, y: nat, x: nat)
    requires y < FONT_HEIGHT && x < FONT_WIDTH
    ensures Bit(GlyphWord(upper, lower, y), x) == GlyphBit(upper, lower, y, x)
  {
    hide Shifted, Bit;
    if y < 6 {
      ShiftedBit(upper, FONT_WIDTH * y, x);
    } else {
      ShiftedBit(lower, FONT_WIDTH * (y - 6), x);
    }
  }

  lemma RowPixel(ink: Ink, word: nat, x: nat, j: nat, k: nat)
    requires x < FONT_WIDTH && j < ink.scale && k < ink.bytes
    ensures var o := Offset(ink.Width(), x) + (Offset(ink.bytes, j) + k);
            && o < |ink.Row(word, FONT_WIDTH)|
            && ink.Row(word, FONT_WIDTH)[o] == Pixel(ink.Color(Bit(word, x)), ink.bytes)[k]
  {
    hide Bit, Pixel, Ink.Row, Offset;
    RepeatedAt(Pixel(ink.Color(Bit(word, x)), ink.bytes), ink.scale, j, k);
    RowAt(ink, word, FONT_WIDTH, x, Offset(ink.bytes, j) + k);
  }

  lemma GlyphRow(ink: Ink, upper: nat, lower: nat, y: nat, i: nat)
    requires y < FONT_HEIGHT && i < ink.scale
    ensures Offset(ink.scale, y) + i < |ink.Glyph(upper, lower)|
    ensures ink.Glyph(upper, lower)[Offset(ink.scale, y) + i]
         == ink.Row(GlyphWord(upper, lower, y), FONT_WIDTH)
  {
    hide Ink.Row, Ink.Half, Shifted;
    var h := if y < 6 then y else y - 6;
    HalfAt(ink, if y < 6 then upper else lower, 6, h, i);
    if y >= 6 {
      OffsetSum(ink.scale, 6, h);
    }
    hide Offset;
  }

  /** Pixel (y, x) of the glyph is a square of `scale` times `scale` pixels, all of the colour that its
      bit selects. */
  lemma GlyphMeaning(ink: Ink, upper: nat, lower: nat, y: nat, i: nat, x: nat, j: nat, k: nat)
    requires y < FONT_HEIGHT && x < FONT_WIDTH && i < ink.scale && j < ink.scale && k < ink.bytes
    ensures var q := Offset(ink.scale, y) + i;
            var o := Offset(ink.Width(), x) + (Offset(ink.bytes, j) + k);
            && q < |ink.Glyph(upper, lower)| && o < |ink.Glyph(upper, lower)[q]|
            && ink.Glyph(upper, lower)[q][o]
               == Pixel(ink.Color(GlyphBit(upper, lower, y, x)), ink.bytes)[k]
  {
    hide *;
    GlyphRow(ink, upper, lower, y, i);
    GlyphWordBit(upper, lower, y, x);
    RowPixel(ink, GlyphWord(upper, lower, y), x, j, k);
  }

  // ---------- where it is drawn ----------

  function Spliced<T>(s: seq<T>, at: nat, t: seq<T>): (r: seq<T>)
    requires at + |t| <= |s|
    ensures |r| == |s|
  {
    s[..at] + t + s[at + |t|..]
  }

  /** The rows of the screen with `rows` drawn into them, from row `y` and byte `x` on. */
  function Drawn(screen: seq<seq<Byte>>, x: nat, y: nat, rows: seq<seq<Byte>>): (r: seq<seq<Byte>>)
    requires y + |rows| <= |screen|
    requires forall q :: 0 <= q < |rows| ==> x + |rows[q]| <= |screen[y + q]|
    ensures |r| == |screen|
    ensures forall q :: 0 <= q < |r| ==> |r[q]| == |screen[q]|
  {
    seq(|screen|, q requires 0 <= q < |screen| =>
      if y <= q < y + |rows| then Spliced(screen[q], x, rows[q - y]) else screen[q])
  }

  lemma SplicedSlice<T>(s: seq<T>, at: nat, t: seq<T>, i: nat, j: nat)
    requires at + |t| <= |s| && i <= j <= |s|
    ensures j <= at || at + |t| <= i ==> Spliced(s, at, t)[i..j] == s[i..j]
    ensures i <= at && at + |t| <= j ==> Spliced(s, at, t)[i..j] == Spliced(s[i..j], at - i, t)
  {
    var r := Spliced(s, at, t);
    assert forall k :: 0 <= k < |r| ==> r[k] == if at <= k < at + |t| then t[k - at] else s[k];
    if i <= at && at + |t| <= j {
      var u := Spliced(s[i..j], at - i, t);
      assert forall k :: 0 <= k < |u| ==> u[k] == if at <= k + i < at + |t| then t[k + i - at] else s[k + i];
    }
  }

  lemma SplicedRow(cells: seq<Byte>, step: nat, n: nat, r: nat, c: nat, t: seq<Byte>)
    requires Offset(step, n) == |cells| && r < n && c + |t| <= step
    ensures Offset(step, r) + c + |t| <= |cells|
    ensures Grid(Spliced(cells, Offset(step, r) + c, t), step, n)
         == Drawn(Grid(cells, step, n), c, r, [t])
  {
    var start := Offset(step, r) + c;
    OffsetMonotone(step, r, n);
    var g, h := Grid(cells, step, n), Grid(Spliced(cells, start, t), step, n);
    var d := Drawn(g, c, r, [t]);
    forall q | 0 <= q < n ensures h[q] == d[q] {
      SplicedRowAt(cells, step, n, r, c, t, q);
    }
    assert h == d;
  }

  lemma SplicedRowAt(cells: seq<Byte>, step: nat, n: nat, r: nat, c: nat, t: seq<Byte>, q: nat)
    requires Offset(step, n) == |cells| && r < n && c + |t| <= step && q < n
    requires Offset(step, r) + c + |t| <= |cells|
    ensures Grid(Spliced(cells, Offset(step, r) + c, t), step, n)[q]
         == if q == r then Spliced(Grid(cells, step, n)[q], c, t) else Grid(cells, step, n)[q]
  {
    hide Spliced, Grid;
    GridRow(cells, step, n, q);
    GridRow(Spliced(cells, Offset(step, r) + c, t), step, n, q);
    OffsetMonotone(step, q, n);
    if q < r {
      OffsetMonotone(step, q, r);
    } else if r < q {
      OffsetMonotone(step, r, q);
    }
    SplicedSlice(cells, Offset(step, r) + c, t, Offset(step, q), Offset(step, q + 1));
  }

  /** Each row is at most as wide as the screen has room for. */
  predicate Fits(screen: seq<seq<Byte>>, x: nat, y: nat, rows: seq<seq<Byte>>) {
    && y + |rows| <= |screen|
    && (forall q {:trigger rows[q]} :: 0 <= q < |rows| ==> x + |rows[q]| <= |screen[y + q]|)
  }

  lemma DrawnNext(screen: seq<seq<Byte>>, x: nat, y: nat, rows: seq<seq<Byte>>, t: seq<Byte>)
    requires Fits(screen, x, y, rows + [t]) && Fits(screen, x, y, rows)
    requires y + |rows| < |screen| && x + |t| <= |screen[y + |rows|]|
    ensures Drawn(Drawn(screen, x, y, rows), x, y + |rows|, [t]) == Drawn(screen, x, y, rows + [t])
  {
    hide Spliced;
    var a, b := Drawn(Drawn(screen, x, y, rows), x, y + |rows|, [t]), Drawn(screen, x, y, rows + [t]);
    forall q | 0 <= q < |screen| ensures a[q] == b[q] {
    }
  }

  lemma DrawnOver(screen: seq<seq<Byte>>, x: nat, y: nat, rows: seq<seq<Byte>>, n: nat, t: seq<Byte>)
    requires Fits(screen, x, y, rows) && n < |rows| && |t| == |rows[n]|
    ensures Fits(screen, x, y, rows[n := t])
    ensures Drawn(Drawn(screen, x, y, rows), x, y + n, [t]) == Drawn(screen, x, y, rows[n := t])
  {
    hide Spliced, Drawn;
    var was := Drawn(screen, x, y, rows);
    var a, b := Drawn(was, x, y + n, [t]), Drawn(screen, x, y, rows[n := t]);
    forall q | 0 <= q < |screen| ensures a[q] == b[q] {
      DrawnRow(screen, x, y, rows, q);
      DrawnRow(was, x, y + n, [t], q);
      DrawnRow(screen, x, y, rows[n := t], q);
      if q == y + n {
        SplicedOver(screen[q], x, rows[n], t);
      }
    }
    assert a == b;
  }

  lemma DrawnRow(screen: seq<seq<Byte>>, x: nat, y: nat, rows: seq<seq<Byte>>, q: nat)
    requires Fits(screen, x, y, rows) && q < |screen|
    ensures Drawn(screen, x, y, rows)[q]
         == if y <= q < y + |rows| then Spliced(screen[q], x, rows[q - y]) else screen[q]
  {
  }

  lemma SplicedTwice<T>(s: seq<T>, at: nat, t: seq<T>, u: seq<T>)
    requires at + |t| + |u| <= |s|
    ensures Spliced(Spliced(s, at, t), at + |t|, u) == Spliced(s, at, t + u)
  {
  }

  lemma SplicedOver<T>(s: seq<T>, at: nat, t: seq<T>, u: seq<T>)
    requires at + |t| <= |s| && |t| == |u|
    ensures Spliced(Spliced(s, at, t), at, u) == Spliced(s, at, u)
  {
  }

  lemma SplicedSame<T>(s: seq<T>, at: nat, t: seq<T>, u: seq<T>)
    requires at + |t| + |u| <= |s| && s[at + |t|..at + |t| + |u|] == u
    ensures Spliced(s, at, t) == Spliced(s, at, t + u)
  {
  }

  lemma PixelNext(done: seq<Byte>, rest: nat, n: nat)
    requires n > 0
    ensures (done + [rest % 256]) + Pixel(rest / 256, n - 1) == done + Pixel(rest, n)
  {
  }

  lemma PixelDone(done: seq<Byte>, rest: nat)
    ensures done + Pixel(rest, 0) == done
  {
  }

  lemma SplicedNone<T>(s: seq<T>, at: nat)
    requires at <= |s|
    ensures Spliced(s, at, []) == s
  {
  }

  lemma {:induction false} NoBits(k: nat)
    ensures !Bit(0, k)
  {
    if k > 0 {
      NoBits(k - 1);
    }
  }

  lemma {:induction false} BlankRowPart(ink: Ink, n: nat, x: nat)
    requires x < n
    ensures Offset(ink.Width(), x + 1) <= Offset(ink.Width(), n)
    ensures ink.Row(0, n)[Offset(ink.Width(), x)..Offset(ink.Width(), x + 1)]
         == Block(ink.background, ink.bytes, ink.scale)
  {
    hide Bit, Block, Offset, Ink.Row, Ink.Width;
    RowGrows(ink, 0, n - 1);
    RowGrows(ink, 0, x);
    OffsetMonotone(ink.Width(), x, n);
    OffsetMonotone(ink.Width(), x, n - 1);
    NoBits(x);
    NoBits(n - 1);
    var row, block := ink.Row(0, n - 1), Block(ink.background, ink.bytes, ink.scale);
    if x < n - 1 {
      BlankRowPart(ink, n - 1, x);
      SlicePrefix(row, block, Offset(ink.Width(), x), Offset(ink.Width(), x + 1));
    } else {
      assert (row + block)[|row|..|row| + |block|] == block;
    }
  }

  lemma SlicePrefix<T>(s: seq<T>, t: seq<T>, i: nat, j: nat)
    requires i <= j <= |s|
    ensures (s + t)[i..j] == s[i..j]
  {
  }

  lemma NextPlace(step: nat, n: nat)
    ensures Offset(step, 0) == 0
    ensures Offset(step, n + 1) == Offset(step, n) + step
  {
  }

  lemma RowGrows(ink: Ink, word: nat, n: nat)
    ensures ink.Row(word, n + 1) == ink.Row(word, n) + Block(ink.Color(Bit(word, n)), ink.bytes, ink.scale)
    ensures Offset(ink.Width(), n + 1) == Offset(ink.Width(), n) + ink.Width()
    ensures ink.Width() == Offset(ink.bytes, ink.scale)
    ensures |ink.Row(word, n)| == Offset(ink.Width(), n)
    ensures forall color :: |Block(color, ink.bytes, ink.scale)| == ink.Width()
  {
  }

  /** How a row drawn over its background grows by one glyph pixel. */
  lemma RowStep(was: seq<Byte>, start: nat, ink: Ink, word: nat, n: nat)
    requires start + Offset(ink.Width(), FONT_WIDTH) <= |was| && n < FONT_WIDTH
    requires was[start..start + Offset(ink.Width(), FONT_WIDTH)] == ink.Row(0, FONT_WIDTH)
    ensures Offset(ink.Width(), n + 1) == Offset(ink.Width(), n) + ink.Width()
    ensures start + Offset(ink.Width(), n + 1) <= |was|
    ensures start + |ink.Row(word, n + 1)| <= |was|
    ensures start + |ink.Row(word, n)| <= |was|
    ensures var before := Spliced(was, start, ink.Row(word, n));
            Spliced(was, start, ink.Row(word, n + 1))
            == if Bit(word, n)
               then Spliced(before, start + Offset(ink.Width(), n), Block(ink.foreground, ink.bytes, ink.scale))
               else before
  {
    hide Bit, Spliced, Ink.Row, Block, Offset, Ink.Width;
    RowGrows(ink, word, n);
    OffsetMonotone(ink.Width(), n, FONT_WIDTH);
    var row, block := ink.Row(word, n), Block(ink.Color(Bit(word, n)), ink.bytes, ink.scale);
    if Bit(word, n) {
      SplicedTwice(was, start, row, block);
    } else {
      BlankRowPart(ink, FONT_WIDTH, n);
      SliceOf(was, start, Offset(ink.Width(), FONT_WIDTH), Offset(ink.Width(), n), Offset(ink.Width(), n + 1));
      SplicedSame(was, start, row, block);
    }
  }

  lemma BlankStep(was: seq<Byte>, start: nat, ink: Ink, n: nat)
    requires start + Offset(ink.Width(), FONT_WIDTH) <= |was| && n < FONT_WIDTH
    ensures Offset(ink.Width(), n + 1) == Offset(ink.Width(), n) + ink.Width()
    ensures start + Offset(ink.Width(), n + 1) <= |was|
    ensures start + |ink.Row(0, n + 1)| <= |was|
    ensures start + |ink.Row(0, n)| <= |was|
    ensures Spliced(was, start, ink.Row(0, n + 1))
         == Spliced(Spliced(was, start, ink.Row(0, n)), start + Offset(ink.Width(), n),
                    Block(ink.background, ink.bytes, ink.scale))
  {
    hide Bit, Spliced, Ink.Row, Block, Offset, Ink.Width;
    RowGrows(ink, 0, n);
    OffsetMonotone(ink.Width(), n, FONT_WIDTH);
    NoBits(n);
    SplicedTwice(was, start, ink.Row(0, n), Block(ink.background, ink.bytes, ink.scale));
  }

  lemma BlockStart(was: seq<Byte>, start: nat, pixel: seq<Byte>, scale: nat)
    requires start + Offset(|pixel|, scale) <= |was|
    ensures Offset(|pixel|, 0) == 0
    ensures start + |Repeated(pixel, 0)| <= |was| && Spliced(was, start, Repeated(pixel, 0)) == was
  {
    SplicedNone(was, start);
  }

  lemma BlockStep(was: seq<Byte>, start: nat, pixel: seq<Byte>, scale: nat, j: nat)
    requires start + Offset(|pixel|, scale) <= |was| && j < scale
    ensures Offset(|pixel|, j + 1) == Offset(|pixel|, j) + |pixel|
    ensures start + Offset(|pixel|, j + 1) <= |was|
    ensures start + |Repeated(pixel, j)| <= |was| && start + |Repeated(pixel, j + 1)| <= |was|
    ensures Spliced(was, start, Repeated(pixel, j + 1))
         == Spliced(Spliced(was, start, Repeated(pixel, j)), start + Offset(|pixel|, j), pixel)
  {
    OffsetMonotone(|pixel|, j, scale);
    assert Repeated(pixel, j + 1) == Repeated(pixel, j) + pixel;
    hide Spliced, Offset;
    SplicedTwice(was, start, Repeated(pixel, j), pixel);
  }

  /** Nothing is drawn yet. */
  lemma RowStart(was: seq<Byte>, start: nat, ink: Ink, word: nat)
    requires start + Offset(ink.Width(), FONT_WIDTH) <= |was|
    ensures Offset(ink.Width(), 0) == 0 && Shifted(word, 0) == word
    ensures start + |ink.Row(word, 0)| <= |was| && Spliced(was, start, ink.Row(word, 0)) == was
  {
    SplicedNone(was, start);
  }

  lemma DataBit(word: nat, n: nat)
    ensures Bit(word, n) <==> Shifted(word, n) % 2 == 1
    ensures Shifted(word, n + 1) == Shifted(word, n) / 2
  {
    ShiftedBit(word, n, 0);
    ShiftedBit(word, n, 1);
    assert Shifted(Shifted(word, n), 1) == Shifted(word, n) / 2;
  }

  // ---------- whole rows of the screen ----------

  predicate Uniform(rows: seq<seq<Byte>>, w: nat) {
    forall q :: 0 <= q < |rows| ==> |rows[q]| == w
  }

  lemma Append<T>(a: seq<T>, b: seq<T>, c: seq<T>)
    ensures (a + b) + c == a + (b + c)
  {
  }

  lemma CopiesNext<T>(t: T, n: nat)
    ensures |Copies(t, n)| == n && |Copies(t, n + 1)| == n + 1
    ensures Copies(t, 0) == [] && Copies(t, n) + [t] == Copies(t, n + 1)
  {
  }

  lemma HalfNext(ink: Ink, word: nat, y: nat)
    ensures ink.Half(word, 0) == []
    ensures ink.Half(word, y + 1)
         == ink.Half(word, y) + Copies(ink.Row(Shifted(word, FONT_WIDTH * y), FONT_WIDTH), ink.scale)
    ensures Uniform(ink.Half(word, y), Offset(ink.Width(), FONT_WIDTH))
    ensures |ink.Half(word, y)| == Offset(ink.scale, y)
    ensures Offset(ink.scale, y + 1) == Offset(ink.scale, y) + ink.scale
  {
  }

  lemma {:induction false} NoWord(k: nat)
    ensures Shifted(0, k) == 0
  {
    if k > 0 {
      NoWord(k - 1);
    }
  }

  /** Drawing one more row below those drawn. */
  lemma RowBelow(screen: seq<seq<Byte>>, stride: nat, x: nat, y: nat, rows: seq<seq<Byte>>, w: nat, t: seq<Byte>)
    requires Uniform(screen, stride) && Uniform(rows, w) && |t| == w && x + w <= stride
    requires y + |rows| < |screen|
    ensures Uniform(rows + [t], w) && Fits(screen, x, y, rows) && Fits(screen, x, y, rows + [t])
    ensures Uniform(Drawn(screen, x, y, rows), stride)
    ensures Drawn(Drawn(screen, x, y, rows), x, y + |rows|, [t]) == Drawn(screen, x, y, rows + [t])
  {
    DrawnNext(screen, x, y, rows, t);
  }

  lemma ShiftedNone(word: nat)
    ensures Shifted(word, FONT_WIDTH * 0) == word
  {
  }

  /** A row of the memory that is drawn is found there. */
  lemma DrawnSlice(cells: seq<Byte>, stride: nat, height: nat, screen: seq<seq<Byte>>,
                   r: nat, c: nat, rows: seq<seq<Byte>>, n: nat)
    requires Offset(stride, height) == |cells| && Fits(screen, c, r, rows) && n < |rows|
    requires Grid(cells, stride, height) == Drawn(screen, c, r, rows)
    ensures var start := Offset(stride, r + n) + c;
            start + |rows[n]| <= |cells| && cells[start..start + |rows[n]|] == rows[n]
  {
    hide Grid, Drawn, Spliced, Offset;
    assert r + n < |screen| && c + |rows[n]| <= |screen[r + n]|;
    DrawnRow(screen, c, r, rows, r + n);
    var row := Spliced(screen[r + n], c, rows[n]);
    GridRow(cells, stride, height, r + n);
    NextPlace(stride, r + n);
    SplicedHolds(screen[r + n], c, rows[n]);
    assert |row| == stride;
    SliceOf(cells, Offset(stride, r + n), stride, c, c + |rows[n]|);
  }

  lemma SplicedHolds<T>(s: seq<T>, at: nat, t: seq<T>)
    requires at + |t| <= |s|
    ensures |Spliced(s, at, t)| == |s| && Spliced(s, at, t)[at..at + |t|] == t
  {
  }

  lemma SplicedNext<T>(s: seq<T>, at: nat, t: seq<T>, v: T)
    requires at + |t| < |s|
    ensures Spliced(s, at, t)[at + |t|] == s[at + |t|]
    ensures Spliced(s, at, t)[at + |t| := v] == Spliced(s, at, t + [v])
  {
  }

  lemma DrawnNothing(screen: seq<seq<Byte>>, x: nat, y: nat)
    requires y <= |screen|
    ensures Drawn(screen, x, y, []) == screen
  {
  }

  lemma BlankHalf(ink: Ink)
    ensures forall q :: 0 <= q < |ink.Half(0, 6)| ==> ink.Half(0, 6)[q] == ink.Row(0, FONT_WIDTH)
  {
    BlankRows(ink, 6);
  }

  lemma {:induction false} BlankRows(ink: Ink, n: nat)
    ensures forall q :: 0 <= q < |ink.Half(0, n)| ==> ink.Half(0, n)[q] == ink.Row(0, FONT_WIDTH)
  {
    if n > 0 {
      BlankRows(ink, n - 1);
      NoWord(FONT_WIDTH * (n - 1));
    }
  }

  /** The rows of a cell as they are drawn: background, upper half, lower half. */
  lemma GlyphSteps(ink: Ink, upper: nat, lower: nat)
    ensures var blank, top := ink.Half(0, 6), ink.Half(upper, 6);
            && |blank| == |top| == |ink.Half(lower, 6)| == Offset(ink.scale, 6)
            && Offset(ink.scale, FONT_HEIGHT) == 2 * |blank|
            && (forall q :: 0 <= q < 2 * |blank| ==> (blank + blank)[q] == ink.Row(0, FONT_WIDTH))
            && (forall q :: |blank| <= q < 2 * |blank| ==> (top + blank)[q] == ink.Row(0, FONT_WIDTH))
            && Spliced(blank + blank, 0, top) == top + blank
            && Spliced(top + blank, |blank|, ink.Half(lower, 6)) == ink.Glyph(upper, lower)
  {
    OffsetSum(ink.scale, 6, 6);
    BlankHalf(ink);
    hide Ink.Row, Ink.Half, Offset;
    var blank, top, bottom := ink.Half(0, 6), ink.Half(upper, 6), ink.Half(lower, 6);
    SplicedFirst(blank, blank, top);
    SplicedSecond(top, blank, bottom);
    AllSame(blank, blank, ink.Row(0, FONT_WIDTH));
    AllSame(top, blank, ink.Row(0, FONT_WIDTH));
    hide Spliced;
  }

  lemma SplicedFirst<T>(a: seq<T>, b: seq<T>, t: seq<T>)
    requires |t| == |a|
    ensures Spliced(a + b, 0, t) == t + b
  {
  }

  lemma SplicedSecond<T>(a: seq<T>, b: seq<T>, t: seq<T>)
    requires |t| == |b|
    ensures Spliced(a + b, |a|, t) == a + t
  {
  }

  lemma AllSame<T>(a: seq<T>, b: seq<T>, v: T)
    requires forall q :: 0 <= q < |b| ==> b[q] == v
    ensures forall q :: |a| <= q < |a| + |b| ==> (a + b)[q] == v
    ensures a == b ==> forall q :: 0 <= q < |a| + |b| ==> (a + b)[q] == v
  {
  }

  /** The rest of a row of the screen after a cell of `scale` times the font's width. */
  lemma SkipWidth(bytes: nat, width: nat, scale: nat)
    requires FONT_WIDTH * scale <= width
    ensures Offset(Offset(bytes, scale), FONT_WIDTH) + (width - FONT_WIDTH * scale) * bytes == Offset(bytes, width)
  {
    OffsetIsProduct(bytes, scale);
    OffsetIsProduct(bytes, width);
    OffsetIsProduct(Offset(bytes, scale), FONT_WIDTH);
    var cell := FONT_WIDTH * scale;
    assert (width - cell) * bytes == width * bytes - cell * bytes;
    assert cell * bytes == FONT_WIDTH * (scale * bytes);
  }

  // ---------- text ----------

  /** How text is laid out: `columns` and `rows` are counted in characters, a character of `scale` takes
      `scale` rows. */
  datatype Layout = Layout(ink: Ink, columns: nat, rows: nat, stride: nat, height: nat, font: seq<nat>)
  {
    ghost predicate Good() {
      && 0 < ink.scale <= rows && columns > 0
      && FONT_HEIGHT * rows <= height
      && CellX(columns) <= stride
      && |font| == 2 * (128 - 32)
    }

    /** The first byte of a column of text. */
    function CellX(x: nat): nat {
      Offset(Offset(ink.Width(), FONT_WIDTH + 1), x)
    }

    /** The bytes of a row of the screen that a character covers. */
    function CellWidth(): nat {
      Offset(ink.Width(), FONT_WIDTH)
    }

    function GlyphOf(c: nat): (rows: seq<seq<Byte>>)
      requires 32 <= c < 128 && |font| == 2 * (128 - 32)
    {
      ink.Glyph(font[(c - 32) * 2], font[(c - 32) * 2 + 1])
    }
  }

  function BlankScreen(stride: nat, height: nat): seq<seq<Byte>> {
    var black: Byte := 0;
    Copies(Copies(black, stride), height)
  }

  datatype Text = Text(x: nat, y: nat, screen: seq<seq<Byte>>)

  /** The position is one at which a character can be drawn. */
  ghost predicate Placed(p: Layout, t: Text) {
    && p.Good() && t.x < p.columns && (t.y + p.ink.scale < p.rows || t.y == 0)
    && |t.screen| == p.height && Uniform(t.screen, p.stride)
  }

  /** A cell at such a position is inside the screen. */
  lemma PlacedFits(p: Layout, t: Text, c: nat)
    requires Placed(p, t) && 32 <= c < 128
    ensures FONT_HEIGHT * t.y + Offset(p.ink.scale, FONT_HEIGHT) <= p.height
    ensures p.CellX(t.x) + Offset(p.ink.Width(), FONT_WIDTH) <= p.stride
    ensures Fits(t.screen, p.CellX(t.x), FONT_HEIGHT * t.y, p.GlyphOf(c))
  {
    OffsetMonotone(Offset(p.ink.Width(), FONT_WIDTH + 1), t.x, p.columns);
    NextPlace(Offset(p.ink.Width(), FONT_WIDTH + 1), t.x);
    NextPlace(p.ink.Width(), FONT_WIDTH);
    OffsetIsProduct(p.ink.scale, FONT_HEIGHT);
    hide Offset, Ink.Glyph, Ink.Width;
    GlyphSize(p, c);
  }

  lemma GlyphSize(p: Layout, c: nat)
    requires p.Good() && 32 <= c < 128
    ensures |p.GlyphOf(c)| == Offset(p.ink.scale, FONT_HEIGHT)
    ensures Uniform(p.GlyphOf(c), Offset(p.ink.Width(), FONT_WIDTH))
  {
    hide Offset;
  }

  /** The start of the next line; at the bottom the screen is cleared, and the character is painted again. */
  function NewLine(p: Layout, t: Text): (Text, bool)
    requires p.ink.scale <= p.rows
  {
    if t.y + p.ink.scale >= p.rows - p.ink.scale then (Text(0, 0, BlankScreen(p.stride, p.height)), true)
    else (Text(0, t.y + p.ink.scale, t.screen), false)
  }

  /** Paints a character once; the flag tells whether it has to be painted again. */
  function Paint(p: Layout, t: Text, c: Byte, keepSpaces: bool): (Text, bool)
    requires Placed(p, t)
  {
    if c > 127 then (t, false)
    else if c == NEWLINE then NewLine(p, t)
    else if c == RETURN then (t.(x := 0), false)
    else if c < 32 || (t.x == 0 && c == SPACE && !keepSpaces) then (t, false)
    else
      PlacedFits(p, t, c);
      var u := t.(screen := Drawn(t.screen, p.CellX(t.x), FONT_HEIGHT * t.y, p.GlyphOf(c)), x := t.x + 1);
      if u.x >= p.columns then NewLine(p, u) else (u, false)
  }

  lemma BlankUniform(p: Layout)
    ensures |BlankScreen(p.stride, p.height)| == p.height && Uniform(BlankScreen(p.stride, p.height), p.stride)
  {
  }

  /** Painting keeps the position good.  It asks to be repeated only near the bottom, and then with the
      screen cleared and the position at the top left. */
  lemma PaintKeeps(p: Layout, t: Text, c: Byte, keepSpaces: bool)
    requires Placed(p, t)
    ensures Placed(p, Paint(p, t, c, keepSpaces).0)
    ensures Paint(p, t, c, keepSpaces).1 ==>
              && t.y + 2 * p.ink.scale >= p.rows && (c == NEWLINE || t.x + 1 == p.columns)
              && Paint(p, t, c, keepSpaces).0 == Text(0, 0, BlankScreen(p.stride, p.height))
  {
    BlankUniform(p);
    if 32 <= c < 128 {
      PlacedFits(p, t, c);
    }
    hide Drawn, Ink.Glyph, Offset, BlankScreen;
  }

  /** Putting a character comes to an end: there are more than two characters' worth of rows, or the
      character is neither a newline nor one that is drawn and fills a line by itself. */
  predicate PutEnds(p: Layout, c: Byte, keepSpaces: bool) {
    || 2 * p.ink.scale < p.rows
    || !(c == NEWLINE || (p.columns == 1 && 32 <= c < 128 && (keepSpaces || c != SPACE)))
  }

  /** The condition is exact: if it holds, a repeated painting does not ask to be repeated again, and if it
      does not, the character is painted again, and then comes back to the same state for ever. */
  lemma PaintAgain(p: Layout, t: Text, c: Byte, keepSpaces: bool)
    requires Placed(p, t)
    ensures var (u, again) := Paint(p, t, c, keepSpaces);
            && Placed(p, u)
            && (PutEnds(p, c, keepSpaces) ==> again ==> !Paint(p, u, c, keepSpaces).1)
            && (!PutEnds(p, c, keepSpaces) ==> again && Paint(p, u, c, keepSpaces) == (u, true))
  {
    PaintKeeps(p, t, c, keepSpaces);
    hide Drawn, Ink.Glyph, Offset, BlankScreen;
  }

  /** An input for which it does not end: a newline at the top left of a screen of at most two characters'
      worth of rows comes back to where it was. */
  lemma NewLineEnds(p: Layout)
    requires p.Good()
    ensures var t := Text(0, 0, BlankScreen(p.stride, p.height));
            && Placed(p, t)
            && (PutEnds(p, NEWLINE, false) <==> 2 * p.ink.scale < p.rows)
            && (p.rows <= 2 * p.ink.scale ==> Paint(p, t, NEWLINE, false) == (t, true))
  {
    BlankUniform(p);
    hide Drawn, BlankScreen;
  }

  /** A character as it is put in the end, or the state that comes back for ever if there is no end. */
  function Put(p: Layout, t: Text, c: Byte, keepSpaces: bool): (u: Text)
    requires Placed(p, t)
    ensures Placed(p, u)
  {
    PaintKeeps(p, t, c, keepSpaces);
    var (u, again) := Paint(p, t, c, keepSpaces);
    if again then
      PaintKeeps(p, u, c, keepSpaces);
      Paint(p, u, c, keepSpaces).0
    else u
  }

  function PutAll(p: Layout, t: Text, s: seq<Byte>): (u: Text)
    requires Placed(p, t)
    ensures Placed(p, u)
  {
    if s == [] then t else Put(p, PutAll(p, t, s[..|s| - 1]), s[|s| - 1], false)
  }

  /** Putting each character of a string comes to an end. */
  predicate AllEnd(p: Layout, s: seq<Byte>) {
    forall c :: c in s ==> PutEnds(p, c, false)
  }

  predicate RowHolds(row: seq<Byte>, x: nat, part: seq<Byte>) {
    x + |part| <= |row| && row[x..x + |part|] == part
  }

  /** A cell of the screen holds `rows`. */
  ghost predicate CellHolds(screen: seq<seq<Byte>>, x: nat, y: nat, rows: seq<seq<Byte>>)
    requires Fits(screen, x, y, rows)
  {
    forall q {:trigger rows[q]} :: 0 <= q < |rows| ==> RowHolds(screen[y + q], x, rows[q])
  }

  lemma DrawnHolds(screen: seq<seq<Byte>>, x: nat, y: nat, rows: seq<seq<Byte>>)
    requires Fits(screen, x, y, rows)
    ensures Fits(Drawn(screen, x, y, rows), x, y, rows)
    ensures CellHolds(Drawn(screen, x, y, rows), x, y, rows)
  {
  }

  /** Drawing further right or further left in the same rows leaves a cell as it is. */
  lemma DrawnBeside(screen: seq<seq<Byte>>, x: nat, y: nat, rows: seq<seq<Byte>>,
                    x1: nat, rows1: seq<seq<Byte>>, w: nat)
    requires Fits(screen, x, y, rows) && Fits(screen, x1, y, rows1) && CellHolds(screen, x, y, rows)
    requires Uniform(rows, w) && Uniform(rows1, w) && (x + w <= x1 || x1 + w <= x)
    ensures Fits(Drawn(screen, x1, y, rows1), x, y, rows)
    ensures CellHolds(Drawn(screen, x1, y, rows1), x, y, rows)
  {
    hide Drawn, RowHolds;
    FitsDrawn(screen, x, y, rows, x1, y, rows1);
    forall q | 0 <= q < |rows|
      ensures RowHolds(Drawn(screen, x1, y, rows1)[y + q], x, rows[q])
    {
      RowBeside(screen, x, y, rows, x1, rows1, w, q);
    }
  }

  lemma RowBeside(screen: seq<seq<Byte>>, x: nat, y: nat, rows: seq<seq<Byte>>,
                  x1: nat, rows1: seq<seq<Byte>>, w: nat, q: nat)
    requires Fits(screen, x, y, rows) && Fits(screen, x1, y, rows1) && CellHolds(screen, x, y, rows)
    requires Uniform(rows, w) && Uniform(rows1, w) && (x + w <= x1 || x1 + w <= x) && q < |rows|
    ensures y + q < |Drawn(screen, x1, y, rows1)|
    ensures RowHolds(Drawn(screen, x1, y, rows1)[y + q], x, rows[q])
  {
    DrawnSize(screen, x1, y, rows1);
    DrawnRow(screen, x1, y, rows1, y + q);
    hide Drawn, Spliced;
    assert RowHolds(screen[y + q], x, rows[q]);
    if q < |rows1| {
      SplicedSlice(screen[y + q], x1, rows1[q], x, x + w);
      SplicedSize(screen[y + q], x1, rows1[q]);
    }
  }

  lemma DrawnSize(screen: seq<seq<Byte>>, x: nat, y: nat, rows: seq<seq<Byte>>)
    requires Fits(screen, x, y, rows)
    ensures |Drawn(screen, x, y, rows)| == |screen|
    ensures forall q :: 0 <= q < |screen| ==> |Drawn(screen, x, y, rows)[q]| == |screen[q]|
  {
  }

  /** What fits into a screen still does when something has been drawn. */
  lemma FitsDrawn(screen: seq<seq<Byte>>, x: nat, y: nat, rows: seq<seq<Byte>>,
                  x1: nat, y1: nat, rows1: seq<seq<Byte>>)
    requires Fits(screen, x, y, rows) && Fits(screen, x1, y1, rows1)
    ensures Fits(Drawn(screen, x1, y1, rows1), x, y, rows)
  {
    DrawnSize(screen, x1, y1, rows1);
    hide Drawn;
    var after := Drawn(screen, x1, y1, rows1);
    forall q | 0 <= q < |rows| ensures x + |rows[q]| <= |after[y + q]| {
      assert |after[y + q]| == |screen[y + q]|;
    }
  }

  lemma SplicedSize<T>(s: seq<T>, at: nat, t: seq<T>)
    requires at + |t| <= |s|
    ensures |Spliced(s, at, t)| == |s|
  {
  }

  /** The cell at a place of the text shows a character. */
  ghost predicate Shown(p: Layout, screen: seq<seq<Byte>>, x: nat, y: nat, c: Byte)
    requires p.Good()
  {
    && 32 <= c < 128
    && Fits(screen, p.CellX(x), FONT_HEIGHT * y, p.GlyphOf(c))
    && CellHolds(screen, p.CellX(x), FONT_HEIGHT * y, p.GlyphOf(c))
  }

  // ---------- text that does not reach the bottom ----------

  /** The character is drawn; a space at the beginning of a line is not. */
  predicate Draws(c: Byte, x: nat) {
    32 <= c < 128 && !(x == 0 && c == SPACE)
  }

  datatype Place = Place(x: nat, y: nat)

  /** Where the next character goes, as long as the screen is not cleared. */
  function NextPlaceOf(p: Layout, at: Place, c: Byte): Place {
    if c == NEWLINE then Place(0, at.y + p.ink.scale)
    else if c == RETURN then Place(0, at.y)
    else if !Draws(c, at.x) then at
    else if at.x + 1 >= p.columns then Place(0, at.y + p.ink.scale)
    else Place(at.x + 1, at.y)
  }

  function PlaceAfter(p: Layout, at: Place, s: seq<Byte>): Place {
    if s == [] then at else NextPlaceOf(p, PlaceAfter(p, at, s[..|s| - 1]), s[|s| - 1])
  }

  /** In an earlier line, or further left in the same one. */
  predicate Earlier(p: Layout, a: Place, b: Place) {
    (a.y == b.y && a.x < b.x) || a.y + p.ink.scale <= b.y
  }

  /** A character that does not reach the bottom is drawn once at its place, if at all. */
  lemma PutOnce(p: Layout, t: Text, c: Byte)
    requires Placed(p, t) && NextPlaceOf(p, Place(t.x, t.y), c).y + p.ink.scale < p.rows
    ensures PutEnds(p, c, false)
    ensures var u, at := Put(p, t, c, false), NextPlaceOf(p, Place(t.x, t.y), c);
            && u.x == at.x && u.y == at.y
            && (Draws(c, t.x) ==>
                  && Fits(t.screen, p.CellX(t.x), FONT_HEIGHT * t.y, p.GlyphOf(c))
                  && u.screen == Drawn(t.screen, p.CellX(t.x), FONT_HEIGHT * t.y, p.GlyphOf(c)))
            && (!Draws(c, t.x) ==> u.screen == t.screen)
  {
    if Draws(c, t.x) {
      PlacedFits(p, t, c);
    }
    hide Drawn, Ink.Glyph, Offset, Fits;
  }

  /** Drawing in the rows below a cell leaves it as it is. */
  lemma DrawnBelow(screen: seq<seq<Byte>>, x: nat, y: nat, rows: seq<seq<Byte>>,
                   x1: nat, y1: nat, rows1: seq<seq<Byte>>)
    requires Fits(screen, x, y, rows) && Fits(screen, x1, y1, rows1) && CellHolds(screen, x, y, rows)
    requires y + |rows| <= y1
    ensures Fits(Drawn(screen, x1, y1, rows1), x, y, rows)
    ensures CellHolds(Drawn(screen, x1, y1, rows1), x, y, rows)
  {
    hide Drawn, RowHolds;
    FitsDrawn(screen, x, y, rows, x1, y1, rows1);
    forall q | 0 <= q < |rows|
      ensures RowHolds(Drawn(screen, x1, y1, rows1)[y + q], x, rows[q])
    {
      DrawnRow(screen, x1, y1, rows1, y + q);
      assert RowHolds(screen[y + q], x, rows[q]);
    }
  }

  /** At another place of the same line, or in an earlier line. */
  predicate Aside(p: Layout, a: Place, b: Place) {
    (a.y == b.y && a.x != b.x) || a.y + p.ink.scale <= b.y
  }

  /** A character drawn leaves one that shows aside of it as it is. */
  lemma DrawnKeepsShown(p: Layout, t: Text, c: Byte, at: Place, c0: Byte)
    requires Placed(p, t) && 32 <= c < 128
    requires Shown(p, t.screen, at.x, at.y, c0) && Aside(p, at, Place(t.x, t.y))
    ensures Fits(t.screen, p.CellX(t.x), FONT_HEIGHT * t.y, p.GlyphOf(c))
    ensures Shown(p, Drawn(t.screen, p.CellX(t.x), FONT_HEIGHT * t.y, p.GlyphOf(c)), at.x, at.y, c0)
  {
    hide Ink.Glyph, Offset, Drawn, CellHolds, Fits;
    PlacedFits(p, t, c);
    GlyphSize(p, c0);
    GlyphSize(p, c);
    if at.y == t.y {
      CellsApart(p, at.x, t.x);
      DrawnBeside(t.screen, p.CellX(at.x), FONT_HEIGHT * at.y, p.GlyphOf(c0), p.CellX(t.x), p.GlyphOf(c),
                  p.CellWidth());
    } else {
      OffsetIsProduct(p.ink.scale, FONT_HEIGHT);
      DrawnBelow(t.screen, p.CellX(at.x), FONT_HEIGHT * at.y, p.GlyphOf(c0),
                 p.CellX(t.x), FONT_HEIGHT * t.y, p.GlyphOf(c));
    }
  }

  /** Cells in different columns of text have no byte in common. */
  lemma CellsApart(p: Layout, x: nat, x1: nat)
    requires x != x1
    ensures p.CellX(x) + p.CellWidth() <= p.CellX(x1) || p.CellX(x1) + p.CellWidth() <= p.CellX(x)
  {
    var pitch := Offset(p.ink.Width(), FONT_WIDTH + 1);
    NextPlace(p.ink.Width(), FONT_WIDTH);
    if x < x1 {
      OffsetMonotone(pitch, x, x1);
      NextPlace(pitch, x);
    } else {
      OffsetMonotone(pitch, x1, x);
      NextPlace(pitch, x1);
    }
  }

  /** The rows of the screen above `top` and from `bottom` on are the same. */
  ghost predicate SameOutside(a: seq<seq<Byte>>, b: seq<seq<Byte>>, top: nat, bottom: nat) {
    |a| == |b| && forall q :: 0 <= q < |a| && (q < top || bottom <= q) ==> a[q] == b[q]
  }

  lemma DrawnOutside(screen: seq<seq<Byte>>, x: nat, y: nat, rows: seq<seq<Byte>>, top: nat, bottom: nat)
    requires Fits(screen, x, y, rows) && top <= y && y + |rows| <= bottom
    ensures SameOutside(screen, Drawn(screen, x, y, rows), top, bottom)
  {
  }

  /** Character `i` of the string, if it is drawn, shows at its place, which is before `end`. */
  ghost predicate CharShown(p: Layout, screen: seq<seq<Byte>>, at: Place, s: seq<Byte>, i: nat, end: Place)
    requires p.Good() && i < |s|
  {
    var own := PlaceAfter(p, at, s[..i]);
    Draws(s[i], own.x) ==> Shown(p, screen, own.x, own.y, s[i]) && Earlier(p, own, end)
  }

  /** One more character keeps what shows and adds itself. */
  lemma ShowsOneMore(p: Layout, v: Text, at: Place, s: seq<Byte>, i: nat)
    requires s != [] && i < |s| && s[|s| - 1] != RETURN && Placed(p, v)
    requires PlaceAfter(p, at, s[..|s| - 1]) == Place(v.x, v.y)
    requires PlaceAfter(p, at, s).y + p.ink.scale < p.rows
    requires i < |s| - 1 ==> CharShown(p, v.screen, at, s[..|s| - 1], i, Place(v.x, v.y))
    ensures CharShown(p, Put(p, v, s[|s| - 1], false).screen, at, s, i, PlaceAfter(p, at, s))
  {
    assert p.Good();
    hide Put, PutEnds, Placed, Shown, Ink.Glyph, Offset, Drawn;
    var c := s[|s| - 1];
    PutOnce(p, v, c);
    if i < |s| - 1 {
      assert s[..|s| - 1][..i] == s[..i] && s[..|s| - 1][i] == s[i];
      var own := PlaceAfter(p, at, s[..i]);
      if Draws(s[i], own.x) && Draws(c, v.x) {
        DrawnKeepsShown(p, v, c, own, s[i]);
      }
    } else if Draws(c, v.x) {
      DrawnShows(p, v, c);
    }
  }

  lemma DrawnShows(p: Layout, v: Text, c: Byte)
    requires p.Good() && 32 <= c < 128 && Fits(v.screen, p.CellX(v.x), FONT_HEIGHT * v.y, p.GlyphOf(c))
    ensures Shown(p, Drawn(v.screen, p.CellX(v.x), FONT_HEIGHT * v.y, p.GlyphOf(c)), v.x, v.y, c)
  {
    hide Drawn, Ink.Glyph, Offset;
    DrawnHolds(v.screen, p.CellX(v.x), FONT_HEIGHT * v.y, p.GlyphOf(c));
  }

  /** Text over any number of lines that does not reach the bottom stands there in the end: each character
      that is drawn shows in the cell of its own place, and nothing above the first line or below the last
      one has changed.  A return, which goes back over the line, is left to `Put`. */
  lemma {:induction false} TextShown(p: Layout, t: Text, s: seq<Byte>)
    requires Placed(p, t) && RETURN !in s
    requires PlaceAfter(p, Place(t.x, t.y), s).y + p.ink.scale < p.rows
    ensures AllEnd(p, s)
    ensures var u, at := PutAll(p, t, s), Place(t.x, t.y);
            var end := PlaceAfter(p, at, s);
            && u.x == end.x && u.y == end.y >= t.y
            && (forall i :: 0 <= i < |s| ==> CharShown(p, u.screen, at, s, i, end))
            && SameOutside(t.screen, u.screen, FONT_HEIGHT * t.y, FONT_HEIGHT * (u.y + p.ink.scale))
  {
    assert p.Good();
    hide Put, PutEnds, AllEnd, Placed, CharShown, SameOutside, Layout.Good, NextPlaceOf;
    var at := Place(t.x, t.y);
    if s == [] {
      NothingChanges(t.screen, FONT_HEIGHT * t.y, FONT_HEIGHT * (t.y + p.ink.scale));
      assert AllEnd(p, []) by {
      }
    } else {
      var before, c := s[..|s| - 1], s[|s| - 1];
      PlacesGoOn(p, at, s);
      TextShown(p, t, before);
      var v := PutAll(p, t, before);
      OneMore(p, v, c);
      EndsOneMore(p, s);
      OneMoreOutside(p, t, v, c);
      var u := Put(p, v, c, false);
      forall i | 0 <= i < |s| ensures CharShown(p, u.screen, at, s, i, PlaceAfter(p, at, s)) {
        ShowsOneMore(p, v, at, s, i);
      }
    }
  }

  lemma PlacesGoOn(p: Layout, at: Place, s: seq<Byte>)
    requires s != []
    ensures PlaceAfter(p, at, s) == NextPlaceOf(p, PlaceAfter(p, at, s[..|s| - 1]), s[|s| - 1])
    ensures PlaceAfter(p, at, s[..|s| - 1]).y <= PlaceAfter(p, at, s).y
  {
    hide Draws;
  }

  lemma OneMore(p: Layout, v: Text, c: Byte)
    requires Placed(p, v) && NextPlaceOf(p, Place(v.x, v.y), c).y + p.ink.scale < p.rows
    ensures PutEnds(p, c, false)
    ensures var u := Put(p, v, c, false); Place(u.x, u.y) == NextPlaceOf(p, Place(v.x, v.y), c)
  {
    hide Put, PutEnds, Placed, Drawn, Fits, Draws, NextPlaceOf;
    PutOnce(p, v, c);
  }

  lemma EndsOneMore(p: Layout, s: seq<Byte>)
    requires s != [] && AllEnd(p, s[..|s| - 1]) && PutEnds(p, s[|s| - 1], false)
    ensures AllEnd(p, s)
  {
    assert s == s[..|s| - 1] + [s[|s| - 1]];
  }

  lemma NothingChanges(screen: seq<seq<Byte>>, top: nat, bottom: nat)
    ensures SameOutside(screen, screen, top, bottom)
  {
  }

  lemma OneMoreOutside(p: Layout, t: Text, v: Text, c: Byte)
    requires Placed(p, v) && NextPlaceOf(p, Place(v.x, v.y), c).y + p.ink.scale < p.rows && t.y <= v.y
    requires SameOutside(t.screen, v.screen, FONT_HEIGHT * t.y, FONT_HEIGHT * (v.y + p.ink.scale))
    ensures var u := Put(p, v, c, false);
            && v.y <= u.y
            && SameOutside(t.screen, u.screen, FONT_HEIGHT * t.y, FONT_HEIGHT * (v.y + p.ink.scale))
            && SameOutside(t.screen, u.screen, FONT_HEIGHT * t.y, FONT_HEIGHT * (u.y + p.ink.scale))
  {
    hide Put, PutEnds, Drawn, Offset, Ink.Glyph;
    PutOnce(p, v, c);
    if Draws(c, v.x) {
      GlyphSize(p, c);
      OffsetIsProduct(p.ink.scale, FONT_HEIGHT);
      DrawnOutside(v.screen, p.CellX(v.x), FONT_HEIGHT * v.y, p.GlyphOf(c),
                   FONT_HEIGHT * v.y, FONT_HEIGHT * (v.y + p.ink.scale));
    }
  }

  /** Visible text that fits into the rest of the line, filling it or not, goes from left to right; the line
      that it fills is ended. */
  lemma {:induction false} LinePlaces(p: Layout, at: Place, s: seq<Byte>)
    requires at.x < p.columns && at.x + |s| <= p.columns
    requires forall i :: 0 <= i < |s| ==> SPACE < s[i] < 128
    ensures PlaceAfter(p, at, s) == if at.x + |s| < p.columns then Place(at.x + |s|, at.y)
                                    else Place(0, at.y + p.ink.scale)
  {
    if s != [] {
      LinePlaces(p, at, s[..|s| - 1]);
    }
  }

  /** Such text stands in its line in the end, one character beside the other, and no row of the screen
      outside that line has changed, even if the line has been ended. */
  lemma LineShown(p: Layout, t: Text, s: seq<Byte>)
    requires Placed(p, t) && s != [] && t.x + |s| <= p.columns
    requires t.y + p.ink.scale < p.rows && (t.x + |s| == p.columns ==> t.y + 2 * p.ink.scale < p.rows)
    requires forall i :: 0 <= i < |s| ==> SPACE < s[i] < 128
    ensures AllEnd(p, s)
    ensures var u := PutAll(p, t, s);
            && Place(u.x, u.y) == (if t.x + |s| < p.columns then Place(t.x + |s|, t.y)
                                   else Place(0, t.y + p.ink.scale))
            && (forall i :: 0 <= i < |s| ==> Shown(p, u.screen, t.x + i, t.y, s[i]))
            && SameOutside(t.screen, u.screen, FONT_HEIGHT * t.y, FONT_HEIGHT * (t.y + p.ink.scale))
  {
    assert p.Good();
    hide *;
    var at := Place(t.x, t.y);
    LinePlaces(p, at, s);
    TextShown(p, t, s);
    LineOutside(p, t, s);
    var u := PutAll(p, t, s);
    forall i | 0 <= i < |s| ensures Shown(p, u.screen, t.x + i, t.y, s[i]) {
      VisibleShown(p, t, s, i);
    }
  }

  lemma LineOutside(p: Layout, t: Text, s: seq<Byte>)
    requires Placed(p, t) && s != [] && t.x + |s| <= p.columns
    requires t.y + p.ink.scale < p.rows && (t.x + |s| == p.columns ==> t.y + 2 * p.ink.scale < p.rows)
    requires forall i :: 0 <= i < |s| ==> SPACE < s[i] < 128
    ensures SameOutside(t.screen, PutAll(p, t, s).screen, FONT_HEIGHT * t.y, FONT_HEIGHT * (t.y + p.ink.scale))
  {
    hide Put, PutEnds, AllEnd, Placed, CharShown, Offset, Drawn, SameOutside, PlaceAfter, NextPlaceOf;
    var at, before := Place(t.x, t.y), s[..|s| - 1];
    LinePlaces(p, at, s);
    LinePlaces(p, at, before);
    PlacesGoOn(p, at, s);
    TextShown(p, t, before);
    OneMoreOutside(p, t, PutAll(p, t, before), s[|s| - 1]);
  }

  lemma VisibleShown(p: Layout, t: Text, s: seq<Byte>, i: nat)
    requires Placed(p, t) && p.Good() && t.x < p.columns && i < |s| && t.x + |s| <= p.columns
    requires PlaceAfter(p, Place(t.x, t.y), s).y + p.ink.scale < p.rows
    requires forall j :: 0 <= j < |s| ==> SPACE < s[j] < 128
    ensures Shown(p, PutAll(p, t, s).screen, t.x + i, t.y, s[i])
  {
    hide Shown, CharShown, PlaceAfter, PutAll, Placed, AllEnd, SameOutside, Layout.Good;
    var at, own := Place(t.x, t.y), Place(t.x + i, t.y);
    TextShown(p, t, s);
    LinePlaces(p, at, s[..i]);
    CharShownMeaning(p, PutAll(p, t, s).screen, at, s, i, PlaceAfter(p, at, s), own);
  }

  lemma CharShownMeaning(p: Layout, screen: seq<seq<Byte>>, at: Place, s: seq<Byte>, i: nat, end: Place, own: Place)
    requires p.Good() && i < |s| && CharShown(p, screen, at, s, i, end)
    requires PlaceAfter(p, at, s[..i]) == own && SPACE < s[i] < 128
    ensures Shown(p, screen, own.x, own.y, s[i])
  {
    hide Shown, PlaceAfter, Layout.Good, Earlier;
  }

  // ---------- any text ----------

  /** What has been drawn since the screen was last cleared: the next place, the last character of each
      place, and the screen under them. */
  datatype Sheet = Sheet(at: Place, page: map<Place, Byte>, base: seq<seq<Byte>>)

  function SheetLine(p: Layout, sheet: Sheet): (Sheet, bool)
    requires p.ink.scale <= p.rows
  {
    if sheet.at.y + p.ink.scale >= p.rows - p.ink.scale then
      (Sheet(Place(0, 0), map[], BlankScreen(p.stride, p.height)), true)
    else (sheet.(at := Place(0, sheet.at.y + p.ink.scale)), false)
  }

  function SheetPaint(p: Layout, sheet: Sheet, c: Byte, keepSpaces: bool): (Sheet, bool)
    requires p.ink.scale <= p.rows
  {
    if c == NEWLINE then SheetLine(p, sheet)
    else if c == RETURN then (sheet.(at := Place(0, sheet.at.y)), false)
    else if c > 127 || c < 32 || (sheet.at.x == 0 && c == SPACE && !keepSpaces) then (sheet, false)
    else
      var drawn := sheet.(page := sheet.page[sheet.at := c], at := Place(sheet.at.x + 1, sheet.at.y));
      if drawn.at.x >= p.columns then SheetLine(p, drawn) else (drawn, false)
  }

  function SheetPut(p: Layout, sheet: Sheet, c: Byte, keepSpaces: bool): Sheet
    requires p.ink.scale <= p.rows
  {
    var (once, again) := SheetPaint(p, sheet, c, keepSpaces);
    if again then SheetPaint(p, once, c, keepSpaces).0 else once
  }

  function SheetAll(p: Layout, sheet: Sheet, s: seq<Byte>): Sheet
    requires p.ink.scale <= p.rows
  {
    if s == [] then sheet else SheetPut(p, SheetAll(p, sheet, s[..|s| - 1]), s[|s| - 1], false)
  }

  /** Byte `b` of row `q` of the screen belongs to the cell of a place. */
  predicate InCell(p: Layout, a: Place, q: int, b: int) {
    && FONT_HEIGHT * a.y <= q < FONT_HEIGHT * (a.y + p.ink.scale)
    && p.CellX(a.x) <= b < p.CellX(a.x) + p.CellWidth()
  }

  /** The characters of the page show in the cells of their places, which are in the present line or above. */
  ghost predicate PageShown(p: Layout, screen: seq<seq<Byte>>, sheet: Sheet)
    requires p.Good()
  {
    forall a :: a in sheet.page ==>
      && (a.y == sheet.at.y || a.y + p.ink.scale <= sheet.at.y)
      && Shown(p, screen, a.x, a.y, sheet.page[a])
  }

  /** Byte `b` of row `q` is as it was unless it is in the cell of a character of the page. */
  ghost predicate ByteKept(p: Layout, screen: seq<seq<Byte>>, sheet: Sheet, q: int, b: int)
    requires 0 <= q < |screen| == |sheet.base| && 0 <= b < |screen[q]| == |sheet.base[q]|
  {
    screen[q][b] == sheet.base[q][b] || exists a :: a in sheet.page && InCell(p, a, q, b)
  }

  ghost predicate RestKept(p: Layout, screen: seq<seq<Byte>>, sheet: Sheet)
    requires |screen| == |sheet.base| && Uniform(screen, p.stride) && Uniform(sheet.base, p.stride)
  {
    forall q, b :: 0 <= q < |screen| && 0 <= b < p.stride ==> ByteKept(p, screen, sheet, q, b)
  }

  /** The screen shows the sheet: each character in its own cell, and nothing else. */
  ghost predicate Depicts(p: Layout, t: Text, sheet: Sheet) {
    && Placed(p, t) && sheet.at == Place(t.x, t.y)
    && |sheet.base| == p.height && Uniform(sheet.base, p.stride)
    && PageShown(p, t.screen, sheet) && RestKept(p, t.screen, sheet)
  }

  /** The screen, wherever the next place is. */
  ghost predicate SheetShown(p: Layout, screen: seq<seq<Byte>>, sheet: Sheet) {
    && p.Good() && |screen| == |sheet.base| == p.height
    && Uniform(screen, p.stride) && Uniform(sheet.base, p.stride)
    && PageShown(p, screen, sheet) && RestKept(p, screen, sheet)
  }

  lemma EmptySheet(p: Layout, t: Text)
    requires Placed(p, t)
    ensures Depicts(p, t, Sheet(Place(t.x, t.y), map[], t.screen))
  {
  }

  /** Drawing changes nothing outside of its cell. */
  lemma DrawnElsewhere(p: Layout, t: Text, c: Byte, q: int, b: int)
    requires Placed(p, t) && 32 <= c < 128 && 0 <= q < p.height && 0 <= b < p.stride
    requires !InCell(p, Place(t.x, t.y), q, b)
    ensures Fits(t.screen, p.CellX(t.x), FONT_HEIGHT * t.y, p.GlyphOf(c))
    ensures Drawn(t.screen, p.CellX(t.x), FONT_HEIGHT * t.y, p.GlyphOf(c))[q][b] == t.screen[q][b]
  {
    hide Ink.Glyph, Offset;
    PlacedFits(p, t, c);
    GlyphSize(p, c);
    OffsetIsProduct(p.ink.scale, FONT_HEIGHT);
  }

  /** Drawing a character puts it on the page. */
  lemma DrawnOnSheet(p: Layout, t: Text, sheet: Sheet, c: Byte)
    requires Depicts(p, t, sheet) && 32 <= c < 128
    ensures Fits(t.screen, p.CellX(t.x), FONT_HEIGHT * t.y, p.GlyphOf(c))
    ensures var screen := Drawn(t.screen, p.CellX(t.x), FONT_HEIGHT * t.y, p.GlyphOf(c));
            var after := sheet.(page := sheet.page[sheet.at := c]);
            SheetShown(p, screen, after)
  {
    hide Ink.Glyph, Offset, Shown, Drawn, InCell, Fits;
    PlacedFits(p, t, c);
    DrawnUniform(p, t, c);
    var screen := Drawn(t.screen, p.CellX(t.x), FONT_HEIGHT * t.y, p.GlyphOf(c));
    var after := sheet.(page := sheet.page[sheet.at := c]);
    forall a | a in after.page
      ensures a.y == after.at.y || a.y + p.ink.scale <= after.at.y
      ensures Shown(p, screen, a.x, a.y, after.page[a])
    {
      if a == sheet.at {
        DrawnShows(p, t, c);
      } else {
        DrawnKeepsShown(p, t, c, a, sheet.page[a]);
      }
    }
    forall q, b | 0 <= q < p.height && 0 <= b < p.stride
      ensures ByteKept(p, screen, after, q, b)
    {
      KeptOnSheet(p, t, sheet, c, q, b);
    }
  }

  lemma DrawnUniform(p: Layout, t: Text, c: Byte)
    requires Placed(p, t) && 32 <= c < 128
    ensures Fits(t.screen, p.CellX(t.x), FONT_HEIGHT * t.y, p.GlyphOf(c))
    ensures var screen := Drawn(t.screen, p.CellX(t.x), FONT_HEIGHT * t.y, p.GlyphOf(c));
            |screen| == p.height && Uniform(screen, p.stride)
  {
    hide Ink.Glyph, Offset;
    PlacedFits(p, t, c);
  }

  lemma KeptOnSheet(p: Layout, t: Text, sheet: Sheet, c: Byte, q: int, b: int)
    requires Depicts(p, t, sheet) && 32 <= c < 128 && 0 <= q < p.height && 0 <= b < p.stride
    ensures Fits(t.screen, p.CellX(t.x), FONT_HEIGHT * t.y, p.GlyphOf(c))
    ensures var screen := Drawn(t.screen, p.CellX(t.x), FONT_HEIGHT * t.y, p.GlyphOf(c));
            && |screen| == p.height && |screen[q]| == p.stride
            && ByteKept(p, screen, sheet.(page := sheet.page[sheet.at := c]), q, b)
  {
    hide Ink.Glyph, Offset, Shown, Drawn, InCell, Fits, PageShown;
    DrawnUniform(p, t, c);
    var page := sheet.page[sheet.at := c];
    if InCell(p, sheet.at, q, b) {
      assert sheet.at in page;
    } else {
      DrawnElsewhere(p, t, c, q, b);
      assert ByteKept(p, t.screen, sheet, q, b);
      if a :| a in sheet.page && InCell(p, a, q, b) {
        assert a in page;
      }
    }
  }

  /** Going on to another place below, or in the same line, keeps what shows. */
  lemma SheetMoves(p: Layout, sheet: Sheet, u: Text)
    requires SheetShown(p, u.screen, sheet) && Placed(p, u)
    requires u.y == sheet.at.y || u.y == sheet.at.y + p.ink.scale
    ensures Depicts(p, u, sheet.(at := Place(u.x, u.y)))
  {
    hide Shown, InCell;
    var after := sheet.(at := Place(u.x, u.y));
    forall q, b | 0 <= q < p.height && 0 <= b < p.stride
      ensures ByteKept(p, u.screen, after, q, b)
    {
      assert ByteKept(p, u.screen, sheet, q, b);
    }
  }

  lemma LineOnSheet(p: Layout, t: Text, sheet: Sheet)
    requires SheetShown(p, t.screen, sheet) && sheet.at == Place(t.x, t.y)
    ensures p.ink.scale <= p.rows && NewLine(p, t).1 == SheetLine(p, sheet).1
    ensures Depicts(p, NewLine(p, t).0, SheetLine(p, sheet).0)
  {
    hide PageShown, RestKept, BlankScreen, Depicts;
    BlankUniform(p);
    var u := NewLine(p, t).0;
    if NewLine(p, t).1 {
      EmptySheet(p, u);
    } else {
      SheetMoves(p, sheet, u);
    }
  }

  lemma PaintOnSheet(p: Layout, t: Text, sheet: Sheet, c: Byte, keepSpaces: bool)
    requires Depicts(p, t, sheet)
    ensures Paint(p, t, c, keepSpaces).1 == SheetPaint(p, sheet, c, keepSpaces).1
    ensures Depicts(p, Paint(p, t, c, keepSpaces).0, SheetPaint(p, sheet, c, keepSpaces).0)
  {
    assert p.Good();
    DepictsShown(p, t, sheet);
    hide Paint, SheetPaint, NewLine, SheetLine, SheetShown, PageShown, RestKept, Drawn, Layout.Good, Uniform;
    PaintCases(p, t, c, keepSpaces);
    SheetCases(p, sheet, c, keepSpaces);
    if c == NEWLINE {
      LineOnSheet(p, t, sheet);
    } else if c == RETURN {
      SheetMoves(p, sheet, t.(x := 0));
    } else if 32 <= c < 128 && !(t.x == 0 && c == SPACE && !keepSpaces) {
      PaintedOnSheet(p, t, sheet, c);
    }
  }

  lemma PaintCases(p: Layout, t: Text, c: Byte, keepSpaces: bool)
    requires Placed(p, t)
    ensures c == NEWLINE ==> p.ink.scale <= p.rows && Paint(p, t, c, keepSpaces) == NewLine(p, t)
    ensures c == RETURN ==> Paint(p, t, c, keepSpaces) == (t.(x := 0), false)
    ensures c != NEWLINE && c != RETURN && (c < 32 || 127 < c || (t.x == 0 && c == SPACE && !keepSpaces)) ==>
              Paint(p, t, c, keepSpaces) == (t, false)
    ensures 32 <= c < 128 && !(t.x == 0 && c == SPACE && !keepSpaces) ==>
              && Fits(t.screen, p.CellX(t.x), FONT_HEIGHT * t.y, p.GlyphOf(c))
              && var u := Text(t.x + 1, t.y, Drawn(t.screen, p.CellX(t.x), FONT_HEIGHT * t.y, p.GlyphOf(c)));
                 Paint(p, t, c, keepSpaces) == if u.x >= p.columns then NewLine(p, u) else (u, false)
  {
    if 32 <= c < 128 {
      PlacedFits(p, t, c);
    }
    hide NewLine, Drawn, Fits, Offset, Ink.Glyph;
  }

  lemma SheetCases(p: Layout, sheet: Sheet, c: Byte, keepSpaces: bool)
    requires p.ink.scale <= p.rows
    ensures c == NEWLINE ==> SheetPaint(p, sheet, c, keepSpaces) == SheetLine(p, sheet)
    ensures c == RETURN ==> SheetPaint(p, sheet, c, keepSpaces) == (sheet.(at := Place(0, sheet.at.y)), false)
    ensures c != NEWLINE && c != RETURN && (c < 32 || 127 < c || (sheet.at.x == 0 && c == SPACE && !keepSpaces)) ==>
              SheetPaint(p, sheet, c, keepSpaces) == (sheet, false)
    ensures 32 <= c < 128 && !(sheet.at.x == 0 && c == SPACE && !keepSpaces) ==>
              var after := sheet.(page := sheet.page[sheet.at := c], at := Place(sheet.at.x + 1, sheet.at.y));
              SheetPaint(p, sheet, c, keepSpaces)
              == if after.at.x >= p.columns then SheetLine(p, after) else (after, false)
  {
    hide SheetLine;
  }

  /** A character that is drawn, and the end of a line that it fills. */
  lemma PaintedOnSheet(p: Layout, t: Text, sheet: Sheet, c: Byte)
    requires Depicts(p, t, sheet) && 32 <= c < 128
    ensures Fits(t.screen, p.CellX(t.x), FONT_HEIGHT * t.y, p.GlyphOf(c)) && p.ink.scale <= p.rows
    ensures var u := Text(t.x + 1, t.y, Drawn(t.screen, p.CellX(t.x), FONT_HEIGHT * t.y, p.GlyphOf(c)));
            var after := sheet.(page := sheet.page[sheet.at := c], at := Place(t.x + 1, t.y));
            if u.x >= p.columns then
              NewLine(p, u).1 == SheetLine(p, after).1 && Depicts(p, NewLine(p, u).0, SheetLine(p, after).0)
            else Depicts(p, u, after)
  {
    hide Depicts, SheetShown, NewLine, SheetLine, Drawn, Placed, Ink.Glyph, Offset;
    PaintedSheet(p, t, sheet, c);
    var u := Text(t.x + 1, t.y, Drawn(t.screen, p.CellX(t.x), FONT_HEIGHT * t.y, p.GlyphOf(c)));
    var after := sheet.(page := sheet.page[sheet.at := c], at := Place(t.x + 1, t.y));
    if u.x >= p.columns {
      LineOnSheet(p, u, after);
    } else {
      SheetMoves(p, after, u);
    }
  }

  lemma PaintedSheet(p: Layout, t: Text, sheet: Sheet, c: Byte)
    requires Depicts(p, t, sheet) && 32 <= c < 128
    ensures Fits(t.screen, p.CellX(t.x), FONT_HEIGHT * t.y, p.GlyphOf(c)) && p.Good() && p.ink.scale <= p.rows
    ensures var u := Text(t.x + 1, t.y, Drawn(t.screen, p.CellX(t.x), FONT_HEIGHT * t.y, p.GlyphOf(c)));
            && SheetShown(p, u.screen, sheet.(page := sheet.page[sheet.at := c], at := Place(t.x + 1, t.y)))
            && (u.x < p.columns ==> Placed(p, u))
  {
    hide Depicts, SheetShown, PageShown, RestKept, Drawn, Ink.Glyph, Offset, Placed, Uniform;
    DepictsShown(p, t, sheet);
    DrawnOnSheet(p, t, sheet, c);
    var screen := Drawn(t.screen, p.CellX(t.x), FONT_HEIGHT * t.y, p.GlyphOf(c));
    var drawn := sheet.(page := sheet.page[sheet.at := c]);
    SheetNext(p, screen, drawn);
    if t.x + 1 < p.columns {
      NextPlaced(p, t, sheet, Text(t.x + 1, t.y, screen));
    }
  }

  lemma DepictsShown(p: Layout, t: Text, sheet: Sheet)
    requires Depicts(p, t, sheet)
    ensures SheetShown(p, t.screen, sheet) && p.Good() && p.ink.scale <= p.rows && sheet.at == Place(t.x, t.y)
  {
  }

  lemma NextPlaced(p: Layout, t: Text, sheet: Sheet, u: Text)
    requires Depicts(p, t, sheet) && u.x < p.columns && u.y == t.y
    requires |u.screen| == p.height && Uniform(u.screen, p.stride)
    ensures Placed(p, u)
  {
  }

  /** The column of the next place does not matter to what shows. */
  lemma SheetNext(p: Layout, screen: seq<seq<Byte>>, sheet: Sheet)
    requires SheetShown(p, screen, sheet)
    ensures SheetShown(p, screen, sheet.(at := Place(sheet.at.x + 1, sheet.at.y)))
    ensures |screen| == p.height && Uniform(screen, p.stride)
  {
    hide Shown, InCell;
    var after := sheet.(at := Place(sheet.at.x + 1, sheet.at.y));
    forall q, b | 0 <= q < |screen| && 0 <= b < p.stride
      ensures ByteKept(p, screen, after, q, b)
    {
      assert ByteKept(p, screen, sheet, q, b);
    }
  }

  /** After any string, carriage returns and clearings included, each character put since the last clearing
      shows in its own cell, unless another one was put there after it, and every other byte of the screen is
      as the clearing left it, or as it was at first if there was none. */
  lemma {:induction false} ScreenShown(p: Layout, t: Text, sheet: Sheet, s: seq<Byte>)
    requires Depicts(p, t, sheet)
    ensures p.ink.scale <= p.rows && Depicts(p, PutAll(p, t, s), SheetAll(p, sheet, s))
  {
    assert p.Good();
    hide Depicts, Paint, SheetPaint, Layout.Good, Placed;
    if s != [] {
      var before, c := s[..|s| - 1], s[|s| - 1];
      ScreenShown(p, t, sheet, before);
      var v, page := PutAll(p, t, before), SheetAll(p, sheet, before);
      PaintOnSheet(p, v, page, c, false);
      if Paint(p, v, c, false).1 {
        PaintOnSheet(p, Paint(p, v, c, false).0, SheetPaint(p, page, c, false).0, c, false);
      }
    }
  }

  /** Where the code's arithmetic puts a character. */
  lemma Places(bytes: nat, width: nat, scale: nat, x: nat, y: nat)
    ensures y * (bytes * FONT_HEIGHT * width) == Offset(Offset(bytes, width), FONT_HEIGHT * y)
    ensures x * scale * (bytes * (FONT_WIDTH + 1)) == Offset(Offset(Offset(bytes, scale), FONT_WIDTH + 1), x)
  {
    LineStart(bytes, width, y);
    CellStart(bytes, scale, x);
  }

  lemma LineStart(bytes: nat, width: nat, y: nat)
    ensures y * (bytes * FONT_HEIGHT * width) == Offset(Offset(bytes, width), FONT_HEIGHT * y)
  {
    OffsetIsProduct(bytes, width);
    OffsetIsProduct(Offset(bytes, width), FONT_HEIGHT * y);
    hide Offset;
    var stride := width * bytes;
    assert bytes * FONT_HEIGHT * width == FONT_HEIGHT * stride;
  }

  lemma CellStart(bytes: nat, scale: nat, x: nat)
    ensures x * scale * (bytes * (FONT_WIDTH + 1)) == Offset(Offset(Offset(bytes, scale), FONT_WIDTH + 1), x)
  {
    var unit := Offset(bytes, scale);
    OffsetIsProduct(bytes, scale);
    OffsetIsProduct(unit, FONT_WIDTH + 1);
    OffsetIsProduct(Offset(unit, FONT_WIDTH + 1), x);
    hide Offset;
    Reorder(x, scale, bytes);
    assert Offset(unit, FONT_WIDTH + 1) == 6 * (scale * bytes);
  }

  lemma Reorder(x: nat, scale: nat, bytes: nat)
    ensures x * scale * (bytes * 6) == x * (6 * (scale * bytes))
  {
    assert x * scale * (bytes * 6) == x * (scale * (bytes * 6));
    assert scale * (bytes * 6) == 6 * (scale * bytes);
  }

  /** The columns of text fit into the width of the screen. */
  lemma ColumnsFit(bytes: nat, width: nat, scale: nat, columns: nat)
    requires scale > 0 && columns == width / (FONT_WIDTH + 1) / scale
    ensures Offset(Offset(Offset(bytes, scale), FONT_WIDTH + 1), columns) <= Offset(bytes, width)
    ensures columns > 0 ==> FONT_WIDTH * scale <= width
  {
    CellStart(bytes, scale, columns);
    OffsetIsProduct(bytes, width);
    hide Offset;
    Covered(width / (FONT_WIDTH + 1), scale);
    var pixels := columns * scale * 6;
    Times(pixels, width, bytes);
    assert columns * scale * (bytes * 6) == pixels * bytes;
    if columns > 0 {
      Times(1, columns, scale);
    }
  }

  lemma Covered(max: nat, scale: nat)
    requires scale > 0
    ensures max / scale * scale <= max
  {
  }

  lemma AllPixels(bytes: nat, width: nat, height: nat)
    ensures Offset(Offset(bytes, height), width) == Offset(Offset(bytes, width), height)
  {
    hide Offset;
    OffsetIsProduct(bytes, height);
    OffsetIsProduct(bytes, width);
    OffsetIsProduct(Offset(bytes, height), width);
    OffsetIsProduct(Offset(bytes, width), height);
    assert width * (height * bytes) == height * (width * bytes);
  }

  lemma AllBlack(cells: seq<Byte>, stride: nat, height: nat)
    requires |cells| == Offset(stride, height) && forall k :: 0 <= k < |cells| ==> cells[k] == 0
    ensures Grid(cells, stride, height) == BlankScreen(stride, height)
  {
    var g := Grid(cells, stride, height);
    forall q | 0 <= q < height ensures g[q] == BlankScreen(stride, height)[q] {
      GridRow(cells, stride, height, q);
    }
  }

  lemma Times(a: nat, b: nat, c: nat)
    requires a <= b
    ensures a * c <= b * c
  {
  }

  // ---------- the console ----------

  class Console {
    const width: nat
    const height: nat
    const bytes: nat
    const stride: nat
    const font: seq<nat>
    const memory: array<Byte>
    var x: nat
    var y: nat
    var maxX: nat
    var maxY: nat
    var foreground: nat
    var background: nat

    constructor (memory: array<Byte>, width: nat, height: nat, bytes: nat, font: seq<nat>)
      requires memory.Length == Offset(Offset(bytes, width), height)
      ensures Valid() && this.memory == memory && this.width == width && this.height == height
      ensures this.bytes == bytes && this.font == font
    {
      this.memory, this.width, this.height, this.bytes, this.font := memory, width, height, bytes, font;
      stride := Offset(bytes, width);
      x, y, maxX, maxY, foreground, background := 0, 0, 0, 0, 0, 0;
    }

    /** The text starts at the top left, white on black. */
    method Reset()
      requires Valid() && height > 0
      modifies this
      ensures Valid() && memory[..] == old(memory[..])
      ensures x == 0 && y == 0 && foreground == 0xffff && background == 0
      ensures maxX == width / 6 && maxY == (height - 1) / 12
      ensures forall scale :: Ready(scale) ==> Placed(LayoutFor(scale), Value())
    {
      x, y := 0, 0;
      maxX := width / (FONT_WIDTH + 1);
      maxY := (height - 1) / FONT_HEIGHT;
      foreground, background := WHITE, BLACK;
      forall scale | Ready(scale) ensures Placed(LayoutFor(scale), Value()) {
        ReadyLayout(scale);
      }
    }

    /** What a scale needs: room for one character at least. */
    ghost predicate Ready(scale: nat)
      reads this
    {
      && maxX == width / (FONT_WIDTH + 1) && height > 0 && maxY == (height - 1) / FONT_HEIGHT
      && 0 < scale <= maxX && scale <= maxY
      && |font| == 2 * (128 - 32)
    }

    ghost function LayoutFor(scale: nat): Layout
      requires scale > 0
      reads this
    {
      Layout(Pen(scale), maxX / scale, maxY, stride, height, font)
    }

    lemma ReadyLayout(scale: nat)
      requires Valid() && Ready(scale)
      ensures LayoutFor(scale).Good() && FONT_WIDTH * scale <= width
    {
      ColumnsFit(bytes, width, scale, maxX / scale);
    }

    ghost function Value(): Text
      requires Valid()
      reads this, memory
    {
      Text(x, y, Screen())
    }

    /** Blackens the whole memory. */
    method ResetFb()
      requires Valid()
      modifies memory
      ensures Valid() && Screen() == BlankScreen(stride, height)
    {
      hide Grid, Offset;
      var pixels, i := 0, 0;
      ghost var column := Offset(bytes, height);
      AllPixels(bytes, width, height);
      NextPlace(column, 0);
      while i < width
        invariant i <= width && pixels == Offset(column, i) <= memory.Length && BlackUpTo(pixels)
      {
        OffsetMonotone(column, i, width);
        NextPlace(column, i);
        NextPlace(bytes, 0);
        var j := 0;
        while j < height
          invariant j <= height && pixels == Offset(column, i) + Offset(bytes, j) <= memory.Length
          invariant BlackUpTo(pixels)
        {
          OffsetMonotone(bytes, j, height);
          NextPlace(bytes, j);
          pixels := BlackPixel(pixels);
          j := j + 1;
        }
        i := i + 1;
      }
      AllBlack(memory[..], stride, height);
    }

    ghost predicate BlackUpTo(n: nat)
      requires n <= memory.Length
      reads memory
    {
      forall k :: 0 <= k < n ==> memory[k] == 0
    }

    method BlackPixel(start: nat) returns (pixels: nat)
      requires start + bytes <= memory.Length && BlackUpTo(start)
      modifies memory
      ensures pixels == start + bytes && BlackUpTo(pixels)
    {
      var color, p := BLACK, 0;
      pixels := start;
      while p < bytes
        invariant p <= bytes && pixels == start + p && color == 0
        invariant BlackUpTo(pixels)
      {
        memory[pixels] := color % 256;
        color := color / 256;
        pixels := pixels + 1;
        p := p + 1;
      }
    }

    /** Paints a character once. */
    method PaintOnce(c: Byte, keepSpaces: bool, scale: nat) returns (again: bool)
      requires Valid() && Ready(scale) && Placed(LayoutFor(scale), Value())
      modifies this`x, this`y, memory
      ensures Valid() && LayoutFor(scale) == old(LayoutFor(scale))
      ensures (Value(), again) == Paint(LayoutFor(scale), old(Value()), c, keepSpaces)
    {
      hide Grid, Drawn, Offset, Ink.Glyph;
      ghost var p, t := LayoutFor(scale), Value();
      if c > 127 {
        return false;
      }
      if c < 32 {
        if c == NEWLINE {
          again := StartLine(scale);
          return;
        } else if c == RETURN {
          x := 0;
          return false;
        } else {
          return false;
        }
      }
      if x == 0 && c == SPACE && !keepSpaces {
        return false;
      }
      PlacedFits(p, t, c);
      Places(bytes, width, scale, x, y);
      ReadyLayout(scale);
      var pixels := y * (bytes * FONT_HEIGHT * width) + x * scale * (bytes * (FONT_WIDTH + 1));
      DrawGlyph(pixels, scale, font[(c - 32) * 2], font[(c - 32) * 2 + 1], FONT_HEIGHT * y, p.CellX(x));
      x := x + 1;
      if x >= maxX / scale {
        again := StartLine(scale);
      } else {
        again := false;
      }
    }

    method StartLine(scale: nat) returns (again: bool)
      requires Valid() && Ready(scale)
      modifies this`x, this`y, memory
      ensures Valid() && LayoutFor(scale) == old(LayoutFor(scale))
      ensures (Value(), again) == NewLine(LayoutFor(scale), old(Value()))
    {
      y := y + scale;
      x := 0;
      if y >= maxY - scale {
        ResetFb();
        y := 0;
        return true;
      }
      return false;
    }

    method PutChar(c: Byte, keepSpaces: bool, scale: nat)
      requires Valid() && Ready(scale) && Placed(LayoutFor(scale), Value())
      requires PutEnds(LayoutFor(scale), c, keepSpaces)
      modifies this`x, this`y, memory
      ensures Valid() && Ready(scale) && LayoutFor(scale) == old(LayoutFor(scale))
      ensures Value() == Put(LayoutFor(scale), old(Value()), c, keepSpaces)
    {
      hide Paint, PutEnds, Offset, Layout.Good, Uniform;
      ghost var p, t := LayoutFor(scale), Value();
      PaintKeeps(p, t, c, keepSpaces);
      var again := PaintOnce(c, keepSpaces, scale);
      ghost var first := true;
      while again
        invariant Valid() && Ready(scale) && LayoutFor(scale) == p && Placed(p, Value())
        invariant first ==> (Value(), again) == Paint(p, t, c, keepSpaces)
        invariant !first ==> Paint(p, t, c, keepSpaces).1 && !again
        invariant !first ==> Value() == Paint(p, Paint(p, t, c, keepSpaces).0, c, keepSpaces).0
        decreases again
      {
        PaintAgain(p, t, c, keepSpaces);
        PaintKeeps(p, Value(), c, keepSpaces);
        again := PaintOnce(c, keepSpaces, scale);
        first := false;
      }
    }

    /** Text is put character by character. */
    method Write(s: seq<Byte>)
      requires Valid() && Ready(SCALE) && Placed(LayoutFor(SCALE), Value())
      requires AllEnd(LayoutFor(SCALE), s)
      modifies this`x, this`y, memory
      ensures Valid() && Ready(SCALE) && LayoutFor(SCALE) == old(LayoutFor(SCALE))
      ensures Value() == PutAll(LayoutFor(SCALE), old(Value()), s)
    {
      hide Put, PutEnds, Placed;
      ghost var p, t := LayoutFor(SCALE), Value();
      var i := 0;
      while i < |s|
        invariant i <= |s| && Valid() && Ready(SCALE) && LayoutFor(SCALE) == p
        invariant Value() == PutAll(p, t, s[..i])
      {
        assert s[..i + 1][..i] == s[..i];
        PutChar(s[i], false, SCALE);
        i := i + 1;
      }
      assert s[..|s|] == s;
    }

    ghost predicate Valid() {
      stride == Offset(bytes, width) && memory.Length == Offset(stride, height)
    }

    ghost function Screen(): (screen: seq<seq<Byte>>)
      requires Valid()
      reads memory
      ensures |screen| == height && forall q :: 0 <= q < height ==> |screen[q]| == stride
    {
      Grid(memory[..], stride, height)
    }

    method PutPixel(start: nat, color: nat) returns (at: nat)
      requires start + bytes <= memory.Length
      modifies memory
      ensures at == start + bytes
      ensures memory[..] == Spliced(old(memory[..]), start, Pixel(color, bytes))
    {
      at := start;
      var rest, k := color, 0;
      ghost var done: seq<Byte> := [];
      SplicedNone(memory[..], start);
      hide Spliced, Pixel;
      while k < bytes
        invariant k <= bytes && at == start + k && |done| == k
        invariant done + Pixel(rest, bytes - k) == Pixel(color, bytes)
        invariant memory[..] == Spliced(old(memory[..]), start, done)
      {
        SplicedNext(old(memory[..]), start, done, rest % 256);
        PixelNext(done, rest, bytes - k);
        memory[at] := rest % 256;
        done := done + [rest % 256];
        rest := rest / 256;
        at := at + 1;
        k := k + 1;
      }
      PixelDone(done, rest);
    }

    method PutBlock(start: nat, color: nat, scale: nat) returns (at: nat)
      requires start + Offset(bytes, scale) <= memory.Length
      modifies memory
      ensures at == start + Offset(bytes, scale)
      ensures memory[..] == Spliced(old(memory[..]), start, Block(color, bytes, scale))
    {
      hide Repeated, Pixel, Offset, Spliced;
      at := start;
      var j := 0;
      ghost var was, pixel := memory[..], Pixel(color, bytes);
      BlockStart(was, start, pixel, scale);
      while j < scale
        invariant j <= scale && start + |Repeated(pixel, j)| <= |was|
        invariant at == start + Offset(bytes, j)
        invariant memory[..] == Spliced(was, start, Repeated(pixel, j))
      {
        BlockStep(was, start, pixel, scale, j);
        at := PutPixel(at, color);
        j := j + 1;
      }
    }

    function Pen(scale: nat): Ink
      reads this
    {
      Ink(foreground, background, bytes, scale)
    }

    method BackgroundRow(start: nat, scale: nat) returns (at: nat)
      requires start + Offset(Offset(bytes, scale), FONT_WIDTH) <= memory.Length
      modifies memory
      ensures at == start + Offset(Offset(bytes, scale), FONT_WIDTH)
      ensures memory[..] == Spliced(old(memory[..]), start, Pen(scale).Row(0, FONT_WIDTH))
    {
      hide Block, Spliced, Offset, Bit, Shifted, Ink.Row;
      at := start;
      var n := 0;
      ghost var ink := Pen(scale);
      ghost var was := memory[..];
      RowStart(was, start, ink, 0);
      while n < FONT_WIDTH
        invariant n <= FONT_WIDTH && start + |ink.Row(0, n)| <= |was|
        invariant at == start + Offset(ink.Width(), n)
        invariant memory[..] == Spliced(was, start, ink.Row(0, n))
      {
        BlankStep(was, start, ink, n);
        at := PutBlock(at, background, scale);
        n := n + 1;
      }
    }

    /** Draws the set bits of a row over the background and gives the bits that are left. */
    method ForegroundRow(start: nat, scale: nat, word: nat) returns (at: nat, data: nat)
      requires start + Offset(Offset(bytes, scale), FONT_WIDTH) <= memory.Length
      requires memory[start..start + Offset(Offset(bytes, scale), FONT_WIDTH)] == Pen(scale).Row(0, FONT_WIDTH)
      modifies memory
      ensures at == start + Offset(Offset(bytes, scale), FONT_WIDTH)
      ensures data == Shifted(word, FONT_WIDTH)
      ensures memory[..] == Spliced(old(memory[..]), start, Pen(scale).Row(word, FONT_WIDTH))
    {
      hide Block, Spliced, Offset, Bit, Shifted, Ink.Row;
      at, data := start, word;
      var n := 0;
      ghost var ink := Pen(scale);
      ghost var was := memory[..];
      RowStart(was, start, ink, word);
      while n < FONT_WIDTH
        invariant n <= FONT_WIDTH && start + |ink.Row(word, n)| <= |was|
        invariant at == start + Offset(ink.Width(), n)
        invariant data == Shifted(word, n)
        invariant memory[..] == Spliced(was, start, ink.Row(word, n))
      {
        DataBit(word, n);
        RowStep(was, start, ink, word, n);
        if data % 2 == 1 {
          at := PutBlock(at, foreground, scale);
        } else {
          at := SkipBlock(at, scale);
        }
        data := data / 2;
        n := n + 1;
      }
    }

    function CellWidth(scale: nat): nat {
      Offset(Offset(bytes, scale), FONT_WIDTH)
    }

    /** The memory holds `screen` with `rows` drawn into it, from row `r` and byte `c` on. */
    ghost predicate Shows(screen: seq<seq<Byte>>, r: nat, c: nat, rows: seq<seq<Byte>>, w: nat)
      reads memory
    {
      && Valid()
      && |screen| == height && Uniform(screen, stride) && Uniform(rows, w) && c + w <= stride
      && Fits(screen, c, r, rows)
      && Screen() == Drawn(screen, c, r, rows)
    }

    /** Draws one row of background below the rows drawn so far, and goes on to the next row. */
    method BackgroundLine(start: nat, scale: nat, skip: nat,
                          ghost screen: seq<seq<Byte>>, ghost r: nat, ghost c: nat, ghost rows: seq<seq<Byte>>)
      returns (at: nat)
      requires Shows(screen, r, c, rows, CellWidth(scale)) && r + |rows| < height
      requires CellWidth(scale) + skip == stride && start == Offset(stride, r + |rows|) + c
      modifies memory
      ensures Shows(screen, r, c, rows + [Pen(scale).Row(0, FONT_WIDTH)], CellWidth(scale))
      ensures at == Offset(stride, r + |rows| + 1) + c
    {
      hide Grid, Drawn, Spliced, Ink.Row;
      ghost var row := Pen(scale).Row(0, FONT_WIDTH);
      SplicedRow(memory[..], stride, height, r + |rows|, c, row);
      RowBelow(screen, stride, c, r, rows, CellWidth(scale), row);
      NextPlace(stride, r + |rows|);
      at := BackgroundRow(start, scale);
      at := at + skip;
    }

    /** Half of the cell in the background colour. */
    method BackgroundHalf(start: nat, scale: nat, skip: nat,
                          ghost screen: seq<seq<Byte>>, ghost r: nat, ghost c: nat, ghost rows: seq<seq<Byte>>)
      returns (at: nat)
      requires Shows(screen, r, c, rows, CellWidth(scale)) && r + |rows| + Offset(scale, 6) <= height
      requires CellWidth(scale) + skip == stride && start == Offset(stride, r + |rows|) + c
      modifies memory
      ensures Shows(screen, r, c, rows + Pen(scale).Half(0, 6), CellWidth(scale))
      ensures at == Offset(stride, r + |rows| + Offset(scale, 6)) + c
    {
      hide Console.Shows, Offset, Copies, Ink.Row, Ink.Half, Shifted;
      at := start;
      ghost var ink := Pen(scale);
      ghost var row := ink.Row(0, FONT_WIDTH);
      var n := 0;
      HalfNext(ink, 0, 0);
      ghost var drawn := rows;
      assert drawn == rows + ink.Half(0, 0);
      while n < 6
        invariant n <= 6 && drawn == rows + ink.Half(0, n) && |ink.Half(0, n)| == Offset(scale, n)
        invariant Shows(screen, r, c, drawn, CellWidth(scale))
        invariant at == Offset(stride, r + |drawn|) + c
      {
        HalfNext(ink, 0, n);
        HalfNext(ink, 0, n + 1);
        NoWord(FONT_WIDTH * n);
        OffsetMonotone(scale, n + 1, 6);
        CopiesNext(row, 0);
        assert drawn == rows + ink.Half(0, n) + Copies(row, 0);
        var i := 0;
        while i < scale
          invariant i <= scale && drawn == rows + ink.Half(0, n) + Copies(row, i) && |Copies(row, i)| == i
          invariant Shows(screen, r, c, drawn, CellWidth(scale))
          invariant at == Offset(stride, r + |drawn|) + c
        {
          CopiesNext(row, i);
          Append(rows + ink.Half(0, n), Copies(row, i), [row]);
          at := BackgroundLine(at, scale, skip, screen, r, c, drawn);
          drawn := drawn + [row];
          i := i + 1;
        }
        Append(rows, ink.Half(0, n), Copies(row, scale));
        n := n + 1;
      }
    }

    /** Draws the set bits of `word` over row `n` of the rows drawn, which is background so far. */
    method ForegroundLine(start: nat, scale: nat, skip: nat, word: nat, ghost screen: seq<seq<Byte>>,
                          ghost r: nat, ghost c: nat, ghost rows: seq<seq<Byte>>, ghost n: nat)
      returns (at: nat, data: nat)
      requires Shows(screen, r, c, rows, CellWidth(scale)) && n < |rows|
      requires rows[n] == Pen(scale).Row(0, FONT_WIDTH)
      requires CellWidth(scale) + skip == stride && start == Offset(stride, r + n) + c
      modifies memory
      ensures Shows(screen, r, c, rows[n := Pen(scale).Row(word, FONT_WIDTH)], CellWidth(scale))
      ensures at == Offset(stride, r + n + 1) + c && data == Shifted(word, FONT_WIDTH)
    {
      hide Grid, Drawn, Spliced, Ink.Row, Shifted;
      ghost var row := Pen(scale).Row(word, FONT_WIDTH);
      DrawnSlice(memory[..], stride, height, screen, r, c, rows, n);
      SplicedRow(memory[..], stride, height, r + n, c, row);
      DrawnOver(screen, c, r, rows, n, row);
      NextPlace(stride, r + n);
      at, data := ForegroundRow(start, scale, word);
      at := at + skip;
    }

    /** Draws half a glyph over its background, which is drawn from row `m` of `rows` on. */
    method ForegroundHalf(start: nat, scale: nat, skip: nat, word: nat, ghost screen: seq<seq<Byte>>,
                          ghost r: nat, ghost c: nat, ghost rows: seq<seq<Byte>>, ghost m: nat)
      returns (at: nat)
      requires Shows(screen, r, c, rows, CellWidth(scale)) && m + Offset(scale, 6) <= |rows|
      requires forall q :: m <= q < m + Offset(scale, 6) ==> rows[q] == Pen(scale).Row(0, FONT_WIDTH)
      requires CellWidth(scale) + skip == stride && start == Offset(stride, r + m) + c && scale > 0
      modifies memory
      ensures |Pen(scale).Half(word, 6)| == Offset(scale, 6)
      ensures Shows(screen, r, c, Spliced(rows, m, Pen(scale).Half(word, 6)), CellWidth(scale))
      ensures at == Offset(stride, r + m + Offset(scale, 6)) + c
    {
      hide Console.Shows, Offset, Copies, Ink.Row, Ink.Half, Shifted, Spliced;
      at := start;
      ghost var ink := Pen(scale);
      ghost var done: seq<seq<Byte>> := [];
      var data, y := word, 0;
      HalfNext(ink, word, 0);
      HalfNext(ink, word, 6);
      SplicedNone(rows, m);
      ShiftedNone(word);
      while y < 6
        invariant y <= 6 && done == ink.Half(word, y) && |done| == Offset(scale, y)
        invariant Offset(scale, y) <= Offset(scale, 6) && data == Shifted(word, FONT_WIDTH * y)
        invariant Shows(screen, r, c, Spliced(rows, m, done), CellWidth(scale))
        invariant at == Offset(stride, r + m + |done|) + c
      {
        HalfNext(ink, word, y);
        HalfNext(ink, word, y + 1);
        OffsetMonotone(scale, y + 1, 6);
        ShiftedBit(word, FONT_WIDTH * y, FONT_WIDTH);
        ghost var row := ink.Row(Shifted(word, FONT_WIDTH * y), FONT_WIDTH);
        CopiesNext(row, 0);
        var temp, i := data, 0;
        while i < scale
          invariant i <= scale && done == ink.Half(word, y) + Copies(row, i) && |Copies(row, i)| == i
          invariant i > 0 ==> data == Shifted(temp, FONT_WIDTH)
          invariant |done| == Offset(scale, y) + i
          invariant Shows(screen, r, c, Spliced(rows, m, done), CellWidth(scale))
          invariant at == Offset(stride, r + m + |done|) + c
        {
          CopiesNext(row, i);
          Append(ink.Half(word, y), Copies(row, i), [row]);
          SplicedNext(rows, m, done, row);
          at, data := ForegroundLine(at, scale, skip, temp, screen, r, c, Spliced(rows, m, done), m + |done|);
          done := done + [row];
          i := i + 1;
        }
        y := y + 1;
      }
    }

    /** Draws a glyph at a byte of the memory: the background first, then the set bits over it. */
    method DrawGlyph(start: nat, scale: nat, upper: nat, lower: nat, ghost r: nat, ghost c: nat)
      requires Valid() && scale > 0 && FONT_WIDTH * scale <= width
      requires start == Offset(stride, r) + c
      requires r + Offset(scale, FONT_HEIGHT) <= height && c + CellWidth(scale) <= stride
      modifies memory
      ensures Valid() && Fits(old(Screen()), c, r, Pen(scale).Glyph(upper, lower))
      ensures Screen() == Drawn(old(Screen()), c, r, Pen(scale).Glyph(upper, lower))
    {
      hide Console.Shows, Offset, Ink.Row, Ink.Half, Ink.Glyph, Ink.Width, Grid, Drawn, Spliced, Fits;
      var skip := (width - FONT_WIDTH * scale) * bytes;
      SkipWidth(bytes, width, scale);
      ghost var ink, screen := Pen(scale), Screen();
      ghost var blank, top := ink.Half(0, 6), ink.Half(upper, 6);
      ShowsNothing(r, c, CellWidth(scale));
      GlyphSteps(ink, upper, lower);
      assert [] + blank == blank;
      var at := BackgroundHalf(start, scale, skip, screen, r, c, []);
      at := BackgroundHalf(at, scale, skip, screen, r, c, blank);
      at := ForegroundHalf(start, scale, skip, upper, screen, r, c, blank + blank, 0);
      at := ForegroundHalf(at, scale, skip, lower, screen, r, c, top + blank, |blank|);
      ShowsMeaning(screen, r, c, ink.Glyph(upper, lower), CellWidth(scale));
    }

    lemma ShowsNothing(r: nat, c: nat, w: nat)
      requires Valid() && r <= height && c + w <= stride
      ensures Shows(Screen(), r, c, [], w)
    {
      DrawnNothing(Screen(), c, r);
    }

    lemma ShowsMeaning(screen: seq<seq<Byte>>, r: nat, c: nat, rows: seq<seq<Byte>>, w: nat)
      requires Shows(screen, r, c, rows, w)
      ensures Valid() && Fits(screen, c, r, rows) && Screen() == Drawn(screen, c, r, rows)
    {
    }

    method SkipBlock(start: nat, scale: nat) returns (at: nat)
      ensures at == start + Offset(bytes, scale)
    {
      at := start;
      for j := 0 to scale
        invariant at == start + Offset(bytes, j)
      {
        at := at + bytes;
      }
    }
  }

  lemma SliceOf<T>(s: seq<T>, at: nat, n: nat, i: nat, j: nat)
    requires at + n <= |s| && i <= j <= n
    ensures s[at..at + n][i..j] == s[at + i..at + j]
  {
    var a, b := s[at..at + n][i..j], s[at + i..at + j];
    assert forall k :: 0 <= k < j - i ==> a[k] == b[k];
  }
}