/** A text terminal that handles one character at a time. */
module Terminal {

  /** A 16-bit character; strings end before the first null. */
  type Char = c: int | 0 < c < 0x1_0000 witness 32

  const BACKSPACE: Char := 8
  const LINEFEED: Char := 10
  const CARRIAGE_RETURN: Char := 13
  const SPACE: Char := 32
  const NARROW_CHAR: Char := 0xFFF0
  const WIDE_CHAR: Char := 0xFFF1

  /** What a character cell shows.  A wide character covers two cells. */
  datatype Glyph =
    | Cleared(background: nat)
    | Narrow(c: Char, colors: nat)
    | WideLeft(c: Char, colors: nat)
    | WideRight(c: Char, colors: nat)

  predicate Printable(c: Char) {
    c != BACKSPACE && c != LINEFEED && c != CARRIAGE_RETURN && c != WIDE_CHAR && c != NARROW_CHAR
  }

  /** The size of the screen and the colors in use. */
  datatype Setup = Setup(columns: nat, rows: nat, colors: nat)

  /** A screen with its cursor; `wide` is whether characters are printed wide, and `scrolls` counts
      the lines that have left the top of the screen. */
  datatype Screen = Screen(cells: seq<seq<Glyph>>, column: nat, row: nat, wide: bool, scrolls: nat)

  /** A wide character needs two columns. */
  predicate Usable(u: Setup) {
    2 <= u.columns && 1 <= u.rows
  }

  predicate Sized(cells: seq<seq<Glyph>>, u: Setup) {
    |cells| == u.rows && forall r :: 0 <= r < |cells| ==> |cells[r]| == u.columns
  }

  predicate Fits(t: Screen, u: Setup) {
    Sized(t.cells, u) && t.column < u.columns && t.row < u.rows
  }

  function Background(colors: nat): nat {
    colors % 0x80 / 0x10
  }

  function ClearedLine(u: Setup): (line: seq<Glyph>)
    ensures |line| == u.columns
  {
    seq(u.columns, _ => Cleared(Background(u.colors)))
  }

  function ClearedScreen(u: Setup): (cells: seq<seq<Glyph>>)
    ensures Sized(cells, u)
  {
    seq(u.rows, _ => ClearedLine(u))
  }

  /** The screen content after the top line has scrolled off. */
  function Scrolled(cells: seq<seq<Glyph>>, u: Setup): (after: seq<seq<Glyph>>)
    requires Sized(cells, u) && Usable(u)
    ensures Sized(after, u)
  {
    cells[1..] + [ClearedLine(u)]
  }

  function LineFeed(t: Screen, u: Setup): (t': Screen)
    requires Fits(t, u) && Usable(u)
    ensures Fits(t', u)
  {
    if t.row == u.rows - 1 then t.(cells := Scrolled(t.cells, u), scrolls := t.scrolls + 1)
    else t.(row := t.row + 1)
  }

  function NewLine(t: Screen, u: Setup): (t': Screen)
    requires Sized(t.cells, u) && t.row < u.rows && Usable(u)
    ensures Fits(t', u)
  {
    LineFeed(t.(column := 0), u)
  }

  /** The cells a character covers. */
  function Glyphs(c: Char, wide: bool, colors: nat): (gs: seq<Glyph>)
    ensures |gs| == Width(1, wide)
  {
    if wide then [WideLeft(c, colors), WideRight(c, colors)] else [Narrow(c, colors)]
  }

  /** The columns that `n` characters take. */
  function Width(n: nat, wide: bool): nat {
    if wide then 2 * n else n
  }

  /** Writes `gs` over row `row` from `column` on. */
  function Over(cells: seq<seq<Glyph>>, row: nat, column: nat, gs: seq<Glyph>): (after: seq<seq<Glyph>>)
    requires row < |cells| && column + |gs| <= |cells[row]|
    ensures |after| == |cells| && forall r :: 0 <= r < |cells| ==> |after[r]| == |cells[r]|
  {
    cells[row := cells[row][..column] + gs + cells[row][column + |gs|..]]
  }

  /** Prints a character that fits in the line; the cursor goes to the next line when the line is
      then full. */
  function Put(t: Screen, u: Setup, c: Char): (t': Screen)
    requires Fits(t, u) && Usable(u) && t.column + Width(1, t.wide) <= u.columns
    ensures Fits(t', u) && t'.wide == t.wide
  {
    var after := t.(cells := Over(t.cells, t.row, t.column, Glyphs(c, t.wide, u.colors)),
                    column := t.column + Width(1, t.wide));
    if after.column == u.columns then NewLine(after, u) else after
  }

  /** Fills the last column with a narrow space, where a wide character does not fit. */
  function Spill(t: Screen, u: Setup): (t': Screen)
    requires Fits(t, u) && Usable(u) && t.column == u.columns - 1
    ensures Fits(t', u) && t'.column == 0 && t'.wide == t.wide
  {
    Put(t.(wide := false), u, SPACE).(wide := t.wide)
  }

  /** Erases the cell before the cursor, which moves there; the line before the first column of a line
      is the end of the line above. */
  function Erase(t: Screen, u: Setup): (t': Screen)
    requires Fits(t, u) && Usable(u)
    ensures Fits(t', u) && t'.wide == t.wide
  {
    if t.column > 0 then
      t.(cells := Over(t.cells, t.row, t.column - 1, [Narrow(SPACE, u.colors)]), column := t.column - 1)
    else if t.row > 0 then
      t.(cells := Over(t.cells, t.row - 1, u.columns - 1, [Narrow(SPACE, u.colors)]),
         column := u.columns - 1, row := t.row - 1)
    else t
  }

  function Step(t: Screen, u: Setup, c: Char): (t': Screen)
    requires Fits(t, u) && Usable(u)
    ensures Fits(t', u)
  {
    if c == BACKSPACE then Erase(t, u)
    else if c == LINEFEED then LineFeed(t, u)
    else if c == CARRIAGE_RETURN then t.(column := 0)
    else if c == WIDE_CHAR then t.(wide := true)
    else if c == NARROW_CHAR then t.(wide := false)
    else if t.wide && t.column == u.columns - 1 then Put(Spill(t, u), u, c)
    else Put(t, u, c)
  }

  function Run(t: Screen, u: Setup, s: seq<Char>): (t': Screen)
    requires Fits(t, u) && Usable(u)
    ensures Fits(t', u)
    decreases |s|
  {
    if s == [] then t else Run(Step(t, u, s[0]), u, s[1..])
  }

  /** Printing a string: the character width in use before it is in use again after it. */
  function Print(t: Screen, u: Setup, s: seq<Char>): (t': Screen)
    requires Fits(t, u) && Usable(u)
    ensures Fits(t', u)
  {
    Run(t, u, s).(wide := t.wide)
  }

  // ----- laws -----

  lemma {:induction false} RunConcat(t: Screen, u: Setup, s: seq<Char>, s': seq<Char>)
    requires Fits(t, u) && Usable(u)
    ensures Run(t, u, s + s') == Run(Run(t, u, s), u, s')
    decreases |s|
  {
    if s == [] {
      assert s + s' == s';
    } else {
      assert (s + s')[1..] == s[1..] + s';
      RunConcat(Step(t, u, s[0]), u, s[1..], s');
    }
  }

  lemma {:induction false} NarrowStays(t: Screen, u: Setup, s: seq<Char>)
    requires Fits(t, u) && Usable(u) && !t.wide && WIDE_CHAR !in s
    ensures !Run(t, u, s).wide
    decreases |s|
  {
    if s != [] {
      NarrowStays(Step(t, u, s[0]), u, s[1..]);
    }
  }

  /** The character width that the last width control of `s` leaves, or the present one. */
  function WidthAfter(s: seq<Char>, wide: bool): bool {
    if s == [] then wide
    else if s[|s| - 1] == WIDE_CHAR then true
    else if s[|s| - 1] == NARROW_CHAR then false
    else WidthAfter(s[..|s| - 1], wide)
  }

  lemma StepWidth(t: Screen, u: Setup, c: Char)
    requires Fits(t, u) && Usable(u)
    ensures Step(t, u, c).wide == WidthAfter([c], t.wide)
  {
    assert [c][..0] == [];
  }

  lemma {:induction false} RunWidth(t: Screen, u: Setup, s: seq<Char>)
    requires Fits(t, u) && Usable(u)
    ensures Run(t, u, s).wide == WidthAfter(s, t.wide)
  {
    if s != [] {
      var n := |s| - 1;
      var before := Run(t, u, s[..n]);
      RunWidth(t, u, s[..n]);
      RunConcat(t, u, s[..n], [s[n]]);
      StepWidth(before, u, s[n]);
      assert s == s[..n] + [s[n]] && [s[n]][..0] == [];
      assert Run(before, u, [s[n]]) == Run(Step(before, u, s[n]), u, []);
      hide Step, Fits, Usable;
    }
  }

  /** A space printed wide and one printed narrow leave the cursor in different places, counted with the
      lines that have left the screen. */
  lemma SpaceShowsWidth(t: Screen, u: Setup, wide: bool)
    requires Fits(t, u) && Usable(u)
    ensures Step(t.(wide := wide), u, SPACE).(wide := wide) != Step(t.(wide := !wide), u, SPACE).(wide := wide)
  {
    var w, n := Step(t.(wide := true), u, SPACE), Step(t.(wide := false), u, SPACE);
    if t.column + 2 <= u.columns {
      assert w.column != n.column;
    } else {
      assert n.column == 0 && n.row + n.scrolls == t.row + t.scrolls + 1;
      assert Spill(t.(wide := true), u).row + Spill(t.(wide := true), u).scrolls == t.row + t.scrolls + 1;
      assert w.column == 2 || w.row + w.scrolls == t.row + t.scrolls + 2;
    }
  }

  /** Printing in two calls is printing in one, whatever the second string is, exactly when the last width
      control of the first one, if it has any, is for the width that was in use before. */
  lemma PrintConcat(t: Screen, u: Setup, s: seq<Char>)
    requires Fits(t, u) && Usable(u)
    ensures (forall s' :: Print(Print(t, u, s), u, s') == Print(t, u, s + s')) <==>
            WidthAfter(s, t.wide) == t.wide
  {
    hide Step;
    RunWidth(t, u, s);
    if WidthAfter(s, t.wide) == t.wide {
      forall s' ensures Print(Print(t, u, s), u, s') == Print(t, u, s + s') {
        RunConcat(t, u, s, s');
      }
    } else {
      var after := Run(t, u, s);
      RunConcat(t, u, s, [SPACE]);
      SpaceShowsWidth(after, u, t.wide);
      RunOne(after, u, SPACE);
      RunOne(after.(wide := t.wide), u, SPACE);
      assert Print(Print(t, u, s), u, [SPACE]) != Print(t, u, s + [SPACE]);
    }
  }

  lemma RunOne(t: Screen, u: Setup, c: Char)
    requires Fits(t, u) && Usable(u)
    ensures Run(t, u, [c]) == Step(t, u, c)
  {
    hide Step;
    assert [c][1..] == [];
    assert Run(Step(t, u, c), u, []) == Step(t, u, c);
  }

  /** A string for which it is not: the second call starts over in the old width. */
  lemma PrintConcatFails()
    ensures var u := Setup(4, 1, 7);
            var t := Screen([ClearedLine(u)], 0, 0, false, 0);
            Print(Print(t, u, [WIDE_CHAR]), u, [SPACE]) != Print(t, u, [WIDE_CHAR] + [SPACE])
  {
    var u := Setup(4, 1, 7);
    var t := Screen([ClearedLine(u)], 0, 0, false, 0);
    assert Run(t, u, [WIDE_CHAR]) == Run(t.(wide := true), u, []);
    assert ([WIDE_CHAR] + [SPACE])[1..] == [SPACE];
    assert Run(t, u, [WIDE_CHAR] + [SPACE]) == Run(t.(wide := true), u, [SPACE]);
    assert Run(t.(wide := true), u, [SPACE]) == Run(Step(t.(wide := true), u, SPACE), u, []);
    assert Run(t, u, [SPACE]) == Run(Step(t, u, SPACE), u, []);
  }

  // ----- printing a run of characters at once -----

  function GlyphRun(cs: seq<Char>, wide: bool, colors: nat): (gs: seq<Glyph>)
    ensures |gs| == Width(|cs|, wide)
  {
    if cs == [] then [] else Glyphs(cs[0], wide, colors) + GlyphRun(cs[1..], wide, colors)
  }

  /** The screen after drawing `cs` at the cursor, with the cursor behind them. */
  function Drawn(t: Screen, u: Setup, cs: seq<Char>): (t': Screen)
    requires Sized(t.cells, u) && t.row < u.rows && t.column + Width(|cs|, t.wide) <= u.columns
    ensures Sized(t'.cells, u)
  {
    t.(cells := Over(t.cells, t.row, t.column, GlyphRun(cs, t.wide, u.colors)),
       column := t.column + Width(|cs|, t.wide))
  }

  lemma DrawnFirst(t: Screen, u: Setup, cs: seq<Char>)
    requires Sized(t.cells, u) && t.row < u.rows && cs != []
    requires t.column + Width(|cs|, t.wide) <= u.columns
    ensures var t' := Drawn(t, u, [cs[0]]);
            && t'.column + Width(|cs| - 1, t.wide) <= u.columns
            && Drawn(t', u, cs[1..]) == Drawn(t, u, cs)
  {
    var t' := Drawn(t, u, [cs[0]]);
    var line := t.cells[t.row];
    var first := Glyphs(cs[0], t.wide, u.colors);
    var rest := GlyphRun(cs[1..], t.wide, u.colors);
    assert [cs[0]][1..] == [];
    assert GlyphRun([cs[0]], t.wide, u.colors) == first;
    assert t'.cells[t.row] == line[..t.column] + first + line[t.column + |first|..];
    var k := t.column + |first|;
    assert t'.cells[t.row][..k] == line[..t.column] + first;
    assert t'.cells[t.row][k + |rest|..] == line[k + |rest|..];
    assert GlyphRun(cs, t.wide, u.colors) == first + rest;
    assert line[..t.column] + first + rest == line[..t.column] + (first + rest);
  }

  /** A run that fits in the line can be drawn in one go. */
  lemma {:induction false} RunIsDrawn(t: Screen, u: Setup, cs: seq<Char>)
    requires Fits(t, u) && Usable(u) && cs != [] && forall c :: c in cs ==> Printable(c)
    requires t.column + Width(|cs|, t.wide) <= u.columns
    ensures Run(t, u, cs) ==
            var t' := Drawn(t, u, cs);
            if t'.column == u.columns then NewLine(t', u) else t'
    decreases |cs|
  {
    assert [cs[0]][1..] == [];
    assert GlyphRun([cs[0]], t.wide, u.colors) == Glyphs(cs[0], t.wide, u.colors);
    assert Printable(cs[0]) && Step(t, u, cs[0]) == Put(t, u, cs[0]);
    if |cs| == 1 {
      assert cs == [cs[0]];
      assert Run(t, u, cs) == Run(Step(t, u, cs[0]), u, []);
    } else {
      DrawnFirst(t, u, cs);
      RunIsDrawn(Step(t, u, cs[0]), u, cs[1..]);
    }
  }
}
