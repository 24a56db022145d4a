/** The graphics console: text drawn on a pixel screen in runs, and a cursor that is XORed over the
    cell it stands on.

    The screen is kept as character cells.  What the XOR has changed is kept apart, as the color
    difference of each cell; a cell has none when it has just been drawn.  There is one more column of
    differences than of cells: the cursor stands there for a moment after the last cell of a line has
    been printed. */
module GraphicsConsole {
  import opened Terminal

  /** The raw foreground colors: blue, green and red from the lowest byte up. */
  const COLORS: seq<bv32> := [
    0x000000, 0x000098, 0x009800, 0x009898, 0x980000, 0x980098, 0x989800, 0x989898,
    0x303030, 0x0000ff, 0x00ff00, 0x00ffff, 0xff0000, 0xff00ff, 0xffff00, 0xffffff]

  const WIDE_ATTRIBUTE := 0x80
  const CRLF: seq<Char> := [CARRIAGE_RETURN, LINEFEED]
  const SPACE_STRING: seq<Char> := [NARROW_CHAR, SPACE]

  function Foreground(attribute: nat): bv32 {
    COLORS[attribute % 0x10]
  }

  /** Bits 0, 1 and 2 of the attribute are for blue, green and red, and bit 3 is for a bright color; bright black is
      a dark gray. */
  lemma ForegroundMeaning(attribute: nat)
    ensures var n := attribute % 16;
            var level: bv32 := if n >= 8 then 0xff else 0x98;
            var blue, green, red := n % 2 == 1, n / 2 % 2 == 1, n / 4 % 2 == 1;
            Foreground(attribute) ==
            if n == 8 then 0x303030
            else (if blue then level else 0) + (if green then level * 0x100 else 0)
                 + (if red then level * 0x1_0000 else 0)
  {
    var n := attribute % 16;
    assert n == 0 || n == 1 || n == 2 || n == 3 || n == 4 || n == 5 || n == 6 || n == 7 || n == 8 || n == 9
           || n == 10 || n == 11 || n == 12 || n == 13 || n == 14 || n == 15;
  }

  /** The character width does not change the foreground color. */
  lemma ForegroundKept(attribute: nat)
    ensures Foreground(attribute + WIDE_ATTRIBUTE) == Foreground(attribute)
    ensures attribute >= WIDE_ATTRIBUTE ==> Foreground(attribute - WIDE_ATTRIBUTE) == Foreground(attribute)
  {
    LowBits(attribute);
    if attribute >= WIDE_ATTRIBUTE {
      LowBits(attribute - WIDE_ATTRIBUTE);
    }
  }

  lemma LowBits(n: nat)
    ensures (n + WIDE_ATTRIBUTE) % 0x10 == n % 0x10
  {
  }

  /** A text mode; `margin` is whether the screen reaches one cell beyond the last column. */
  datatype ModeData = ModeData(columns: nat, rows: nat, margin: bool)

  /** A mode of no columns and no rows is one the screen does not support. */
  predicate GoodMode(m: ModeData) {
    (m.columns == 0 && m.rows == 0) || (2 <= m.columns && 1 <= m.rows)
  }

  // ----- color differences -----

  type Overlay = seq<seq<bv32>>

  predicate OverlaySized(o: Overlay, u: Setup) {
    |o| == u.rows && forall r :: 0 <= r < |o| ==> |o[r]| == u.columns + 1
  }

  /** The differences when only the cell at (`row`, `column`) has one. */
  function Spot(u: Setup, row: int, column: int, color: bv32): (o: Overlay)
    ensures OverlaySized(o, u)
  {
    seq(u.rows, r => seq(u.columns + 1, c => if r == row && c == column then color else 0))
  }

  function Dark(u: Setup): (o: Overlay)
    ensures OverlaySized(o, u)
  {
    seq(u.rows, _ => seq(u.columns + 1, _ => 0 as bv32))
  }

  function Xor(a: bv32, b: bv32): bv32 {
    a ^ b
  }

  function Xored(o: Overlay, row: nat, column: nat, color: bv32): Overlay
    requires row < |o| && column < |o[row]|
  {
    o[row := o[row][column := Xor(o[row][column], color)]]
  }

  /** The differences after `width` cells have been drawn. */
  function Undercut(o: Overlay, row: nat, column: nat, width: nat): Overlay
    requires row < |o| && column + width <= |o[row]|
  {
    o[row := o[row][..column] + seq(width, _ => 0 as bv32) + o[row][column + width..]]
  }

  /** The differences after the lines have moved up by one; the extra column does not move. */
  function Shifted(o: Overlay, u: Setup): (o': Overlay)
    requires OverlaySized(o, u)
    ensures OverlaySized(o', u)
  {
    seq(u.rows, r requires 0 <= r < u.rows =>
      (if r + 1 < u.rows then o[r + 1][..u.columns] else seq(u.columns, _ => 0 as bv32)) + o[r][u.columns..])
  }

  /** Two overlays are equal when all their cells are. */
  lemma SameOverlay(o: Overlay, o': Overlay, u: Setup)
    requires OverlaySized(o, u) && OverlaySized(o', u)
    requires forall r, c :: 0 <= r < u.rows && 0 <= c <= u.columns ==> o[r][c] == o'[r][c]
    ensures o == o'
  {
    forall r | 0 <= r < u.rows
      ensures o[r] == o'[r]
    {
    }
  }

  lemma XorLaws(color: bv32)
    ensures Xor(0, color) == color && Xor(color, color) == 0
  {
  }

  /** Drawing the cursor twice is drawing it not at all. */
  lemma XorTwice(u: Setup, row: nat, column: nat, color: bv32)
    requires row < u.rows && column <= u.columns
    ensures Xored(Dark(u), row, column, color) == Spot(u, row, column, color)
    ensures Xored(Spot(u, row, column, color), row, column, color) == Dark(u)
  {
    hide Xor;
    XorLaws(color);
    SameOverlay(Xored(Dark(u), row, column, color), Spot(u, row, column, color), u);
    SameOverlay(Xored(Spot(u, row, column, color), row, column, color), Dark(u), u);
  }

  lemma UndercutSpot(u: Setup, row: nat, column: nat, color: bv32, width: nat)
    requires row < u.rows && column + width <= u.columns
    ensures Undercut(Dark(u), row, column, width) == Dark(u)
    ensures 0 < width ==> Undercut(Spot(u, row, column, color), row, column, width) == Dark(u)
  {
    SameOverlay(Undercut(Dark(u), row, column, width), Dark(u), u);
    if 0 < width {
      SameOverlay(Undercut(Spot(u, row, column, color), row, column, width), Dark(u), u);
    }
  }

  lemma ShiftedDark(u: Setup)
    ensures Shifted(Dark(u), u) == Dark(u)
  {
    SameOverlay(Shifted(Dark(u), u), Dark(u), u);
  }

  // ----- strings that nested calls print -----

  /** How deep the nested calls of a string can go. */
  function Rank(s: seq<Char>): nat {
    if s == CRLF then 0 else if s == SPACE_STRING then 1 else 2
  }

  /** The next thing printed covers the cell under the cursor. */
  predicate Covers(s: seq<Char>, wide: bool, column: int, columns: nat) {
    && 0 <= column < columns
    && s != []
    && ((Printable(s[0]) && (wide ==> column + 1 < columns)) || (s == SPACE_STRING))
  }

  class Console {
    const modeData: seq<ModeData>
    var mode: int
    var cursorColumn: int
    var cursorRow: int
    var attribute: nat
    var cursorVisible: bool
    var cells: seq<seq<Glyph>>
    var overlay: Overlay
    ghost var scrolls: nat

    /** The state before a mode is set. */
    constructor (modeData: seq<ModeData>)
      requires forall m :: m in modeData ==> GoodMode(m)
      ensures this.modeData == modeData && mode == -1 && Valid()
      ensures attribute == 7 && cursorVisible
    {
      this.modeData := modeData;
      mode := -1;
      cursorColumn, cursorRow := 0, 0;
      attribute := 7;
      cursorVisible := true;
      cells, overlay, scrolls := [], [], 0;
    }

    ghost function U(): Setup
      reads this
    {
      if 0 <= mode < |modeData| then
        Setup(modeData[mode].columns, modeData[mode].rows, attribute % WIDE_ATTRIBUTE)
      else Setup(0, 0, 0)
    }

    /** The console as a terminal. */
    ghost function T(): Screen
      requires 0 <= cursorColumn && 0 <= cursorRow
      reads this
    {
      Screen(cells, cursorColumn, cursorRow, attribute >= WIDE_ATTRIBUTE, scrolls)
    }

    /** A mode is set, and the cursor is on the screen or just behind the end of a line. */
    ghost predicate On()
      reads this
    {
      && (forall m :: m in modeData ==> GoodMode(m))
      && 0 <= mode < |modeData| && Usable(U())
      && Sized(cells, U()) && OverlaySized(overlay, U())
      && 0 <= cursorColumn <= U().columns && 0 <= cursorRow < U().rows
      && attribute < 0x100
    }

    /** The cursor shows, in the foreground color, and nothing else is changed. */
    ghost predicate CursorShown()
      requires On()
      reads this
    {
      overlay == if cursorVisible && (cursorColumn < U().columns || modeData[mode].margin)
                 then Spot(U(), cursorRow, cursorColumn, Foreground(attribute)) else Dark(U())
    }

    ghost predicate CursorHidden()
      reads this
    {
      overlay == Dark(U())
    }

    /** Between calls: the cursor is on the screen, or no mode is set yet. */
    ghost predicate Standing()
      reads this
    {
      && (forall m :: m in modeData ==> GoodMode(m))
      && attribute < WIDE_ATTRIBUTE
      && (mode != -1 ==> On() && cursorColumn < U().columns)
    }

    /** And it shows. */
    ghost predicate Valid()
      reads this
    {
      Standing() && (mode != -1 ==> CursorShown())
    }

    /** The cursor should show, but has been erased. */
    ghost predicate Stale()
      reads this
    {
      Standing() && mode != -1 && cursorVisible && Foreground(attribute) != 0 && CursorHidden()
    }

    lemma StaleMeaning()
      ensures Stale() ==> !Valid() && On()
      ensures Stale() <==> Standing() && mode != -1 && CursorHidden() && !CursorShown()
    {
      if Standing() && mode != -1 {
        ShownOrNot(U(), cursorRow, cursorColumn, Foreground(attribute));
      }
    }

    /** XORs the cursor over its cell. */
    method FlushCursor()
      requires On()
      modifies this`overlay
      ensures On()
      ensures old(CursorShown()) ==> CursorHidden()
      ensures old(CursorHidden()) ==> CursorShown()
      ensures overlay == if cursorVisible && (cursorColumn < U().columns || modeData[mode].margin)
                         then Xored(old(overlay), cursorRow, cursorColumn, Foreground(attribute))
                         else old(overlay)
    {
      if !cursorVisible {
        return;
      }
      XorTwice(U(), cursorRow, cursorColumn, Foreground(attribute));
      if cursorColumn < modeData[mode].columns || modeData[mode].margin {
        overlay := Xored(overlay, cursorRow, cursorColumn, Foreground(attribute));
      }
    }

    /** The font call: draws `cs` in consecutive cells from the cursor on. */
    method DrawUnicodeWeightAtCursorN(cs: seq<Char>)
      requires On() && cursorColumn + Width(|cs|, attribute >= WIDE_ATTRIBUTE) <= U().columns
      modifies this`cells, this`overlay
      ensures On()
      ensures cells == Drawn(old(T()), U(), cs).cells
      ensures overlay == Undercut(old(overlay), cursorRow, cursorColumn, Width(|cs|, T().wide))
    {
      var wide := attribute >= WIDE_ATTRIBUTE;
      cells := Over(cells, cursorRow, cursorColumn, GlyphRun(cs, wide, attribute % WIDE_ATTRIBUTE));
      overlay := Undercut(overlay, cursorRow, cursorColumn, Width(|cs|, wide));
    }

    /** Moves the lines up by one and clears the last one. */
    method ScrollUp()
      requires On()
      modifies this`cells, this`overlay, this`scrolls
      ensures On() && cells == Scrolled(old(cells), U()) && scrolls == old(scrolls) + 1
      ensures old(CursorHidden()) ==> CursorHidden()
    {
      ShiftedDark(U());
      var u := Setup(modeData[mode].columns, modeData[mode].rows, attribute % WIDE_ATTRIBUTE);
      cells := Scrolled(cells, u);
      overlay := Shifted(overlay, u);
      scrolls := scrolls + 1;
    }

    /** How many of the characters in `s` from `i` on go in one run, and how far the run takes the
        cursor: one column too far when a wide character is left over for which there is no room. */
    method MeasureRun(s: seq<Char>, i: nat) returns (count: nat, index: nat)
      requires On() && i < |s| && Printable(s[i]) && cursorColumn < U().columns
      ensures i + count <= |s| && forall c :: c in s[i..i + count] ==> Printable(c)
      ensures cursorColumn + Width(count, T().wide) <= U().columns
      ensures var over := index - Width(count, T().wide);
              && (over == 0 || over == 2)
              && (over == 0 ==> 0 < count)
              && (over == 2 ==> T().wide && i + count < |s| && Printable(s[i + count])
                                && cursorColumn + Width(count, T().wide) == U().columns - 1)
    {
      var maxColumn := modeData[mode].columns;
      var wide := attribute >= WIDE_ATTRIBUTE;
      count, index := 0, 0;
      while cursorColumn + index < maxColumn
        invariant i + count <= |s| && forall c :: c in s[i..i + count] ==> Printable(c)
        invariant index == Width(count, wide) && cursorColumn + index <= maxColumn
        decreases maxColumn - index
      {
        if i + count == |s| || !Printable(s[i + count]) {
          break;
        }
        if wide {
          index := index + 1;
          if cursorColumn + index + 1 > maxColumn {
            index := index + 1;
            break;
          }
        }
        assert s[i..i + count + 1] == s[i..i + count] + [s[i + count]];
        count, index := count + 1, index + 1;
      }
    }

    // ----- printing -----

    /** What the overlay is between two steps of OutputString: no cursor, or one that the next thing
        printed covers. */
    ghost predicate Covered(rest: seq<Char>)
      requires On()
      reads this
    {
      CursorHidden() || (CursorShown() && Covers(rest, T().wide, cursorColumn, U().columns))
    }

    /** Prints one run of the string, and what follows from it at the end of the line. */
    method PrintRun(s: seq<Char>, i: nat) returns (next: nat)
      requires On() && cursorColumn < U().columns && i < |s| && Printable(s[i])
      requires 0 < Rank(s) && (s == SPACE_STRING ==> !T().wide && i == 1)
      modifies this`cells, this`overlay, this`cursorColumn, this`cursorRow, this`attribute, this`scrolls
      ensures On() && cursorColumn < U().columns && attribute == old(attribute)
      ensures i <= next <= |s| && (old(Covered(s[i..])) ==> Covered(s[next..]))
      ensures next == i ==> T().wide && old(cursorColumn) == U().columns - 1 && cursorColumn == 0
      ensures Run(T(), U(), s[next..]) == Run(old(T()), U(), s[i..])
      decreases Rank(s), 0
    {
      hide Run, Drawn, NewLine, Print, Spill, Undercut, Spot, Dark, Foreground, Sized, OverlaySized, Covers;
      ghost var t, u := T(), U();
      var count, index := DrawRun(s, i);
      next := i + count;
      cursorColumn := cursorColumn + index;
      var maxColumn := modeData[mode].columns;
      if cursorColumn > maxColumn {
        cursorColumn := cursorColumn - 2;
        SpaceSpills(T(), u, s[next..]);
        NextCovers(s, next, u.columns);
        StringCovers(SPACE_STRING, true, cursorColumn, u.columns);
        OutputString(SPACE_STRING);
      }
      if cursorColumn >= maxColumn {
        FlushCursor();
        OutputString(CRLF);
        FlushCursor();
      }
    }

    /** Draws the characters that go in one run. */
    method DrawRun(s: seq<Char>, i: nat) returns (count: nat, index: nat)
      requires On() && cursorColumn < U().columns && i < |s| && Printable(s[i])
      modifies this`cells, this`overlay
      ensures On() && i + count <= |s| && (old(Covered(s[i..])) ==> CursorHidden())
      ensures var over := index - Width(count, T().wide);
              var after := T().(column := cursorColumn + Width(count, T().wide));
              && (over == 0 || over == 2) && after.column <= U().columns
              && (over == 0 ==> 0 < count)
              && (over == 2 ==> T().wide && i + count < |s| && Printable(s[i + count])
                                && after.column == U().columns - 1)
              && Run(old(T()), U(), s[i..]) ==
                 Run(if after.column == U().columns then NewLine(after, U()) else after,
                     U(), s[i + count..])
    {
      hide Run, Drawn, NewLine, Undercut, Spot, Dark, Foreground;
      ghost var t, u := T(), U();
      count, index := MeasureRun(s, i);
      UndercutSpot(u, cursorRow, cursorColumn, Foreground(attribute), Width(count, t.wide));
      RunPrefix(t, u, s, i, count);
      DrawUnicodeWeightAtCursorN(s[i..i + count]);
    }

    /** Prints a space, and leaves no cursor where none was. */
    method PrintSpace()
      requires On() && cursorColumn < U().columns
      modifies this`cells, this`overlay, this`cursorColumn, this`cursorRow, this`attribute, this`scrolls
      ensures On() && cursorColumn < U().columns && attribute == old(attribute)
      ensures T() == Print(old(T()), U(), SPACE_STRING)
      ensures old(CursorHidden()) ==> CursorHidden()
      decreases 1, 4
    {
      hide Print, Spot, Dark, Foreground, Sized, OverlaySized, Xored, Covers;
      StringCovers(SPACE_STRING, T().wide, cursorColumn, modeData[mode].columns);
      OutputString(SPACE_STRING);
      FlushCursor();
    }

    /** Moves the cursor back by one cell and blanks that cell. */
    method Backspace()
      requires On() && cursorColumn < U().columns
      modifies this`cells, this`overlay, this`cursorColumn, this`cursorRow, this`attribute, this`scrolls
      ensures On() && cursorColumn < U().columns && attribute == old(attribute)
      ensures old(CursorHidden()) ==> CursorHidden()
      ensures T() == Erase(old(T()), U())
      decreases 2, 0
    {
      hide Print, Spot, Dark, Foreground, Over, Sized, OverlaySized, Erase, Xored;
      if cursorColumn == 0 && cursorRow > 0 {
        SpaceErases(T(), U());
        cursorRow := cursorRow - 1;
        cursorColumn := modeData[mode].columns - 1;
        PrintSpace();
        cursorRow := cursorRow - 1;
        cursorColumn := modeData[mode].columns - 1;
      } else if cursorColumn > 0 {
        SpaceErases(T(), U());
        cursorColumn := cursorColumn - 1;
        PrintSpace();
        cursorColumn := cursorColumn - 1;
      } else {
        HomeErased(T(), U());
      }
    }

    /** A control character other than a backspace. */
    method Control(c: Char)
      requires On() && !Printable(c) && c != BACKSPACE
      requires cursorColumn < U().columns || c == CARRIAGE_RETURN
      modifies this`cells, this`overlay, this`cursorColumn, this`cursorRow, this`attribute, this`scrolls
      ensures On() && cursorColumn < U().columns
      ensures attribute % WIDE_ATTRIBUTE == old(attribute) % WIDE_ATTRIBUTE && U() == old(U())
      ensures old(cursorColumn) < U().columns ==> T() == Step(old(T()), U(), c)
      ensures c == CARRIAGE_RETURN ==> T() == old(T()).(column := 0)
      ensures c == NARROW_CHAR ==> !T().wide
      ensures old(CursorHidden()) ==> CursorHidden()
      ensures c == NARROW_CHAR ==> cursorColumn == old(cursorColumn) && (old(CursorShown()) ==> CursorShown())
    {
      hide Spot, Dark, Scrolled, Foreground, OverlaySized, Sized, Erase;
      ForegroundKept(attribute);
      if c == LINEFEED {
        if cursorRow == modeData[mode].rows - 1 {
          ScrollUp();
        } else {
          cursorRow := cursorRow + 1;
        }
      } else if c == CARRIAGE_RETURN {
        cursorColumn := 0;
      } else if c == WIDE_CHAR {
        attribute := if attribute < WIDE_ATTRIBUTE then attribute + WIDE_ATTRIBUTE else attribute;
      } else {
        attribute := if attribute < WIDE_ATTRIBUTE then attribute else attribute - WIDE_ATTRIBUTE;
      }
    }

    /** Prints the next run of the string, or obeys its next control character.  A cursor behind the last
        cell of a line only stands at the beginning of a line end. */
    method PrintNext(s: seq<Char>, i: nat) returns (next: nat)
      requires On() && i < |s| && (cursorColumn < U().columns || (s == CRLF && i == 0))
      requires s == SPACE_STRING ==> i == 0 || !T().wide
      modifies this`cells, this`overlay, this`cursorColumn, this`cursorRow, this`attribute, this`scrolls
      ensures On() && cursorColumn < U().columns && U() == old(U())
      ensures attribute % WIDE_ATTRIBUTE == old(attribute) % WIDE_ATTRIBUTE
      ensures i <= next <= |s| && (s == SPACE_STRING ==> !T().wide && 0 < next)
      ensures old(Covered(s[i..])) ==> Covered(s[next..])
      ensures next == i ==> old(T()).wide && T().wide && old(cursorColumn) == U().columns - 1 && cursorColumn == 0
      ensures Run(T(), U(), s[next..])
           == Run(if old(cursorColumn) < U().columns then old(T()) else old(T()).(column := 0), U(), s[i..])
      decreases Rank(s), 1
    {
      hide Run, Step, NewLine, Erase, Covers, Spot, Dark, Foreground, Sized, OverlaySized, Xored;
      var maxColumn := modeData[mode].columns;
      RunHead(if cursorColumn < maxColumn then T() else T().(column := 0), U(), s, i);
      if Printable(s[i]) {
        next := PrintRun(s, i);
      } else {
        ControlCovers(s, i, T().wide, cursorColumn, maxColumn);
        StepKeys(T(), U());
        if s[i] == BACKSPACE {
          Backspace();
        } else {
          Control(s[i]);
        }
        next := i + 1;
      }
    }

    /** Prints all of a string, run by run. */
    method PrintRounds(s: seq<Char>)
      requires On() && (cursorColumn < U().columns || s == CRLF)
      modifies this`cells, this`overlay, this`cursorColumn, this`cursorRow, this`attribute, this`scrolls
      ensures On() && cursorColumn < U().columns && U() == old(U())
      ensures attribute % WIDE_ATTRIBUTE == old(attribute) % WIDE_ATTRIBUTE
      ensures T() == Run(if old(cursorColumn) < U().columns then old(T()) else old(T()).(column := 0), U(), s)
      ensures old(Covered(s)) ==> CursorHidden()
      decreases Rank(s), 2
    {
      hide Run, Step, Covers, Spot, Dark, Foreground, Sized, OverlaySized, Xored;
      ghost var u, first := U(), if cursorColumn < U().columns then T() else T().(column := 0);
      ghost var exact := Covered(s);
      var i := 0;
      assert s[0..] == s;
      while i < |s|
        invariant On() && i <= |s| && attribute % WIDE_ATTRIBUTE == old(attribute) % WIDE_ATTRIBUTE
        invariant U() == u && (cursorColumn < u.columns || (s == CRLF && i == 0))
        invariant Run(if cursorColumn < u.columns then T() else T().(column := 0), u, s[i..]) == Run(first, u, s)
        invariant exact ==> Covered(s[i..])
        invariant s == SPACE_STRING ==> i == 0 || !T().wide
        decreases |s| - i, if T().wide && cursorColumn == u.columns - 1 then 1 else 0
      {
        i := PrintNext(s, i);
      }
      StringEnds(T(), u, s, T().wide, cursorColumn);
    }

    /** Prints a string.  If the cursor shows at first, or the string begins by printing over its cell, it
        shows in the end.  For its own use it is called with a space, and with a line end behind the last
        cell of a line. */
    method OutputString(s: seq<Char>)
      requires On() && (cursorColumn < U().columns || s == CRLF)
      modifies this`cells, this`overlay, this`cursorColumn, this`cursorRow, this`attribute, this`scrolls
      ensures On() && cursorColumn < U().columns && attribute == old(attribute)
      ensures old(CursorShown() || (CursorHidden() && Covers(s, T().wide, cursorColumn, U().columns))) ==>
                CursorShown()
      ensures old(cursorColumn) < U().columns ==> T() == Print(old(T()), U(), s)
      ensures s == CRLF ==> T() == NewLine(old(T()), U())
      decreases Rank(s), 3
    {
      hide Run, Step, NewLine, Erase, Covers, Spot, Dark, Foreground, Sized, OverlaySized, Xored;
      ghost var t, u := T(), U();
      FlushCursor();
      var originAttribute := attribute;
      if s == CRLF {
        LineEnd(t, u);
      }
      PrintRounds(s);
      attribute := originAttribute;
      FlushCursor();
    }

    // ----- the protocol -----

    /** Prints a string; `ok` is false when no mode is set.  The text does not depend on the overlay; an
        erased cursor is drawn again if the string begins by printing over its cell. */
    method Write(s: seq<Char>) returns (ok: bool)
      requires Standing()
      modifies this`cells, this`overlay, this`cursorColumn, this`cursorRow, this`attribute, this`scrolls
      ensures Standing() && ok == (mode != -1) && attribute == old(attribute)
      ensures old(Valid() || (Stale() && Covers(s, false, cursorColumn, U().columns))) ==> Valid()
      ensures ok ==> T() == Print(old(T()), U(), s)
      ensures !ok ==> cells == old(cells) && overlay == old(overlay)
    {
      ok := mode != -1;
      if ok {
        OutputString(s);
      }
    }

    /** Sets the colors; only the low seven bits can be used.  An erased cursor is left in a mixture of the
        old and the new color.  Before a mode is set only the colors are kept. */
    method SetAttribute(value: nat) returns (ok: bool)
      requires Valid() || Stale()
      modifies this`attribute, this`overlay
      ensures ok == (value < WIDE_ATTRIBUTE)
      ensures attribute == if ok then value else old(attribute)
      ensures attribute == old(attribute) || mode == -1 ==> overlay == old(overlay)
      ensures old(Valid()) ==> Valid()
      ensures old(Stale()) && attribute != old(attribute) ==>
                !Valid() && overlay == Spot(U(), cursorRow, cursorColumn,
                                            Xor(Foreground(old(attribute)), Foreground(attribute)))
    {
      hide Spot, Dark, Foreground, Xored, Xor;
      ok := value < WIDE_ATTRIBUTE;
      if ok && value != attribute && mode == -1 {
        attribute := value;
      } else if ok && value != attribute {
        StaleMeaning();
        DarkWhatever(U(), value);
        Mixed(U(), cursorRow, cursorColumn, Foreground(attribute), Foreground(value));
        FlushCursor();
        attribute := value;
        FlushCursor();
      }
    }

    /** Clears the screen to the background color and puts the cursor in the upper left corner, where it
        shows whatever the overlay was before. */
    method ClearScreen() returns (ok: bool)
      requires Standing()
      modifies this`cells, this`overlay, this`cursorColumn, this`cursorRow
      ensures Standing() && ok == (mode != -1) && (ok || old(Valid()) ==> Valid())
      ensures ok ==> cells == ClearedScreen(U()) && cursorColumn == cursorRow == 0
      ensures !ok ==> cells == old(cells) && overlay == old(overlay)
    {
      hide Spot, Dark, Foreground, ClearedScreen, Xored;
      ok := mode != -1;
      if ok {
        var u := Setup(modeData[mode].columns, modeData[mode].rows, attribute % WIDE_ATTRIBUTE);
        cells := ClearedScreen(u);
        overlay := Dark(u);
        cursorColumn, cursorRow := 0, 0;
        FlushCursor();
      }
    }

    /** Moves the cursor; an erased one is left behind where it was. */
    method SetCursorPosition(column: nat, row: nat) returns (ok: bool)
      requires Valid() || Stale()
      modifies this`overlay, this`cursorColumn, this`cursorRow
      ensures Standing() && ok == (mode != -1 && column < U().columns && row < U().rows)
      ensures cursorColumn == (if ok then column else old(cursorColumn))
      ensures cursorRow == (if ok then row else old(cursorRow))
      ensures cursorColumn == old(cursorColumn) && cursorRow == old(cursorRow) ==> overlay == old(overlay)
      ensures old(Valid()) ==> Valid()
      ensures old(Stale()) && !(cursorColumn == old(cursorColumn) && cursorRow == old(cursorRow)) ==>
                && !Valid()
                && overlay[old(cursorRow)][old(cursorColumn)] == Foreground(attribute)
                && overlay[cursorRow][cursorColumn] == Foreground(attribute)
    {
      hide Spot, Dark, Foreground, Sized, OverlaySized, Xored;
      ok := mode != -1 && column < modeData[mode].columns && row < modeData[mode].rows;
      if ok && !(cursorColumn == column && cursorRow == row) {
        StaleMeaning();
        TwoSpots(U(), cursorRow, cursorColumn, row, column, Foreground(attribute));
        FlushCursor();
        cursorColumn, cursorRow := column, row;
        FlushCursor();
      }
    }

    /** Shows or hides the cursor; hiding an erased one leaves it on the screen. */
    method EnableCursor(visible: bool) returns (ok: bool)
      requires Valid() || Stale()
      modifies this`overlay, this`cursorVisible
      ensures ok == (mode != -1)
      ensures cursorVisible == if ok then visible else old(cursorVisible)
      ensures old(Valid()) ==> Valid()
      ensures old(Stale()) ==>
                if visible then Stale()
                else !Valid() && overlay == Spot(U(), cursorRow, cursorColumn, Foreground(attribute))
    {
      hide Spot, Dark, Foreground, Sized, OverlaySized, Xored;
      ok := mode != -1;
      if ok {
        StaleMeaning();
        ShownOrNot(U(), cursorRow, cursorColumn, Foreground(attribute));
        FlushCursor();
        cursorVisible := visible;
        FlushCursor();
      }
    }

    /** The mode number is in range and the screen supports the mode. */
    ghost predicate Selectable(m: nat) {
      m < |modeData| && (modeData[m].columns != 0 || modeData[m].rows != 0)
    }

    /** Sets a text mode.  `accepted` is whether the graphics device, when it is asked for another
        resolution, accepts it: if it does not, a cursor that showed has been erased, and one that had been
        erased shows. */
    method SetMode(m: nat, accepted: bool) returns (ok: bool)
      requires Valid() || Stale()
      modifies this`mode, this`cells, this`overlay, this`cursorColumn, this`cursorRow
      ensures ok == (Selectable(m) && (m == old(mode) || accepted))
      ensures ok ==> Valid() && mode == m && cursorColumn == cursorRow == 0
      ensures ok ==> cells == ClearedScreen(if m == old(mode) then U()
                                            else Setup(modeData[m].columns, modeData[m].rows, 0))
      ensures !ok ==> mode == old(mode) && cells == old(cells)
      ensures !Selectable(m) ==> overlay == old(overlay)
      ensures old(Valid()) ==>
                (Valid() <==> !Selectable(m) || m == old(mode) || accepted
                              || old(mode) == -1 || !cursorVisible || Foreground(attribute) == 0)
      ensures old(Valid()) && !Valid() ==> Stale()
      ensures old(Stale()) && Selectable(m) ==> Valid()
    {
      hide ClearedScreen, Spot, Dark, Foreground, Sized, Xored;
      if m >= |modeData| || (modeData[m].columns == 0 && modeData[m].rows == 0) {
        return false;
      }
      if mode == m {
        ok := ClearScreen();
        return;
      }
      StaleMeaning();
      if mode != -1 {
        FlushCursor();
      }
      if !accepted {
        StaleMeaning();
        return false;
      }
      EnterMode(m);
      ok := true;
    }

    /** Takes up a mode: the whole screen is black and the cursor stands in its upper left corner. */
    method EnterMode(m: nat)
      requires (forall n :: n in modeData ==> GoodMode(n)) && attribute < WIDE_ATTRIBUTE && Selectable(m)
      modifies this`mode, this`cells, this`overlay, this`cursorColumn, this`cursorRow
      ensures Valid() && mode == m && cursorColumn == cursorRow == 0
      ensures cells == ClearedScreen(Setup(modeData[m].columns, modeData[m].rows, 0))
    {
      hide Spot, Foreground, Xored, ClearedLine;
      assert GoodMode(modeData[m]);
      mode := m;
      var u := Setup(modeData[m].columns, modeData[m].rows, 0);
      cells := ClearedScreen(u);
      overlay := Dark(u);
      cursorColumn, cursorRow := 0, 0;
      FlushCursor();
    }
  }

  /** A console whose cursor is erased: it has two modes, is put in the first one, and the graphics device
      refuses the resolution of the other one. */
  method RefusalErasesCursor() returns (c: Console)
    ensures fresh(c) && c.Stale() && !c.Valid() && c.mode == 0
  {
    hide Spot, Dark, ClearedScreen, Xored;
    var modes := [ModeData(80, 25, false), ModeData(100, 31, false)];
    assert modes[0].columns == 80 && modes[1].columns == 100;
    c := new Console(modes);
    var ok := c.SetMode(0, true);
    assert c.attribute == 7 && Foreground(7) != 0;
    ok := c.SetMode(1, false);
  }

  /** The colors in use do not matter to the differences. */
  lemma DarkWhatever(u: Setup, value: nat)
    ensures Dark(u.(colors := value)) == Dark(u)
    ensures forall row, column, color :: Spot(u.(colors := value), row, column, color) == Spot(u, row, column, color)
  {
  }

  /** Drawing the cursor in one color over none, and again in another color. */
  lemma Mixed(u: Setup, row: nat, column: nat, before: bv32, after: bv32)
    requires row < u.rows && column <= u.columns
    ensures Xored(Xored(Dark(u), row, column, before), row, column, after)
         == Spot(u, row, column, Xor(before, after))
    ensures before != 0 ==> Spot(u, row, column, Xor(before, after)) != Spot(u, row, column, after)
  {
    XorTwice(u, row, column, before);
    var mixed := Xored(Spot(u, row, column, before), row, column, after);
    SameOverlay(mixed, Spot(u, row, column, Xor(before, after)), u);
    XorOther(before, after);
    assert Spot(u, row, column, Xor(before, after))[row][column] == Xor(before, after);
    assert Spot(u, row, column, after)[row][column] == after;
  }

  lemma XorAssociative(a: bv32, b: bv32, c: bv32)
    ensures Xor(Xor(a, b), c) == Xor(a, Xor(b, c)) && Xor(a, 0) == a
  {
  }

  lemma XorOther(a: bv32, b: bv32)
    ensures Xor(a, b) == b <==> a == 0
  {
    hide Xor;
    XorAssociative(a, b, b);
    XorLaws(b);
  }

  /** Drawing the cursor in two places. */
  lemma TwoSpots(u: Setup, row0: nat, column0: nat, row: nat, column: nat, color: bv32)
    requires row0 < u.rows && column0 <= u.columns && row < u.rows && column <= u.columns
    requires row0 != row || column0 != column
    ensures var both := Xored(Xored(Dark(u), row0, column0, color), row, column, color);
            && both[row0][column0] == color && both[row][column] == color
            && (color != 0 ==> both != Spot(u, row, column, color))
  {
    XorLaws(color);
    hide Xor;
    assert Spot(u, row, column, color)[row0][column0] == 0;
  }

  /** A cursor that shows can be told from none, unless it is black. */
  lemma ShownOrNot(u: Setup, row: nat, column: nat, color: bv32)
    requires row < u.rows && column <= u.columns
    ensures Spot(u, row, column, color) == Dark(u) <==> color == 0
  {
    assert Spot(u, row, column, color)[row][column] == color;
    if color == 0 {
      SameOverlay(Spot(u, row, column, color), Dark(u), u);
    }
  }

  /** A carriage return and a linefeed start a new line. */
  lemma LineEnd(t: Screen, u: Setup)
    requires Sized(t.cells, u) && t.row < u.rows && Usable(u)
    ensures Run(t.(column := 0), u, CRLF) == NewLine(t, u)
    ensures t.column < u.columns ==> Run(t, u, CRLF) == NewLine(t, u)
    ensures NewLine(t, u).wide == t.wide
  {
    var t0 := t.(column := 0);
    assert CRLF[1..] == [LINEFEED];
    assert Run(t0, u, CRLF) == Run(t0, u, [LINEFEED]) == Run(LineFeed(t0, u), u, []);
  }

  lemma StringEnds(t: Screen, u: Setup, s: seq<Char>, wide: bool, column: int)
    requires Fits(t, u) && Usable(u)
    ensures Run(t, u, s[|s|..]) == t && !Covers(s[|s|..], wide, column, u.columns)
  {
  }

  lemma SpacePrinted(t: Screen, u: Setup)
    requires Fits(t, u) && Usable(u)
    ensures Print(t, u, SPACE_STRING) == Put(t.(wide := false), u, SPACE).(wide := t.wide)
  {
    assert SPACE_STRING[1..] == [SPACE];
    var n := t.(wide := false);
    assert Run(n, u, [SPACE]) == Run(Put(n, u, SPACE), u, []);
  }

  /** Spilling now or when the next wide character is printed is the same. */
  lemma SpaceSpills(t: Screen, u: Setup, rest: seq<Char>)
    requires Fits(t, u) && Usable(u) && t.wide && t.column == u.columns - 1
    requires rest != [] && Printable(rest[0])
    ensures Print(t, u, SPACE_STRING) == Spill(t, u)
    ensures Run(Spill(t, u), u, rest) == Run(t, u, rest)
  {
    SpacePrinted(t, u);
  }

  /** Blanking a cell and stepping back. */
  lemma SpaceErases(t: Screen, u: Setup)
    requires Fits(t, u) && Usable(u) && (t.column > 0 || t.row > 0)
    ensures var before := if t.column > 0 then t.(column := t.column - 1)
                          else t.(row := t.row - 1, column := u.columns - 1);
            var printed := Print(before, u, SPACE_STRING);
            && Erase(t, u) == printed.(row := before.row, column := before.column)
            && (t.column > 0 ==> printed.column == t.column && printed.row == t.row)
            && (t.column == 0 ==> printed.column == 0 && printed.row == t.row)
  {
    var before := if t.column > 0 then t.(column := t.column - 1)
                  else t.(row := t.row - 1, column := u.columns - 1);
    SpacePrinted(before, u);
  }

  lemma HomeErased(t: Screen, u: Setup)
    requires Fits(t, u) && Usable(u) && t.column == 0 && t.row == 0
    ensures Erase(t, u) == t
  {
  }

  lemma StepKeys(t: Screen, u: Setup)
    requires Sized(t.cells, u) && t.row < u.rows && Usable(u)
    ensures Fits(t, u) ==> Step(t, u, BACKSPACE) == Erase(t, u)
    ensures Step(t.(column := 0), u, CARRIAGE_RETURN) == t.(column := 0)
  {
  }

  lemma RunHead(t: Screen, u: Setup, s: seq<Char>, i: nat)
    requires Fits(t, u) && Usable(u) && i < |s|
    ensures Run(t, u, s[i..]) == Run(Step(t, u, s[i]), u, s[i + 1..])
  {
    assert s[i..][1..] == s[i + 1..];
  }

  /** The first characters of what is left, drawn in one go. */
  lemma RunPrefix(t: Screen, u: Setup, s: seq<Char>, i: nat, count: nat)
    requires Fits(t, u) && Usable(u) && i + count <= |s|
    requires forall c :: c in s[i..i + count] ==> Printable(c)
    requires t.column + Width(count, t.wide) <= u.columns
    ensures var after := Drawn(t, u, s[i..i + count]);
            && after == t.(cells := after.cells, column := t.column + Width(count, t.wide))
            && Run(t, u, s[i..]) ==
               Run(if after.column == u.columns then NewLine(after, u) else after, u, s[i + count..])
  {
    var cs := s[i..i + count];
    assert s[i..] == cs + s[i + count..];
    RunConcat(t, u, cs, s[i + count..]);
    if 0 < count {
      RunIsDrawn(t, u, cs);
    } else {
      assert Drawn(t, u, cs).cells[t.row] == t.cells[t.row];
      assert Drawn(t, u, cs).cells == t.cells;
    }
  }

  /** What is left over from a full line covers the first cells of the next one. */
  lemma NextCovers(s: seq<Char>, i: nat, columns: nat)
    requires i < |s| && Printable(s[i]) && 2 <= columns
    ensures Covers(s[i..], true, 0, columns)
  {
  }

  lemma StringCovers(s: seq<Char>, wide: bool, column: int, columns: nat)
    ensures s[0..] == s
    ensures 0 <= column < columns && s == SPACE_STRING ==> Covers(s, wide, column, columns)
  {
  }

  /** The only control character over a cursor is the one a printed space starts with. */
  lemma ControlCovers(s: seq<Char>, i: nat, wide: bool, column: int, columns: nat)
    requires i < |s| && !Printable(s[i])
    ensures Covers(s[i..], wide, column, columns) ==>
              s[i] == NARROW_CHAR && Covers(s[i + 1..], false, column, columns)
  {
    if Covers(s[i..], wide, column, columns) {
      assert s[i..][0] == s[i] && s[i..][1] == s[i + 1] == SPACE;
    }
  }
}
