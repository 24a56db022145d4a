/** The terminal as a window on an unbounded page: characters are written on the page in place, and the screen
    shows the page's last lines. */
module TerminalPage {
  import opened Terminal

  /** A place on the page; rows are counted from the first line there ever was. */
  datatype Spot = Spot(row: nat, column: nat)

  /** What has been written, where the cursor is, and the first line that the screen shows. */
  datatype Page = Page(ink: map<Spot, Glyph>, at: Spot, top: nat, wide: bool)

  /** The cursor at a place; the screen follows it down. */
  function GoTo(p: Page, u: Setup, at: Spot): Page {
    p.(at := at, top := if at.row >= p.top + u.rows then at.row - u.rows + 1 else p.top)
  }

  /** The cursor `n` columns further, or at the beginning of the next line if this one is full. */
  function Forward(p: Page, u: Setup, n: nat): Page {
    if p.at.column + n < u.columns then GoTo(p, u, Spot(p.at.row, p.at.column + n))
    else GoTo(p, u, Spot(p.at.row + 1, 0))
  }

  function Write(p: Page, at: Spot, g: Glyph): Page {
    p.(ink := p.ink[at := g])
  }

  /** A wide character in the columns at the cursor. */
  function WriteWide(p: Page, u: Setup, c: Char): Page {
    var left := Write(p, p.at, WideLeft(c, u.colors));
    Forward(Write(left, Spot(p.at.row, p.at.column + 1), WideRight(c, u.colors)), u, 2)
  }

  function PageStep(p: Page, u: Setup, c: Char): Page {
    if c == 8 then
      if p.at.column > 0 then
        var back := Spot(p.at.row, p.at.column - 1);
        Write(p, back, Narrow(32, u.colors)).(at := back)
      else if p.at.row > p.top && u.columns > 0 then
        var back := Spot(p.at.row - 1, u.columns - 1);
        Write(p, back, Narrow(32, u.colors)).(at := back)
      else p
    else if c == 10 then GoTo(p, u, Spot(p.at.row + 1, p.at.column))
    else if c == 13 then p.(at := Spot(p.at.row, 0))
    else if c == 0xFFF1 then p.(wide := true)
    else if c == 0xFFF0 then p.(wide := false)
    else if !p.wide then Forward(Write(p, p.at, Narrow(c, u.colors)), u, 1)
    else if p.at.column + 2 <= u.columns then WriteWide(p, u, c)
    else WriteWide(Forward(Write(p, p.at, Narrow(32, u.colors)), u, 1), u, c)
  }

  function PageRun(p: Page, u: Setup, s: seq<Char>): Page {
    if s == [] then p else PageStep(PageRun(p, u, s[..|s| - 1]), u, s[|s| - 1])
  }

  /** The page under a screen on which nothing has been written yet. */
  function PageOf(t: Screen): Page {
    Page(map[], Spot(t.scrolls + t.row, t.column), t.scrolls, t.wide)
  }

  // ---------- the screen as a part of the page ----------

  /** What stands at a place: what has been written there, else what screen `first` showed, else nothing but
      the background color, which bits 4 to 6 of the colors give. */
  function PageCell(first: Screen, u: Setup, ink: map<Spot, Glyph>, at: Spot): Glyph
    requires Sized(first.cells, u) && first.scrolls <= at.row && at.column < u.columns
  {
    if at in ink then ink[at]
    else if at.row < first.scrolls + u.rows then first.cells[at.row - first.scrolls][at.column]
    else Cleared(u.colors / 16 % 8)
  }

  /** Row `r` of the screen is row `top + r` of the page, and nothing has been written below the screen. */
  ghost predicate Shows(first: Screen, u: Setup, cells: seq<seq<Glyph>>, ink: map<Spot, Glyph>, top: nat) {
    && Sized(first.cells, u) && Sized(cells, u) && first.scrolls <= top
    && (forall at :: at in ink ==> at.row < top + u.rows)
    && (forall r, c :: 0 <= r < u.rows && 0 <= c < u.columns ==>
          cells[r][c] == PageCell(first, u, ink, Spot(top + r, c)))
  }

  ghost predicate Depicts(first: Screen, u: Setup, t: Screen, p: Page) {
    && Fits(t, u) && Usable(u) && t.scrolls == p.top && t.wide == p.wide
    && p.at == Spot(t.scrolls + t.row, t.column)
    && Shows(first, u, t.cells, p.ink, p.top)
  }

  lemma ShowsWritten(first: Screen, u: Setup, cells: seq<seq<Glyph>>, ink: map<Spot, Glyph>, top: nat,
                     r: nat, c: nat, g: Glyph)
    requires Shows(first, u, cells, ink, top) && r < u.rows && c < u.columns
    ensures Shows(first, u, Over(cells, r, c, [g]), ink[Spot(top + r, c) := g], top)
  {
    var after := Over(cells, r, c, [g]);
    assert after[r] == cells[r][c := g];
    forall q, b | 0 <= q < u.rows && 0 <= b < u.columns
      ensures after[q][b] == PageCell(first, u, ink[Spot(top + r, c) := g], Spot(top + q, b))
    {
      assert cells[q][b] == PageCell(first, u, ink, Spot(top + q, b));
    }
  }

  lemma ShowsWrittenWide(first: Screen, u: Setup, cells: seq<seq<Glyph>>, ink: map<Spot, Glyph>, top: nat,
                         r: nat, c: nat, g: Glyph, h: Glyph)
    requires Shows(first, u, cells, ink, top) && r < u.rows && c + 2 <= u.columns
    ensures Shows(first, u, Over(cells, r, c, [g, h]),
                  ink[Spot(top + r, c) := g][Spot(top + r, c + 1) := h], top)
  {
    ShowsWritten(first, u, cells, ink, top, r, c, g);
    var half := Over(cells, r, c, [g]);
    ShowsWritten(first, u, half, ink[Spot(top + r, c) := g], top, r, c + 1, h);
    assert r < |cells| && |cells[r]| == u.columns;
    hide Shows;
    assert half[r] == cells[r][c := g];
    assert Over(half, r, c + 1, [h])[r] == cells[r][c := g][c + 1 := h];
    assert Over(cells, r, c, [g, h])[r] == cells[r][c := g][c + 1 := h];
    assert Over(half, r, c + 1, [h]) == Over(cells, r, c, [g, h]);
  }

  lemma ShowsScrolled(first: Screen, u: Setup, cells: seq<seq<Glyph>>, ink: map<Spot, Glyph>, top: nat)
    requires Shows(first, u, cells, ink, top) && Usable(u)
    ensures Shows(first, u, Scrolled(cells, u), ink, top + 1)
  {
    var after := Scrolled(cells, u);
    forall r, c | 0 <= r < u.rows && 0 <= c < u.columns
      ensures after[r][c] == PageCell(first, u, ink, Spot(top + 1 + r, c))
    {
      if r + 1 < u.rows {
        assert cells[r + 1][c] == PageCell(first, u, ink, Spot(top + (r + 1), c));
      } else {
        assert Spot(top + u.rows, c) !in ink;
        ClearedBackground(u.colors);
      }
    }
  }

  lemma ClearedBackground(colors: nat)
    ensures Background(colors) == colors / 16 % 8
  {
    var q, r := colors / 128, colors % 128;
    assert colors == 128 * q + r;
    assert colors / 16 == 8 * q + r / 16;
  }

  // ---------- the steps ----------

  /** Going to the next line, in a column of the screen. */
  lemma FedOnPage(first: Screen, u: Setup, t: Screen, ink: map<Spot, Glyph>, p: Page)
    requires Fits(t, u) && Usable(u) && Shows(first, u, t.cells, ink, t.scrolls)
    requires p.ink == ink && p.top == t.scrolls && p.wide == t.wide
    ensures Depicts(first, u, LineFeed(t, u), GoTo(p, u, Spot(t.scrolls + t.row + 1, t.column)))
  {
    if t.row == u.rows - 1 {
      ShowsScrolled(first, u, t.cells, ink, t.scrolls);
    }
    hide Shows, Scrolled;
  }

  /** The cursor after what has been written. */
  lemma ForwardOnPage(first: Screen, u: Setup, t: Screen, p: Page, n: nat)
    requires Sized(t.cells, u) && t.row < u.rows && Usable(u) && Shows(first, u, t.cells, p.ink, t.scrolls)
    requires p.top == t.scrolls && p.wide == t.wide && p.at.row == t.scrolls + t.row
    requires p.at.column + n == t.column <= u.columns
    ensures Depicts(first, u, if t.column == u.columns then NewLine(t, u) else t, Forward(p, u, n))
  {
    hide Shows;
    if t.column == u.columns {
      FedOnPage(first, u, t.(column := 0), p.ink, p);
    }
  }

  lemma PutOnPage(first: Screen, u: Setup, t: Screen, p: Page, c: Char)
    requires Depicts(first, u, t, p) && t.column + (if t.wide then 2 else 1) <= u.columns
    ensures Depicts(first, u, Put(t, u, c),
                    if t.wide then WriteWide(p, u, c)
                    else Forward(Write(p, p.at, Narrow(c, u.colors)), u, 1))
  {
    hide Shows, Over, NewLine, Forward;
    if t.wide {
      ShowsWrittenWide(first, u, t.cells, p.ink, p.top, t.row, t.column, WideLeft(c, u.colors), WideRight(c, u.colors));
      var cells := Over(t.cells, t.row, t.column, [WideLeft(c, u.colors), WideRight(c, u.colors)]);
      OverSized(t.cells, u, t.row, t.column, [WideLeft(c, u.colors), WideRight(c, u.colors)]);
      var q := Write(Write(p, p.at, WideLeft(c, u.colors)), Spot(p.at.row, p.at.column + 1), WideRight(c, u.colors));
      ForwardOnPage(first, u, t.(cells := cells, column := t.column + 2), q, 2);
    } else {
      ShowsWritten(first, u, t.cells, p.ink, p.top, t.row, t.column, Narrow(c, u.colors));
      OverSized(t.cells, u, t.row, t.column, [Narrow(c, u.colors)]);
      var cells := Over(t.cells, t.row, t.column, [Narrow(c, u.colors)]);
      ForwardOnPage(first, u, t.(cells := cells, column := t.column + 1), Write(p, p.at, Narrow(c, u.colors)), 1);
    }
  }

  lemma OverSized(cells: seq<seq<Glyph>>, u: Setup, r: nat, c: nat, gs: seq<Glyph>)
    requires Sized(cells, u) && r < u.rows && c + |gs| <= u.columns
    ensures Sized(Over(cells, r, c, gs), u)
  {
  }

  lemma ErasedOnPage(first: Screen, u: Setup, t: Screen, p: Page)
    requires Depicts(first, u, t, p)
    ensures Depicts(first, u, Erase(t, u), PageStep(p, u, 8))
  {
    hide Shows, Over;
    if t.column > 0 {
      ShowsWritten(first, u, t.cells, p.ink, p.top, t.row, t.column - 1, Narrow(32, u.colors));
      OverSized(t.cells, u, t.row, t.column - 1, [Narrow(32, u.colors)]);
    } else if t.row > 0 {
      ShowsWritten(first, u, t.cells, p.ink, p.top, t.row - 1, u.columns - 1, Narrow(32, u.colors));
      OverSized(t.cells, u, t.row - 1, u.columns - 1, [Narrow(32, u.colors)]);
    }
  }

  lemma SpilledOnPage(first: Screen, u: Setup, t: Screen, p: Page, c: Char)
    requires Depicts(first, u, t, p) && t.wide && t.column == u.columns - 1
    ensures Depicts(first, u, Put(Spill(t, u), u, c),
                    WriteWide(Forward(Write(p, p.at, Narrow(32, u.colors)), u, 1), u, c))
  {
    hide Shows, Put, WriteWide;
    var n, q := t.(wide := false), Forward(Write(p, p.at, Narrow(32, u.colors)), u, 1);
    PutOnPage(first, u, n, p.(wide := false), SPACE);
    assert Forward(Write(p.(wide := false), p.at, Narrow(32, u.colors)), u, 1) == q.(wide := false);
    PutOnPage(first, u, Spill(t, u), q, c);
  }

  lemma StepOnPage(first: Screen, u: Setup, t: Screen, p: Page, c: Char)
    requires Depicts(first, u, t, p)
    ensures Depicts(first, u, Step(t, u, c), PageStep(p, u, c))
  {
    hide Shows, Put, Spill, Erase, WriteWide, Forward;
    if c == 8 {
      ErasedOnPage(first, u, t, p);
    } else if c == 10 {
      FedOnPage(first, u, t, p.ink, p);
    } else if c != 13 && c != 0xFFF1 && c != 0xFFF0 {
      if t.wide && t.column == u.columns - 1 {
        SpilledOnPage(first, u, t, p, c);
      } else {
        PutOnPage(first, u, t, p, c);
      }
    }
  }

  /** Whatever is printed, wide characters, backspaces and scrolling included, the screen shows the last lines
      of the page. */
  lemma {:induction false} RunOnPage(t: Screen, u: Setup, s: seq<Char>)
    requires Fits(t, u) && Usable(u)
    ensures Depicts(t, u, Run(t, u, s), PageRun(PageOf(t), u, s))
  {
    hide Depicts, Step, PageStep, Run, Fits, Usable;
    if s == [] {
      assert Run(t, u, s) == t by { RunNone(t, u); }
      DepictsItself(t, u);
    } else {
      var before, c := s[..|s| - 1], s[|s| - 1];
      RunOnPage(t, u, before);
      RunLast(t, u, s);
      StepOnPage(t, u, Run(t, u, before), PageRun(PageOf(t), u, before), c);
    }
  }

  lemma RunNone(t: Screen, u: Setup)
    requires Fits(t, u) && Usable(u)
    ensures Run(t, u, []) == t
  {
  }

  lemma RunLast(t: Screen, u: Setup, s: seq<Char>)
    requires Fits(t, u) && Usable(u) && s != []
    ensures Run(t, u, s) == Step(Run(t, u, s[..|s| - 1]), u, s[|s| - 1])
  {
    hide Run, Step, Fits, Usable;
    var before, c := s[..|s| - 1], s[|s| - 1];
    RunConcat(t, u, before, [c]);
    RunOne(Run(t, u, before), u, c);
    assert s == before + [c];
  }

  // ---------- plain text ----------

  /** The number of a place in reading order. */
  function Number(at: Spot, columns: nat): nat {
    at.row * columns + at.column
  }

  predicate Plain(s: seq<Char>) {
    forall c :: c in s ==> c != 8 && c != 10 && c != 13 && c != 0xFFF0 && c != 0xFFF1
  }

  lemma NextNumber(at: Spot, columns: nat)
    requires at.column < columns
    ensures Number(Spot(at.row + 1, 0), columns) == Number(Spot(at.row, columns - 1), columns) + 1
  {
    assert (at.row + 1) * columns == at.row * columns + columns;
  }

  lemma SameNumber(a: Spot, b: Spot, columns: nat)
    requires a.column < columns && b.column < columns
    ensures Number(a, columns) == Number(b, columns) <==> a == b
  {
    if a.row < b.row {
      RowsApart(a, b, columns);
    } else if b.row < a.row {
      RowsApart(b, a, columns);
    }
  }

  lemma RowsApart(a: Spot, b: Spot, columns: nat)
    requires a.column < columns && b.column < columns && a.row < b.row
    ensures Number(a, columns) < Number(b, columns)
  {
    var d := b.row - a.row - 1;
    assert b.row * columns == a.row * columns + columns + d * columns;
  }

  lemma PlainStep(p: Page, u: Setup, c: Char)
    requires p.at.column < u.columns && !p.wide && Plain([c])
    ensures var q := PageStep(p, u, c);
            && q.ink == p.ink[p.at := Narrow(c, u.colors)] && !q.wide && q.at.column < u.columns
            && Number(q.at, u.columns) == Number(p.at, u.columns) + 1
            && p.top <= q.top && (q.top == p.top || q.at.row == q.top + u.rows - 1)
            && p.at.row <= q.at.row
  {
    assert c in [c];
    NextNumber(p.at, u.columns);
  }

  /** Narrow text without control characters fills the places from the cursor on in reading order, and writes
      nowhere else. */
  lemma {:induction false} TextOnPage(p: Page, u: Setup, s: seq<Char>)
    requires p.at.column < u.columns && !p.wide && Plain(s)
    ensures var q := PageRun(p, u, s);
            && !q.wide && q.at.column < u.columns
            && Number(q.at, u.columns) == Number(p.at, u.columns) + |s|
            && p.top <= q.top && (q.top == p.top || q.at.row == q.top + u.rows - 1)
            && p.at.row <= q.at.row
    ensures forall at: Spot :: at.column < u.columns ==>
              InkAfter(p, u, s, at, PageRun(p, u, s).ink)
  {
    if s != [] {
      var before, c := s[..|s| - 1], s[|s| - 1];
      assert forall d :: d in before ==> d in s;
      assert c in s;
      TextOnPage(p, u, before);
      var q := PageRun(p, u, before);
      PlainStep(q, u, c);
      assert PageRun(p, u, s) == PageStep(q, u, c);
      hide PageStep, PageRun, Number;
      forall at: Spot | at.column < u.columns
        ensures InkAfter(p, u, s, at, PageRun(p, u, s).ink)
      {
        assert InkAfter(p, u, before, at, q.ink);
        InkLast(p, u, s, at, q);
      }
      hide InkAfter;
    }
  }

  lemma InkLast(p: Page, u: Setup, s: seq<Char>, at: Spot, q: Page)
    requires s != [] && at.column < u.columns && q.at.column < u.columns
    requires InkAfter(p, u, s[..|s| - 1], at, q.ink)
    requires Number(q.at, u.columns) == Number(p.at, u.columns) + |s| - 1
    ensures InkAfter(p, u, s, at, q.ink[q.at := Narrow(s[|s| - 1], u.colors)])
  {
    hide Number;
    SameNumber(at, q.at, u.columns);
  }

  /** What the ink holds at a place after plain text: the character that belongs there, or what was there. */
  ghost predicate InkAfter(p: Page, u: Setup, s: seq<Char>, at: Spot, ink: map<Spot, Glyph>) {
    var k := Number(at, u.columns) - Number(p.at, u.columns);
    if 0 <= k < |s| then at in ink && ink[at] == Narrow(s[k], u.colors)
    else (at in ink <==> at in p.ink) && (at in ink ==> ink[at] == p.ink[at])
  }

  /** The cursor after narrow text is as many places further in reading order as there are characters, and the
      screen has moved only as far as the cursor needs. */
  lemma PlainCursor(t: Screen, u: Setup, s: seq<Char>)
    requires Fits(t, u) && Usable(u) && !t.wide && Plain(s)
    ensures var t' := Run(t, u, s);
            && Fits(t', u) && t.scrolls <= t'.scrolls
            && (t'.scrolls + t'.row) * u.columns + t'.column == (t.scrolls + t.row) * u.columns + t.column + |s|
            && (t'.scrolls == t.scrolls || t'.row == u.rows - 1)
  {
    hide Run, PageRun, Shows;
    RunOnPage(t, u, s);
    TextOnPage(PageOf(t), u, s);
    ShownCursor(t, u, s, Run(t, u, s), PageRun(PageOf(t), u, s));
  }

  lemma ShownCursor(t: Screen, u: Setup, s: seq<Char>, t': Screen, q: Page)
    requires Depicts(t, u, t', q) && Number(q.at, u.columns) == Number(PageOf(t).at, u.columns) + |s|
    ensures t.scrolls <= t'.scrolls && q.at.row == t'.scrolls + t'.row && q.top == t'.scrolls
    ensures (t'.scrolls + t'.row) * u.columns + t'.column == (t.scrolls + t.row) * u.columns + t.column + |s|
  {
    hide Fits, Usable;
  }

  /** Row `r`, column `c` of screen `t'` after text `s` was printed on screen `t`: character k of the text where
      the place is k after the cursor's in reading order; else what was there before, moved up by as many lines
      as have left the screen; and else the background color. */
  ghost predicate HoldsText(t: Screen, u: Setup, s: seq<Char>, t': Screen, r: nat, c: nat)
    requires Sized(t.cells, u) && Sized(t'.cells, u) && t.scrolls <= t'.scrolls && r < u.rows && c < u.columns
  {
    var k := (t'.scrolls + r) * u.columns + c - ((t.scrolls + t.row) * u.columns + t.column);
    t'.cells[r][c] == if 0 <= k < |s| then Narrow(s[k], u.colors)
                      else if t'.scrolls + r < t.scrolls + u.rows then t.cells[t'.scrolls + r - t.scrolls][c]
                      else Cleared(u.colors / 16 % 8)
  }

  /** Narrow text is shown in reading order from the cursor on, whether or not the screen scrolls. */
  lemma PlainText(t: Screen, u: Setup, s: seq<Char>, r: nat, c: nat)
    requires Fits(t, u) && Usable(u) && !t.wide && Plain(s) && r < u.rows && c < u.columns
    ensures t.scrolls <= Run(t, u, s).scrolls && HoldsText(t, u, s, Run(t, u, s), r, c)
  {
    hide Run, PageRun, HoldsText, InkAfter, Number;
    RunOnPage(t, u, s);
    TextOnPage(PageOf(t), u, s);
    ShownCell(t, u, s, Run(t, u, s), PageRun(PageOf(t), u, s), r, c);
    hide Depicts, Fits, Usable;
  }

  lemma ShownCell(t: Screen, u: Setup, s: seq<Char>, t': Screen, q: Page, r: nat, c: nat)
    requires Depicts(t, u, t', q) && r < u.rows && c < u.columns
    requires InkAfter(PageOf(t), u, s, Spot(t'.scrolls + r, c), q.ink)
    ensures t.scrolls <= t'.scrolls && Sized(t.cells, u) && Sized(t'.cells, u) && HoldsText(t, u, s, t', r, c)
  {
    assert t'.cells[r][c] == PageCell(t, u, q.ink, Spot(t'.scrolls + r, c));
  }

  // ---------- control characters ----------

  /** A linefeed goes one line down on the page in the same column and writes nothing: a line that comes up at
      the bottom is blank. */
  lemma LinefeedMeaning(t: Screen, u: Setup)
    requires Fits(t, u) && Usable(u)
    ensures var t' := Step(t, u, 10);
            && t'.column == t.column && t'.scrolls + t'.row == t.scrolls + t.row + 1
            && t'.scrolls == (if t.row == u.rows - 1 then t.scrolls + 1 else t.scrolls) && t'.wide == t.wide
            && forall r, c :: 0 <= r < u.rows && 0 <= c < u.columns ==>
                 t'.cells[r][c] == if t'.scrolls - t.scrolls + r < u.rows then t.cells[t'.scrolls - t.scrolls + r][c]
                                   else Cleared(u.colors / 16 % 8)
  {
    ClearedBackground(u.colors);
  }

  /** A carriage return and the width characters write nothing and stay in the line. */
  lemma OtherControls(t: Screen, u: Setup)
    requires Fits(t, u) && Usable(u)
    ensures Step(t, u, 13) == t.(column := 0)
    ensures Step(t, u, 0xFFF1) == t.(wide := true) && Step(t, u, 0xFFF0) == t.(wide := false)
  {
  }

  /** A wide character takes the two cells at the cursor. */
  lemma WideMeaning(t: Screen, u: Setup, c: Char)
    requires Fits(t, u) && Usable(u) && t.wide && Plain([c]) && t.column + 2 <= u.columns
    ensures ShowsAt(Step(t, u, c), t.scrolls + t.row, t.column, WideLeft(c, u.colors))
    ensures ShowsAt(Step(t, u, c), t.scrolls + t.row, t.column + 1, WideRight(c, u.colors))
  {
    hide Step, ShowsAt, Depicts, PageStep, Plain, Fits, Usable, Inked;
    DepictsItself(t, u);
    var p, t', q := PageOf(t), Step(t, u, c), PageStep(PageOf(t), u, c);
    StepOnPage(t, u, t, p, c);
    WideInk(p, u, c);
    InkShows(t, u, t', q, p.at.row, p.at.column, WideLeft(c, u.colors));
    InkShows(t, u, t', q, p.at.row, p.at.column + 1, WideRight(c, u.colors));
  }

  /** In the last column it leaves a narrow space, and takes the first two cells of the next line. */
  lemma WideAtTheEnd(t: Screen, u: Setup, c: Char)
    requires Fits(t, u) && Usable(u) && t.wide && Plain([c]) && t.column == u.columns - 1
    ensures ShowsAt(Step(t, u, c), t.scrolls + t.row, t.column, Narrow(32, u.colors))
    ensures ShowsAt(Step(t, u, c), t.scrolls + t.row + 1, 0, WideLeft(c, u.colors))
    ensures ShowsAt(Step(t, u, c), t.scrolls + t.row + 1, 1, WideRight(c, u.colors))
  {
    assert 2 <= u.columns;
    hide Step, ShowsAt, Depicts, PageStep, Plain, Fits, Usable, Inked;
    DepictsItself(t, u);
    var p, t', q := PageOf(t), Step(t, u, c), PageStep(PageOf(t), u, c);
    StepOnPage(t, u, t, p, c);
    WideInk(p, u, c);
    InkShows(t, u, t', q, p.at.row, p.at.column, Narrow(32, u.colors));
    InkShows(t, u, t', q, p.at.row + 1, 0, WideLeft(c, u.colors));
    InkShows(t, u, t', q, p.at.row + 1, 1, WideRight(c, u.colors));
  }

  lemma DepictsItself(t: Screen, u: Setup)
    requires Fits(t, u) && Usable(u)
    ensures Depicts(t, u, t, PageOf(t))
  {
    assert Shows(t, u, t.cells, map[], t.scrolls);
    hide Shows;
  }

  ghost predicate Inked(ink: map<Spot, Glyph>, row: nat, column: nat, g: Glyph) {
    Spot(row, column) in ink && ink[Spot(row, column)] == g
  }

  lemma WideInk(p: Page, u: Setup, c: Char)
    requires p.wide && p.at.column < u.columns && Plain([c])
    ensures var ink, at := PageStep(p, u, c).ink, p.at;
            if at.column + 2 <= u.columns then
              && Inked(ink, at.row, at.column, WideLeft(c, u.colors))
              && Inked(ink, at.row, at.column + 1, WideRight(c, u.colors))
            else
              && Inked(ink, at.row, at.column, Narrow(32, u.colors))
              && Inked(ink, at.row + 1, 0, WideLeft(c, u.colors)) && Inked(ink, at.row + 1, 1, WideRight(c, u.colors))
  {
    assert c in [c];
  }

  lemma InkShows(first: Screen, u: Setup, t: Screen, p: Page, row: nat, column: nat, g: Glyph)
    requires Depicts(first, u, t, p) && Inked(p.ink, row, column, g) && column < u.columns
    ensures ShowsAt(t, row, column, g)
  {
    hide Fits;
    if p.top <= row {
      assert t.cells[row - p.top][column] == PageCell(first, u, p.ink, Spot(p.top + (row - p.top), column));
    }
  }

  /** A line of the page shows a glyph, unless it has left the top of the screen. */
  ghost predicate ShowsAt(t: Screen, line: nat, column: nat, g: Glyph) {
    t.scrolls <= line ==>
      line - t.scrolls < |t.cells| && column < |t.cells[line - t.scrolls]| && t.cells[line - t.scrolls][column] == g
  }

  /** Every cell but one shows what it did, moved up with the page. */
  ghost predicate KeptBut(t: Screen, u: Setup, t': Screen, spot: Spot)
    requires Sized(t.cells, u) && Sized(t'.cells, u) && t.scrolls <= t'.scrolls
  {
    forall r, c | 0 <= r && t'.scrolls - t.scrolls + r < u.rows && 0 <= c < u.columns
      && Spot(t'.scrolls + r, c) != spot ::
      t'.cells[r][c] == t.cells[t'.scrolls - t.scrolls + r][c]
  }

  /** A backspace takes back a narrow character: the cursor is where it was, its cell holds a space, and no
      other cell has changed.  Only on a screen of one line the last character of a line cannot be taken
      back. */
  lemma TypeErase(t: Screen, u: Setup, c: Char)
    requires Fits(t, u) && Usable(u) && !t.wide && Plain([c]) && (t.column + 1 < u.columns || 2 <= u.rows)
    ensures var t' := Step(Step(t, u, c), u, 8);
            && t'.column == t.column && t'.scrolls + t'.row == t.scrolls + t.row
            && t'.cells[t'.row][t'.column] == Narrow(32, u.colors)
            && t.scrolls <= t'.scrolls && KeptBut(t, u, t', Spot(t.scrolls + t.row, t.column))
  {
    TypedCells(t, u, c);
    var v := Step(t, u, c);
    hide Step, KeptBut, Plain, Sized;
    ErasedCells(v, u);
    var t' := Step(v, u, 8);
    hide Fits;
    assert t'.column == t.column && t'.scrolls + t'.row == t.scrolls + t.row;
    KeptTwice(t, u, v, t', Spot(t.scrolls + t.row, t.column));
  }

  lemma KeptTwice(t: Screen, u: Setup, v: Screen, t': Screen, spot: Spot)
    requires Sized(t.cells, u) && Sized(v.cells, u) && Sized(t'.cells, u)
    requires t.scrolls <= v.scrolls <= t'.scrolls && KeptBut(t, u, v, spot) && KeptBut(v, u, t', spot)
    ensures KeptBut(t, u, t', spot)
  {
    forall r, c | 0 <= r && t'.scrolls - t.scrolls + r < u.rows && 0 <= c < u.columns
      && Spot(t'.scrolls + r, c) != spot
      ensures t'.cells[r][c] == t.cells[t'.scrolls - t.scrolls + r][c]
    {
      assert t'.cells[r][c] == v.cells[t'.scrolls - v.scrolls + r][c];
    }
  }

  /** A narrow character is in the cell where the cursor was; the cursor goes on to the next place. */
  lemma TypedCells(t: Screen, u: Setup, c: Char)
    requires Fits(t, u) && Usable(u) && !t.wide && Plain([c])
    ensures var v := Step(t, u, c);
            && (if t.column + 1 < u.columns then v.column == t.column + 1 && v.scrolls == t.scrolls && v.row == t.row
                else v.column == 0 && v.scrolls + v.row == t.scrolls + t.row + 1
                     && v.scrolls == if t.row == u.rows - 1 then t.scrolls + 1 else t.scrolls)
            && KeptBut(t, u, v, Spot(t.scrolls + t.row, t.column))
  {
    hide Over, Step, Plain, LineFeed, KeptBut, Usable;
    var cells, spot := Over(t.cells, t.row, t.column, [Narrow(c, u.colors)]), Spot(t.scrolls + t.row, t.column);
    hide Sized;
    OverKeeps(t, u, Narrow(c, u.colors), 0);
    OverKeeps(t, u, Narrow(c, u.colors), t.column + 1);
    TypedStep(t, u, c);
    if t.column + 1 == u.columns {
      var after := t.(cells := cells, column := 0);
      FedCells(after, u, spot);
      KeptTwice(t, u, after, LineFeed(after, u), spot);
    }
  }

  lemma TypedStep(t: Screen, u: Setup, c: Char)
    requires Fits(t, u) && Usable(u) && !t.wide && Plain([c])
    ensures var cells := Over(t.cells, t.row, t.column, [Narrow(c, u.colors)]);
            && Fits(t.(cells := cells, column := 0), u)
            && Step(t, u, c) == if t.column + 1 == u.columns then LineFeed(t.(cells := cells, column := 0), u)
                                else t.(cells := cells, column := t.column + 1)
  {
    assert c in [c];
    OverSized(t.cells, u, t.row, t.column, [Narrow(c, u.colors)]);
    hide Over, LineFeed, Sized;
  }

  lemma OverKeeps(t: Screen, u: Setup, g: Glyph, column: nat)
    requires Fits(t, u) && column <= u.columns
    ensures var cells := Over(t.cells, t.row, t.column, [g]);
            Sized(cells, u)
            && KeptBut(t, u, t.(cells := cells, column := column), Spot(t.scrolls + t.row, t.column))
  {
    hide Over;
    var cells := Over(t.cells, t.row, t.column, [g]);
    OverOne(t.cells, u, t.row, t.column, g);
    forall r, c | 0 <= r < u.rows && 0 <= c < u.columns && Spot(t.scrolls + r, c) != Spot(t.scrolls + t.row, t.column)
      ensures cells[r][c] == t.cells[r][c]
    {
    }
  }

  lemma FedCells(t: Screen, u: Setup, spot: Spot)
    requires Fits(t, u) && Usable(u)
    ensures var v := LineFeed(t, u);
            && v.column == t.column && v.scrolls + v.row == t.scrolls + t.row + 1
            && v.scrolls == (if t.row == u.rows - 1 then t.scrolls + 1 else t.scrolls)
            && KeptBut(t, u, v, spot)
  {
  }

  /** The cell before the cursor holds a space, and the cursor stands there. */
  lemma ErasedCells(v: Screen, u: Setup)
    requires Fits(v, u) && Usable(u) && (v.column > 0 || v.row > 0)
    ensures var t' := Step(v, u, 8);
            && t'.scrolls == v.scrolls
            && (if v.column > 0 then t'.column == v.column - 1 && t'.row == v.row
                else t'.column == u.columns - 1 && t'.row == v.row - 1)
            && t'.cells[t'.row][t'.column] == Narrow(32, u.colors)
            && KeptBut(v, u, t', Spot(t'.scrolls + t'.row, t'.column))
  {
    hide Over;
    if v.column > 0 {
      OverOne(v.cells, u, v.row, v.column - 1, Narrow(32, u.colors));
    } else {
      OverOne(v.cells, u, v.row - 1, u.columns - 1, Narrow(32, u.colors));
    }
  }

  lemma OverOne(cells: seq<seq<Glyph>>, u: Setup, row: nat, column: nat, g: Glyph)
    requires Sized(cells, u) && row < u.rows && column < u.columns
    ensures var after := Over(cells, row, column, [g]);
            && Sized(after, u) && after[row][column] == g
            && forall r, c | 0 <= r < u.rows && 0 <= c < u.columns && (r != row || c != column) ::
                 after[r][c] == cells[r][c]
  {
    assert Over(cells, row, column, [g])[row] == cells[row][column := g];
  }

  /** A cleared screen has rows and columns as the mode says, all in the background color. */
  lemma ClearedMeaning(u: Setup)
    ensures |ClearedScreen(u)| == u.rows
    ensures forall r :: 0 <= r < u.rows ==> |ClearedScreen(u)[r]| == u.columns
    ensures forall r, c :: 0 <= r < u.rows && 0 <= c < u.columns ==>
              ClearedScreen(u)[r][c] == Cleared(u.colors / 16 % 8)
  {
    ClearedBackground(u.colors);
  }
}
