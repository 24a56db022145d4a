/** What every run of the game keeps. */
module TetrisLaws {
  import opened TetrisRules

  // ----- counting cells -----

  function CellsIn(row: Row): (n: nat)
    ensures n <= |row|
  {
    if row == [] then 0 else CellsIn(row[..|row| - 1]) + (if row[|row| - 1] != EMPTY then 1 else 0)
  }

  function Cells(rows: seq<Row>): nat {
    if rows == [] then 0 else CellsIn(rows[0]) + Cells(rows[1..])
  }

  lemma {:induction false} FullRowCells(row: Row)
    ensures Full(row) <==> CellsIn(row) == |row|
  {
    if row != [] {
      var n := |row| - 1;
      FullRowCells(row[..n]);
      assert row == row[..n] + [row[n]];
    }
  }

  lemma {:induction false} EmptyRowCells(n: nat)
    ensures CellsIn(seq(n, _ => EMPTY)) == 0
  {
    if n > 0 {
      EmptyRowCells(n - 1);
      assert seq(n, _ => EMPTY)[..n - 1] == seq(n - 1, _ => EMPTY);
    }
  }

  /** Filling an empty cell adds one. */
  lemma {:induction false} FillCell(row: Row, x: nat, color: int)
    requires x < |row| && row[x] == EMPTY && color != EMPTY
    ensures CellsIn(row[x := color]) == CellsIn(row) + 1
  {
    var n := |row| - 1;
    if x == n {
      assert row[x := color][..n] == row[..n];
    } else {
      assert row[x := color][..n] == row[..n][x := color];
      FillCell(row[..n], x, color);
    }
  }

  lemma {:induction false} CellsConcat(a: seq<Row>, b: seq<Row>)
    ensures Cells(a + b) == Cells(a) + Cells(b)
  {
    if a == [] {
      assert a + b == b;
    } else {
      assert (a + b)[1..] == a[1..] + b;
      CellsConcat(a[1..], b);
    }
  }

  /** Replacing a row changes the count by the difference of the two rows. */
  lemma CellsUpdate(rows: seq<Row>, y: nat, row: Row)
    requires y < |rows|
    ensures Cells(rows[y := row]) == Cells(rows) - CellsIn(rows[y]) + CellsIn(row)
  {
    assert rows == rows[..y] + ([rows[y]] + rows[y + 1..]);
    assert rows[y := row] == rows[..y] + ([row] + rows[y + 1..]);
    CellsConcat(rows[..y], [rows[y]] + rows[y + 1..]);
    CellsConcat(rows[..y], [row] + rows[y + 1..]);
    assert ([rows[y]] + rows[y + 1..])[1..] == rows[y + 1..];
    assert ([row] + rows[y + 1..])[1..] == rows[y + 1..];
  }

  lemma {:induction false} CopiesCells(row: Row, n: nat)
    ensures Cells(Copies(row, n)) == n * CellsIn(row)
  {
    if n > 0 {
      CopiesCells(row, n - 1);
      MoreCells(Copies(row, n));
      assert Copies(row, n)[1..] == Copies(row, n - 1);
      hide Cells, CellsIn, Copies;
      assert n * CellsIn(row) == (n - 1) * CellsIn(row) + CellsIn(row);
    } else {
      assert Copies(row, n) == [];
    }
  }

  lemma MoreCells(rows: seq<Row>)
    requires rows != []
    ensures Cells(rows) == CellsIn(rows[0]) + Cells(rows[1..])
  {
  }

  /** Each full row that goes takes its cells along. */
  lemma {:induction false} RemainingCells(rows: seq<Row>)
    requires forall y :: 0 <= y < |rows| ==> |rows[y]| == WIDTH
    ensures Cells(Remaining(rows)) + WIDTH * FullCount(rows) == Cells(rows)
  {
    if rows != [] {
      var rest := Remaining(rows[1..]);
      RemainingCells(rows[1..]);
      FullRowCells(rows[0]);
      if Full(rows[0]) {
        assert Remaining(rows) == rest;
      } else {
        assert Remaining(rows) == [rows[0]] + rest;
        CellsConcat([rows[0]], rest);
        assert Cells([rows[0]]) == CellsIn(rows[0]) + Cells([]);
      }
    }
  }

  // ----- painting -----

  lemma {:induction false} PaintedAt(g: Grid, ps: seq<Point>, color: int, x: nat, y: nat)
    requires Sized(g) && AllInside(ps) && x < WIDTH && y < HEIGHT
    ensures Painted(g, ps, color)[y][x] == if Point(x, y) in ps then color else g[y][x]
  {
    if ps != [] {
      var n := |ps| - 1;
      PaintedAt(g, ps[..n], color, x, y);
      assert ps == ps[..n] + [ps[n]];
    }
  }

  ghost predicate Distinct(ps: seq<Point>) {
    forall i, j :: 0 <= i < j < |ps| ==> ps[i] != ps[j]
  }

  lemma {:induction false} PaintedCells(g: Grid, ps: seq<Point>, color: int)
    requires Sized(g) && Free(g, ps) && Distinct(ps) && color != EMPTY
    ensures Cells(Painted(g, ps, color)) == Cells(g) + |ps|
  {
    if ps != [] {
      var n := |ps| - 1;
      PaintedCells(g, ps[..n], color);
      var g', p := Painted(g, ps[..n], color), ps[n];
      PaintedAt(g, ps[..n], color, p.x, p.y);
      FillCell(g'[p.y], p.x, color);
      CellsUpdate(g', p.y, g'[p.y][p.x := color]);
    }
  }

  lemma {:induction false} FullCountConcat(a: seq<Row>, b: seq<Row>)
    ensures FullCount(a + b) == FullCount(a) + FullCount(b)
  {
    if a == [] {
      assert a + b == b;
    } else {
      assert (a + b)[1..] == a[1..] + b;
      FullCountConcat(a[1..], b);
    }
  }

  lemma FullCountUpdate(rows: seq<Row>, y: nat, row: Row)
    requires y < |rows|
    ensures FullCount(rows[y := row]) <= FullCount(rows) + 1
  {
    assert rows == rows[..y] + ([rows[y]] + rows[y + 1..]);
    assert rows[y := row] == rows[..y] + ([row] + rows[y + 1..]);
    FullCountConcat(rows[..y], [rows[y]] + rows[y + 1..]);
    FullCountConcat(rows[..y], [row] + rows[y + 1..]);
    assert ([rows[y]] + rows[y + 1..])[1..] == rows[y + 1..];
    assert ([row] + rows[y + 1..])[1..] == rows[y + 1..];
  }

  /** Each cell painted completes at most one row. */
  lemma {:induction false} PaintedFullCount(g: Grid, ps: seq<Point>, color: int)
    requires Sized(g) && AllInside(ps)
    ensures FullCount(Painted(g, ps, color)) <= FullCount(g) + |ps|
  {
    if ps != [] {
      var n := |ps| - 1;
      PaintedFullCount(g, ps[..n], color);
      PaintedLast(g, ps, color);
      hide FullCount, Full, Remaining, Painted;
      var g', p := Painted(g, ps[..n], color), ps[n];
      FullCountUpdate(g', p.y, g'[p.y][p.x := color]);
    }
  }

  /** Painting the last cell. */
  lemma PaintedLast(g: Grid, ps: seq<Point>, color: int)
    requires Sized(g) && AllInside(ps) && ps != []
    ensures var g', p := Painted(g, ps[..|ps| - 1], color), ps[|ps| - 1];
            && 0 <= p.y < |g'| && 0 <= p.x < |g'[p.y]|
            && Painted(g, ps, color) == g'[p.y := g'[p.y][p.x := color]]
  {
  }

  lemma {:induction false} NoneFull(rows: seq<Row>)
    requires forall row :: row in rows ==> !Full(row)
    ensures FullCount(rows) == 0 && Remaining(rows) == rows
  {
    if rows != [] {
      NoneFull(rows[1..]);
    }
  }

  // ----- the invariant -----

  ghost predicate NoRowFull(g: Grid) {
    forall row :: row in g ==> !Full(row)
  }

  ghost predicate HiddenEmpty(g: Grid)
    requires Sized(g)
  {
    g[0] == EmptyRow() && g[1] == EmptyRow()
  }

  /** The active piece is on the board and apart from what has settled, the hidden rows hold nothing
      settled, no settled row is full, and no cell is lost: each piece brought four, and each line took
      ten. */
  ghost predicate Sound(g: Game) {
    && Playable(g) && NewShape(g.next)
    && Free(g.settled, Spots(g.active))
    && HiddenEmpty(g.settled) && NoRowFull(g.settled)
    && Cells(g.settled) + WIDTH * g.lines == 4 * g.placed
  }

  lemma SpotsDistinct(s: Shape)
    requires GoodShape(s)
    ensures Distinct(Spots(s)) && |Spots(s)| == 4
  {
    assert GoodBody(s.bodies[s.rotation]);
  }

  /** A piece that sticks out nowhere leaves the hidden rows empty. */
  lemma HiddenStaysEmpty(g: Game)
    requires Sound(g) && !SticksOut(g)
    ensures HiddenEmpty(Painted(g.settled, Spots(g.active), g.active.color))
  {
    SpotsDistinct(g.active);
    var ps := Spots(g.active);
    var painted := Painted(g.settled, ps, g.active.color);
    forall y, x | 0 <= y < HIDDEN && 0 <= x < WIDTH
      ensures painted[y][x] == EMPTY
    {
      PaintedAt(g.settled, ps, g.active.color, x, y);
      assert forall i :: 0 <= i < 4 ==> ps[i].y >= HIDDEN;
      assert g.settled[y][x] == EmptyRow()[x];
    }
    assert painted[0] == EmptyRow() && painted[1] == EmptyRow();
  }

  /** Clearing lines leaves no full row, and nothing in the hidden rows. */
  lemma CollapsedRows(g: Grid)
    requires Sized(g) && HiddenEmpty(g)
    ensures Sized(Collapsed(g)) && HiddenEmpty(Collapsed(g)) && NoRowFull(Collapsed(g))
  {
    hide FullCount;
    CollapsedSized(g);
    assert EmptyRow()[0] == EMPTY;
    var copies := Copies(g[1], FullCount(g[HIDDEN..]));
    forall row | row in Collapsed(g)
      ensures !Full(row)
    {
      assert row in g[..HIDDEN] || row in copies || row in Remaining(g[HIDDEN..]);
    }
  }

  /** Clearing lines loses exactly the cells of the full rows. */
  lemma CollapsedCells(g: Grid)
    requires Sized(g) && HiddenEmpty(g)
    ensures Cells(Collapsed(g)) + WIDTH * FullCount(g[HIDDEN..]) == Cells(g)
  {
    hide Cells, FullCount, Remaining, CellsIn;
    var visible := g[HIDDEN..];
    var k := FullCount(visible);
    assert g == g[..HIDDEN] + visible;
    CellsConcat(g[..HIDDEN], visible);
    CellsConcat(g[..HIDDEN], Copies(g[1], k));
    CellsConcat(g[..HIDDEN] + Copies(g[1], k), Remaining(visible));
    CopiesCells(g[1], k);
    EmptyRowCells(WIDTH);
    RemainingCells(visible);
  }

  /** At most four lines go at once. */
  lemma AtMostFourLines(g: Game)
    requires Sound(g)
    ensures FullCount(Painted(g.settled, Spots(g.active), g.active.color)[HIDDEN..]) <= 4
  {
    hide FullCount, Painted, Remaining, Full;
    var painted := Painted(g.settled, Spots(g.active), g.active.color);
    SpotsDistinct(g.active);
    NoneFull(g.settled);
    PaintedFullCount(g.settled, Spots(g.active), g.active.color);
    assert painted == painted[..HIDDEN] + painted[HIDDEN..];
    FullCountConcat(painted[..HIDDEN], painted[HIDDEN..]);
  }

  /** A new piece appears in the hidden rows. */
  lemma NewPieceFits(g: Grid, s: Shape)
    requires Sized(g) && HiddenEmpty(g) && NewShape(s)
    ensures var s' := s.(pos := START_POS); GoodShape(s') && Free(g, Spots(s'))
  {
    var s' := s.(pos := START_POS);
    assert GoodBody(s.bodies[0]);
    forall i | 0 <= i < 4
      ensures Inside(Spots(s')[i]) && g[Spots(s')[i].y][Spots(s')[i].x] == EMPTY
    {
      var p := Spots(s')[i];
      assert p == Point(s.bodies[0][i].x + 4, s.bodies[0][i].y);
      assert g[p.y] == EmptyRow();
    }
  }

  lemma SettledSound(g: Game, chosen: Shape)
    requires Sound(g) && !SticksOut(g) && NewShape(chosen)
    ensures Sound(Settled(g, chosen))
  {
    var painted := Painted(g.settled, Spots(g.active), g.active.color);
    SpotsDistinct(g.active);
    PaintedCells(g.settled, Spots(g.active), g.active.color);
    HiddenStaysEmpty(g);
    CollapsedRows(painted);
    CollapsedCells(painted);
    NewPieceFits(Collapsed(painted), g.next);
  }

  lemma FallenSound(g: Game, chosen: Shape)
    requires Sound(g) && NewShape(chosen)
    ensures Sound(Fallen(g, chosen))
  {
    if !CanFall(g) && !SticksOut(g) {
      SettledSound(g, chosen);
    }
  }

  /** The fall ends at the first height below which there is no room. */
  lemma {:induction false} FallMeaning(g: Game)
    requires Playable(g)
    ensures forall k :: 0 < k <= Fall(g) ==> Free(g.settled, Spots(Shifted(g.active, 0, k)))
    ensures !Free(g.settled, Spots(Shifted(g.active, 0, Fall(g) + 1)))
    decreases HEIGHT - g.active.pos.y
  {
    if CanFall(g) {
      LowerInside(g);
      var g' := g.(active := Shifted(g.active, 0, 1));
      FallMeaning(g');
      forall k | 0 < k <= Fall(g)
        ensures Free(g.settled, Spots(Shifted(g.active, 0, k)))
      {
        assert Shifted(g'.active, 0, k - 1) == Shifted(g.active, 0, k);
      }
      assert Shifted(g'.active, 0, Fall(g') + 1) == Shifted(g.active, 0, Fall(g) + 1);
    }
  }

  lemma DroppedSound(g: Game, chosen: Shape)
    requires Sound(g) && NewShape(chosen)
    ensures Sound(Dropped(g, chosen))
  {
    FallMeaning(g);
    var n := Fall(g);
    var low := g.(active := Shifted(g.active, 0, n));
    assert n == 0 ==> low == g;
    FallenSound(low, chosen);
  }

  // ----- runs -----

  datatype Move = Left | Right | Rotate | Down(chosen: Shape) | Drop(chosen: Shape)

  ghost predicate Choice(m: Move) {
    match m
    case Down(chosen) => NewShape(chosen)
    case Drop(chosen) => NewShape(chosen)
    case _ => true
  }

  ghost function Step(g: Game, m: Move): Game
    requires Playable(g)
  {
    match m
    case Left => Moved(g, -1)
    case Right => Moved(g, 1)
    case Rotate => Rotated(g)
    case Down(chosen) => Fallen(g, chosen)
    case Drop(chosen) => Dropped(g, chosen)
  }

  lemma StepSound(g: Game, m: Move)
    requires Sound(g) && Choice(m)
    ensures Sound(Step(g, m))
  {
    match m {
      case Left => case Right => case Rotate =>
      case Down(chosen) => FallenSound(g, chosen);
      case Drop(chosen) => DroppedSound(g, chosen);
    }
  }

  /** The states of a run, from the first to the last. */
  ghost predicate IsRun(states: seq<Game>, moves: seq<Move>) {
    && |states| == |moves| + 1
    && forall i :: 0 <= i < |moves| ==>
         Choice(moves[i]) && Playable(states[i]) && states[i + 1] == Step(states[i], moves[i])
  }

  /** Every state of every run is sound, whether the game is over or not. */
  lemma {:induction false} RunSound(states: seq<Game>, moves: seq<Move>, k: nat)
    requires IsRun(states, moves) && Sound(states[0]) && k < |states|
    ensures Sound(states[k])
  {
    if k > 0 {
      RunSound(states, moves, k - 1);
      StepSound(states[k - 1], moves[k - 1]);
    }
  }
}
