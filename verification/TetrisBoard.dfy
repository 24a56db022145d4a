/** The board and the pieces as the program keeps them: one grid of colors that holds both what has
    settled and what is drawn of the active piece. */
module TetrisBoard {
  import opened TetrisRules
  import opened TetrisLaws

  // ----- pieces -----

  function P(x: int, y: int): Point { Point(x, y) }

  /** The four rotations of each kind of piece. */
  function BodiesOf(kind: nat): (bs: seq<Body>)
    requires kind < 7
    ensures |bs| == 4
  {
    match kind
    case 0 => [[P(0, 1), P(1, 1), P(2, 1), P(3, 1)], [P(2, 0), P(2, 1), P(2, 2), P(2, 3)],
               [P(0, 2), P(1, 2), P(2, 2), P(3, 2)], [P(1, 0), P(1, 1), P(1, 2), P(1, 3)]]
    case 1 => [[P(0, 0), P(0, 1), P(1, 1), P(2, 1)], [P(1, 2), P(1, 1), P(1, 0), P(2, 0)],
               [P(0, 1), P(1, 1), P(2, 1), P(2, 2)], [P(0, 2), P(1, 2), P(1, 1), P(1, 0)]]
    case 2 => [[P(0, 1), P(1, 1), P(2, 1), P(2, 0)], [P(1, 2), P(1, 1), P(1, 0), P(2, 2)],
               [P(0, 1), P(1, 1), P(2, 1), P(0, 2)], [P(0, 0), P(1, 2), P(1, 1), P(1, 0)]]
    case 3 => [[P(1, 0), P(1, 1), P(2, 0), P(2, 1)], [P(1, 0), P(1, 1), P(2, 0), P(2, 1)],
               [P(1, 0), P(1, 1), P(2, 0), P(2, 1)], [P(1, 0), P(1, 1), P(2, 0), P(2, 1)]]
    case 4 => [[P(0, 1), P(1, 1), P(1, 0), P(2, 0)], [P(1, 0), P(1, 1), P(2, 1), P(2, 2)],
               [P(0, 2), P(1, 2), P(1, 1), P(2, 1)], [P(0, 0), P(0, 1), P(1, 1), P(1, 2)]]
    case 5 => [[P(0, 1), P(1, 1), P(2, 1), P(1, 0)], [P(1, 0), P(1, 1), P(1, 2), P(2, 1)],
               [P(0, 1), P(1, 1), P(2, 1), P(1, 2)], [P(1, 0), P(1, 1), P(1, 2), P(0, 1)]]
    case _ => [[P(2, 1), P(1, 1), P(1, 0), P(0, 0)], [P(1, 2), P(1, 1), P(2, 1), P(2, 0)],
               [P(2, 2), P(1, 2), P(1, 1), P(0, 1)], [P(0, 2), P(0, 1), P(1, 1), P(1, 0)]]
  }

  /** Light cyan, light blue, green, yellow, light green, magenta and light magenta. */
  const PIECE_COLORS: seq<int> := [11, 9, 2, 14, 10, 5, 13]

  function Fresh(kind: nat, pos: Point): Shape
    requires kind < 7
  {
    Shape(BodiesOf(kind), 0, PIECE_COLORS[kind], pos)
  }

  ghost predicate OneOfSeven(bodies: seq<Body>, color: int) {
    exists kind: nat :: kind < 7 && bodies == BodiesOf(kind) && color == PIECE_COLORS[kind]
  }

  predicate Boxed(p: Point) {
    0 <= p.x < 4 && 0 <= p.y < 4
  }

  /** Four cells in the box, no two the same. */
  predicate Four(b: Body) {
    && |b| == 4 && Boxed(b[0]) && Boxed(b[1]) && Boxed(b[2]) && Boxed(b[3])
    && b[0] != b[1] && b[0] != b[2] && b[0] != b[3] && b[1] != b[2] && b[1] != b[3] && b[2] != b[3]
  }

  lemma FourIsGood(b: Body)
    requires Four(b)
    ensures GoodBody(b)
  {
  }

  predicate Table(bs: seq<Body>) {
    && |bs| == 4 && Four(bs[0]) && Four(bs[1]) && Four(bs[2]) && Four(bs[3])
    && bs[0][0].y < HIDDEN && bs[0][1].y < HIDDEN && bs[0][2].y < HIDDEN && bs[0][3].y < HIDDEN
  }

  lemma FirstTables(kind: nat)
    requires kind < 4
    ensures Table(BodiesOf(kind))
  {
    match kind {
      case 0 => case 1 => case 2 => case _ =>
    }
  }

  lemma LastTables(kind: nat)
    requires 4 <= kind < 7
    ensures Table(BodiesOf(kind))
  {
    match kind {
      case 4 => case 5 => case _ =>
    }
  }

  lemma TablesAreGood(kind: nat, pos: Point)
    requires kind < 7
    ensures NewShape(Fresh(kind, pos))
  {
    hide BodiesOf, Four, GoodBody;
    var bs := BodiesOf(kind);
    if kind < 4 {
      FirstTables(kind);
    } else {
      LastTables(kind);
    }
    FourIsGood(bs[0]);
    FourIsGood(bs[1]);
    FourIsGood(bs[2]);
    FourIsGood(bs[3]);
  }

  class Piece {
    var bodies: seq<Body>
    var body: nat
    var rotation: nat
    var color: int
    var pos: Point

    ghost function Value(): Shape
      reads this
    {
      Shape(bodies, rotation, color, pos)
    }

    /** `body` refers to the rotation in use, of one of the seven kinds. */
    ghost predicate Valid()
      reads this
    {
      GoodShape(Value()) && body == rotation && OneOfSeven(bodies, color)
    }

    constructor (kind: nat)
      requires kind < 7
      ensures Valid() && NewShape(Value()) && Value() == Fresh(kind, Point(0, 0))
    {
      TablesAreGood(kind, Point(0, 0));
      bodies, body, rotation := BodiesOf(kind), 0, 0;
      color, pos := PIECE_COLORS[kind], Point(0, 0);
    }

    /** Becomes a piece of another kind; `kind` is the random number drawn. */
    method Randomize(kind: nat)
      requires kind < 7
      modifies this
      ensures Valid() && Value() == Fresh(kind, old(pos)) && NewShape(Value())
    {
      TablesAreGood(kind, pos);
      color := PIECE_COLORS[kind];
      bodies := BodiesOf(kind);
      rotation := 0;
      body := 0;
    }

    method RotateCW()
      requires Valid()
      modifies this
      ensures Valid() && Value() == Turned(old(Value()))
    {
      rotation := (rotation + 1) % 4;
      body := rotation;
    }

    method RotateCCW()
      requires Valid()
      modifies this
      ensures Valid() && Turned(Value()) == old(Value())
    {
      if rotation == 0 {
        rotation := 3;
      } else {
        rotation := rotation - 1;
      }
      body := rotation;
    }
  }

  // ----- grids -----

  /** `after` is `before` with the cells `ps` from row `top` down in one color. */
  ghost predicate Recolored(before: Grid, after: Grid, ps: seq<Point>, color: int, top: int)
    requires Sized(before) && Sized(after)
  {
    forall y, x :: 0 <= y < HEIGHT && 0 <= x < WIDTH ==>
      after[y][x] == if top <= y && Point(x, y) in ps then color else before[y][x]
  }

  /** The grid is what has settled, with some cells of the active piece drawn over it. */
  ghost predicate Shows(grid: Grid, g: Game)
    requires Playable(g) && Sized(grid)
  {
    forall y, x :: 0 <= y < HEIGHT && 0 <= x < WIDTH ==>
      grid[y][x] == g.settled[y][x]
      || (Point(x, y) in Spots(g.active) && grid[y][x] == g.active.color)
  }

  lemma SameGrid(a: Grid, b: Grid)
    requires Sized(a) && Sized(b)
    requires forall y, x :: 0 <= y < HEIGHT && 0 <= x < WIDTH ==> a[y][x] == b[y][x]
    ensures a == b
  {
    forall y | 0 <= y < HEIGHT
      ensures a[y] == b[y]
    {
    }
  }

  /** Erasing the active piece leaves what has settled. */
  lemma ErasedIsSettled(before: Grid, after: Grid, g: Game)
    requires Playable(g) && Free(g.settled, Spots(g.active))
    requires Sized(before) && Sized(after) && Shows(before, g)
    requires Recolored(before, after, Spots(g.active), EMPTY, 0)
    ensures after == g.settled
  {
    forall y, x | 0 <= y < HEIGHT && 0 <= x < WIDTH
      ensures after[y][x] == g.settled[y][x]
    {
      if Point(x, y) in Spots(g.active) {
        var i :| 0 <= i < |Spots(g.active)| && Spots(g.active)[i] == Point(x, y);
        assert g.settled[y][x] == EMPTY;
      }
    }
    SameGrid(after, g.settled);
  }

  /** Drawing the active piece, or its visible part, shows the game. */
  lemma DrawnShows(before: Grid, after: Grid, g: Game, top: int)
    requires Playable(g) && Sized(before) && Sized(after) && Shows(before, g)
    requires Recolored(before, after, Spots(g.active), g.active.color, top)
    ensures Shows(after, g)
  {
  }

  lemma SettledShows(g: Game)
    requires Sound(g)
    ensures Shows(g.settled, g)
  {
  }

  lemma RecoloredIsPainted(before: Grid, after: Grid, ps: seq<Point>, color: int)
    requires Sized(before) && Sized(after) && AllInside(ps)
    requires Recolored(before, after, ps, color, 0)
    ensures after == Painted(before, ps, color)
  {
    forall y, x | 0 <= y < HEIGHT && 0 <= x < WIDTH
      ensures after[y][x] == Painted(before, ps, color)[y][x]
    {
      PaintedAt(before, ps, color, x, y);
    }
    SameGrid(after, Painted(before, ps, color));
  }

  lemma RecoloredStep(before: Grid, now: Grid, after: Grid, ps: seq<Point>, i: nat, color: int, top: int)
    requires i < |ps| && Sized(before) && Sized(now) && Sized(after)
    requires Recolored(before, now, ps[..i], color, top)
    requires Inside(ps[i])
    requires after == if top <= ps[i].y then Painted1(now, ps[i], color) else now
    ensures Recolored(before, after, ps[..i + 1], color, top)
  {
    assert ps[..i + 1] == ps[..i] + [ps[i]];
    var p := ps[i];
    forall y, x | 0 <= y < HEIGHT && 0 <= x < WIDTH
      ensures after[y][x] == if top <= y && Point(x, y) in ps[..i + 1] then color else before[y][x]
    {
      assert now[y][x] == if top <= y && Point(x, y) in ps[..i] then color else before[y][x];
      assert Point(x, y) in ps[..i + 1] <==> Point(x, y) in ps[..i] || Point(x, y) == p;
    }
  }

  lemma StartGrid()
    ensures Sized(Copies(EmptyRow(), HEIGHT))
    ensures forall y, x :: 0 <= y < HEIGHT && 0 <= x < WIDTH ==> Copies(EmptyRow(), HEIGHT)[y][x] == EMPTY
  {
  }

  lemma StartSound(g: Game)
    requires g.settled == Copies(EmptyRow(), HEIGHT) && g.lines == 0 && g.placed == 0
    requires NewShape(g.active) && g.active.pos == START_POS && NewShape(g.next)
    ensures Sound(g)
  {
    NewPieceFits(g.settled, g.active);
    assert g.active.(pos := START_POS) == g.active;
    assert EmptyRow()[0] == EMPTY;
    CopiesCells(EmptyRow(), HEIGHT);
    EmptyRowCells(WIDTH);
  }

  // ----- clearing lines -----

  /** The grid when rows `i` to 2 have been replaced by the rows above them. */
  function ShiftedDown(g: Grid, i: nat): Grid
    requires HIDDEN <= i < |g|
  {
    g[..HIDDEN] + g[HIDDEN - 1..i] + g[i + 1..]
  }

  /** Part-way through shifting: row `j` is the next to be replaced. */
  function Shifting(g: Grid, i: nat, j: nat): Grid
    requires HIDDEN <= i < |g| && j <= i
  {
    var top := if j == 0 then 1 else j;
    g[..top + 1] + g[top..i] + g[i + 1..]
  }

  lemma ShiftedFrom(g: Grid, i: nat)
    requires HIDDEN <= i < |g|
    ensures Shifting(g, i, i) == g && Shifting(g, i, 0) == ShiftedDown(g, i)
  {
  }

  lemma ShiftingStep(g: Grid, i: nat, j: nat)
    requires HIDDEN <= i < |g| && 0 < j <= i
    ensures var now := Shifting(g, i, j);
            |now| == |g| && Shifting(g, i, j - 1) == if HIDDEN <= j then now[j := now[j - 1]] else now
  {
  }

  /** Part-way through clearing: of the visible rows, the first `m` have not been looked at, and `k`
      full ones have been found among the others. */
  ghost predicate Clearing(was: Grid, now: Grid, k: nat, m: nat)
    requires Sized(was)
  {
    var rows := was[HIDDEN..];
    && m <= |rows| && k == FullCount(rows[m..])
    && now == was[..HIDDEN] + Copies(was[HIDDEN - 1], k) + rows[..m] + Remaining(rows[m..])
  }

  lemma ClearingStart(was: Grid)
    requires Sized(was)
    ensures Clearing(was, was, 0, HEIGHT - HIDDEN)
  {
    var rows := was[HIDDEN..];
    assert rows[|rows|..] == [] && rows[..|rows|] == rows;
    assert was == was[..HIDDEN] + rows;
  }

  /** Looking at one more row, from the bottom up. */
  lemma RemainingStep(rows: seq<Row>, m: nat)
    requires 0 < m <= |rows|
    ensures Remaining(rows[m - 1..]) ==
            (if Full(rows[m - 1]) then [] else [rows[m - 1]]) + Remaining(rows[m..])
    ensures FullCount(rows[m - 1..]) == (if Full(rows[m - 1]) then 1 else 0) + FullCount(rows[m..])
  {
    assert rows[m - 1..][1..] == rows[m..];
  }

  /** One more row, not full. */
  lemma ClearingKeep(was: Grid, now: Grid, k: nat, m: nat)
    requires Sized(was) && 0 < m && Clearing(was, now, k, m) && !Full(was[HIDDEN..][m - 1])
    ensures Clearing(was, now, k, m - 1)
  {
    hide Remaining, FullCount, Full;
    var rows := was[HIDDEN..];
    RemainingStep(rows, m);
    assert rows[..m] == rows[..m - 1] + [rows[m - 1]];
  }

  /** One more row, full: the rows above it move down. */
  lemma ClearingDrop(was: Grid, now: Grid, k: nat, m: nat, i: nat)
    requires Sized(was) && 0 < m && Clearing(was, now, k, m) && Full(was[HIDDEN..][m - 1])
    requires i == HIDDEN + k + m - 1
    ensures i < |now| && Clearing(was, ShiftedDown(now, i), k + 1, m - 1)
  {
    hide Remaining, FullCount, Full, ShiftedDown;
    var rows := was[HIDDEN..];
    var row := was[HIDDEN - 1];
    RemainingStep(rows, m);
    assert rows[..m] == rows[..m - 1] + [rows[m - 1]];
    ShiftedParts(was[..HIDDEN], Copies(row, k) + rows[..m - 1], rows[m - 1], Remaining(rows[m..]));
    assert now == was[..HIDDEN] + (Copies(row, k) + rows[..m - 1]) + [rows[m - 1]] + Remaining(rows[m..]);
    assert Copies(row, k + 1) == [row] + Copies(row, k);
    assert Copies(row, k + 1) + rows[..m - 1] == [row] + (Copies(row, k) + rows[..m - 1]);
  }

  lemma ShiftedParts(top: seq<Row>, above: seq<Row>, row: Row, below: seq<Row>)
    requires |top| == HIDDEN
    ensures ShiftedDown(top + above + [row] + below, HIDDEN + |above|) == top + ([top[HIDDEN - 1]] + above) + below
  {
    var g := top + above + [row] + below;
    assert g[..HIDDEN] == top;
    assert g[HIDDEN - 1..HIDDEN + |above|] == [top[HIDDEN - 1]] + above;
    assert g[HIDDEN + |above| + 1..] == below;
  }

  /** Row `i` of the grid is the last row not looked at, or, when there are none left, a copy of the
      last hidden row. */
  lemma ClearingRow(was: Grid, now: Grid, k: nat, m: nat, i: nat)
    requires Sized(was) && Clearing(was, now, k, m) && HIDDEN <= i
    requires if m > 0 then i == HIDDEN + k + m - 1 else i < HIDDEN + k
    ensures Sized(now)
    ensures i < |now| && now[i] == if m > 0 then was[HIDDEN..][m - 1] else was[HIDDEN - 1]
  {
    var rows := was[HIDDEN..];
    forall y | 0 <= y < |now|
      ensures |now[y]| == WIDTH
    {
      assert now[y] in was[..HIDDEN] || now[y] == was[HIDDEN - 1] || now[y] in rows[..m]
             || now[y] in Remaining(rows[m..]);
      assert now[y] in was;
    }
  }

  /** Clearing lines comes to an end: the row above the visible ones, which moves down for each full row,
      is not full itself, or there is no full row. */
  ghost predicate Clearable(g: Grid)
    requires Sized(g)
  {
    !Full(g[HIDDEN - 1]) || FullCount(g[HIDDEN..]) == 0
  }

  /** In a grid of the other kind, when all the rows have been looked at, the next one is full, and moving
      the rows above it down changes nothing: it is full again, for ever. */
  lemma ClearingForEver(was: Grid, now: Grid, k: nat, i: nat)
    requires Sized(was) && !Clearable(was) && Clearing(was, now, k, 0) && i == HIDDEN + k - 1
    ensures k > 0 && HIDDEN <= i < |now| && Full(now[i]) && ShiftedDown(now, i) == now
  {
    hide Full, Remaining;
    var rows := was[HIDDEN..];
    assert rows[0..] == rows && rows[..0] == [];
    assert forall y :: HIDDEN - 1 <= y <= i ==> now[y] == was[HIDDEN - 1];
  }

  /** The loop that clears lines: the grid, the row it looks at, and the full rows found so far.  Which row it
      shifts over does not matter, so blackening that row first is left out. */
  datatype Loop = Loop(now: Grid, i: int, counter: nat)

  ghost function LoopStep(l: Loop): Loop {
    if !(HIDDEN <= l.i < |l.now|) then l
    else if Full(l.now[l.i]) then Loop(ShiftedDown(l.now, l.i), l.i, l.counter + 1)
    else l.(i := l.i - 1)
  }

  ghost function LoopAfter(was: Grid, n: nat): Loop {
    if n == 0 then Loop(was, HEIGHT - 1, 0) else LoopStep(LoopAfter(was, n - 1))
  }

  /** The first steps look at the visible rows, from the bottom up. */
  lemma {:induction false} LoopLooks(was: Grid, n: nat)
    requires Sized(was) && n <= HEIGHT - HIDDEN
    ensures var l := LoopAfter(was, n);
            Clearing(was, l.now, l.counter, HEIGHT - HIDDEN - n)
            && l.i == HIDDEN + l.counter + (HEIGHT - HIDDEN - n) - 1
  {
    hide Clearing, ShiftedDown, Full, Sized;
    if n == 0 {
      ClearingStart(was);
    } else {
      LoopLooks(was, n - 1);
      var l := LoopAfter(was, n - 1);
      LoopLook(was, l, HEIGHT - HIDDEN - n + 1);
    }
  }

  /** One row that has not been looked at before. */
  lemma LoopLook(was: Grid, l: Loop, m: nat)
    requires Sized(was) && 0 < m && Clearing(was, l.now, l.counter, m) && l.i == HIDDEN + l.counter + m - 1
    ensures var l' := LoopStep(l);
            Clearing(was, l'.now, l'.counter, m - 1) && l'.i == HIDDEN + l'.counter + (m - 1) - 1
  {
    hide Clearing, ShiftedDown, Full, Sized;
    ClearingRow(was, l.now, l.counter, m, l.i);
    if Full(l.now[l.i]) {
      ClearingDrop(was, l.now, l.counter, m, l.i);
    } else {
      ClearingKeep(was, l.now, l.counter, m);
    }
  }

  /** On a grid that is not clearable the loop comes to a row that stays full after every shift: it never
      ends. */
  lemma {:induction false} LoopNeverEnds(was: Grid, full: nat, n: nat)
    requires Sized(was) && !Clearable(was) && full == HEIGHT - HIDDEN <= n
    ensures var first, l := LoopAfter(was, full), LoopAfter(was, n);
            && l.now == first.now && l.i == first.i && HIDDEN <= l.i < |l.now|
            && Full(l.now[l.i]) && ShiftedDown(l.now, l.i) == l.now
  {
    hide Clearable, Clearing, Full, ShiftedDown, Sized;
    if n == full {
      LoopLooks(was, n);
      var l := LoopAfter(was, n);
      ClearingForEver(was, l.now, l.counter, l.i);
    } else {
      LoopNeverEnds(was, full, n - 1);
    }
  }

  /** A grid on which it does not end: every row is full. */
  lemma FullGridGoesOn(n: nat)
    requires n >= HEIGHT - HIDDEN
    ensures var was := Copies(seq(WIDTH, _ => 1), HEIGHT);
            Sized(was) && !Clearable(was) && HIDDEN <= LoopAfter(was, n).i
  {
    var row: Row := seq(WIDTH, _ => 1);
    var was := Copies(row, HEIGHT);
    var visible := was[HIDDEN..];
    assert Full(was[HIDDEN - 1]) && Full(visible[0]);
    hide LoopAfter, Full;
    LoopNeverEnds(was, HEIGHT - HIDDEN, n);
  }

  /** Once a full row has been found, the row that moves down is known not to be full. */
  lemma ClearableMeaning(was: Grid, now: Grid, k: nat, m: nat)
    requires Sized(was) && Clearable(was) && Clearing(was, now, k, m) && k > 0
    ensures !Full(was[HIDDEN - 1])
  {
    var rows := was[HIDDEN..];
    assert rows == rows[..m] + rows[m..];
    FullCountConcat(rows[..m], rows[m..]);
  }

  lemma ClearingEnd(was: Grid, now: Grid, k: nat)
    requires Sized(was) && Clearing(was, now, k, 0)
    ensures k == FullCount(was[HIDDEN..]) && now == Collapsed(was)
  {
    var rows := was[HIDDEN..];
    assert rows[0..] == rows && rows[..0] == [];
  }

  // ----- the board -----

  class Board {
    const fields: array2<int>
    var activePiece: Piece
    var nextPiece: Piece
    var blocked: bool
    var lines: nat
    var score: int
    ghost var settled: Grid
    ghost var placed: nat

    /** A new board; the arguments are the random numbers drawn for the first two pieces and for the
        one after them. */
    constructor (first: nat, second: nat, third: nat)
      requires first < 7 && second < 7 && third < 7
      ensures Valid() && fresh(Repr())
      ensures State() == Game(Copies(EmptyRow(), HEIGHT), Fresh(first, START_POS),
                              Fresh(third, Point(0, 0)), 0, 0, false, 0)
    {
      hide OneOfSeven, GoodShape, Playable, Sound, Shows, Cells, GoodBody, BodiesOf, Copies, NewShape;
      StartGrid();
      fields := new int[HEIGHT, WIDTH]((_, _) => EMPTY);
      nextPiece := new Piece(first);
      activePiece := new Piece(second);
      blocked, lines, score := false, 0, 0;
      settled, placed := Copies(EmptyRow(), HEIGHT), 0;
      new;
      LoadNextPiece(third);
      StartSound(State());
      SameGrid(Colors(), settled);
      SettledShows(State());
    }

    ghost predicate Shaped() {
      fields.Length0 == HEIGHT && fields.Length1 == WIDTH
    }

    /** The grid of colors. */
    ghost function Colors(): (g: Grid)
      requires Shaped()
      reads fields
      ensures Sized(g)
    {
      seq(HEIGHT, y requires 0 <= y < HEIGHT && Shaped() reads fields =>
        seq(WIDTH, x requires 0 <= x < WIDTH && 0 <= y < HEIGHT && Shaped() reads fields =>
          fields[y, x]))
    }

    ghost function State(): Game
      reads this, activePiece, nextPiece
    {
      Game(settled, activePiece.Value(), nextPiece.Value(), lines, score, blocked, placed)
    }

    ghost predicate Valid()
      reads this, fields, activePiece, nextPiece
    {
      && Shaped() && activePiece != nextPiece && activePiece.Valid() && nextPiece.Valid()
      && Sound(State()) && Shows(Colors(), State())
    }

    ghost function Repr(): set<object>
      reads this
    {
      {this, fields, activePiece, nextPiece}
    }

    /** Sets one field. */
    method SetField(x: int, y: int, color: int)
      requires Shaped() && Inside(Point(x, y))
      modifies fields
      ensures Colors() == Painted1(old(Colors()), Point(x, y), color)
    {
      fields[y, x] := color;
      SameGrid(Colors(), Painted1(old(Colors()), Point(x, y), color));
    }

    /** Draws one field, if it is visible. */
    method RedrawField(x: int, y: int, color: int)
      requires Shaped() && Inside(Point(x, y))
      modifies fields
      ensures Colors() == if HIDDEN <= y then Painted1(old(Colors()), Point(x, y), color) else old(Colors())
    {
      if HIDDEN <= y {
        SetField(x, y, color);
      }
    }

    method MarkFieldsOccupiedByPiece(color: int)
      requires Shaped() && activePiece.Valid() && AllInside(Spots(activePiece.Value()))
      modifies fields
      ensures Recolored(old(Colors()), Colors(), Spots(activePiece.Value()), color, 0)
    {
      hide OneOfSeven;
      ghost var ps, was := Spots(activePiece.Value()), Colors();
      var i := 0;
      while i < 4
        invariant 0 <= i <= 4 && |ps| == 4 && Recolored(was, Colors(), ps[..i], color, 0)
        modifies fields
      {
        var p := activePiece.bodies[activePiece.body][i];
        ghost var now := Colors();
        assert ps[i] == Point(p.x + activePiece.pos.x, p.y + activePiece.pos.y);
        SetField(p.x + activePiece.pos.x, p.y + activePiece.pos.y, color);
        RecoloredStep(was, now, Colors(), ps, i, color, 0);
        i := i + 1;
      }
      assert ps[..4] == ps;
    }

    method DrawFieldsOccupiedByPiece(color: int)
      requires Shaped() && activePiece.Valid() && AllInside(Spots(activePiece.Value()))
      modifies fields
      ensures Recolored(old(Colors()), Colors(), Spots(activePiece.Value()), color, HIDDEN)
    {
      hide OneOfSeven;
      ghost var ps, was := Spots(activePiece.Value()), Colors();
      var i := 0;
      while i < 4
        invariant 0 <= i <= 4 && |ps| == 4 && Recolored(was, Colors(), ps[..i], color, HIDDEN)
        modifies fields
      {
        var p := activePiece.bodies[activePiece.body][i];
        ghost var now := Colors();
        assert ps[i] == Point(p.x + activePiece.pos.x, p.y + activePiece.pos.y);
        RedrawField(p.x + activePiece.pos.x, p.y + activePiece.pos.y, color);
        RecoloredStep(was, now, Colors(), ps, i, color, HIDDEN);
        i := i + 1;
      }
      assert ps[..4] == ps;
    }

    /** Whether the cells the piece would cover after a move are on the board and empty. */
    method IsMovePossible(x: int, y: int) returns (possible: bool)
      requires Shaped() && activePiece.Valid()
      ensures possible == Free(Colors(), Spots(Shifted(activePiece.Value(), x, y)))
    {
      hide OneOfSeven;
      ghost var ps := Spots(Shifted(activePiece.Value(), x, y));
      var i := 0;
      while i < 4
        invariant 0 <= i <= 4 == |ps|
        invariant forall j :: 0 <= j < i ==> Inside(ps[j]) && Colors()[ps[j].y][ps[j].x] == EMPTY
      {
        var p := activePiece.bodies[activePiece.body][i];
        var fx, fy := p.x + activePiece.pos.x + x, p.y + activePiece.pos.y + y;
        assert ps[i] == Point(fx, fy);
        if fx < 0 || fx >= WIDTH || fy < 0 || fy >= HEIGHT || fields[fy, fx] != EMPTY {
          return false;
        }
        i := i + 1;
      }
      possible := true;
    }

    // ----- full lines -----

    method IsLineFull(i: nat) returns (full: bool)
      requires Shaped() && i < HEIGHT
      ensures full == Full(Colors()[i])
    {
      full := true;
      var j := 0;
      while j < WIDTH
        invariant 0 <= j <= WIDTH && full && forall x :: 0 <= x < j ==> Colors()[i][x] != EMPTY
      {
        if fields[i, j] == EMPTY {
          assert Colors()[i][j] == EMPTY;
          return false;
        }
        j := j + 1;
      }
    }

    /** Redraws row `j` in the colors of the row above, if it is visible. */
    method CopyRowDown(j: nat)
      requires Shaped() && 0 < j < HEIGHT
      modifies fields
      ensures Colors() == if HIDDEN <= j then old(Colors())[j := old(Colors())[j - 1]] else old(Colors())
    {
      ghost var was := Colors();
      ghost var row := was[j];
      var k := 0;
      while k < WIDTH
        invariant 0 <= k <= WIDTH && |row| == WIDTH && row[..k] == was[j - 1][..k]
        invariant Colors() == if HIDDEN <= j then was[j := row] else was
        modifies fields
      {
        RedrawField(k, j, fields[j - 1, k]);
        row := row[k := was[j - 1][k]];
        k := k + 1;
      }
      assert row == was[j - 1];
    }

    /** Redraws row `i` in black. */
    method BlackenRow(i: nat) returns (ghost row: Row)
      requires Shaped() && HIDDEN <= i < HEIGHT
      modifies fields
      ensures Colors() == old(Colors())[i := row]
    {
      ghost var was := Colors();
      row := was[i];
      var j := 0;
      while j < WIDTH
        invariant 0 <= j <= WIDTH && |row| == WIDTH && Colors() == was[i := row]
        modifies fields
      {
        RedrawField(j, i, EMPTY);
        row := row[j := EMPTY];
        j := j + 1;
      }
    }

    /** Moves the rows above row `i` down by one. */
    method ShiftRows(i: nat)
      requires Shaped() && HIDDEN <= i < HEIGHT
      modifies fields
      ensures Colors() == ShiftedDown(old(Colors()), i)
    {
      ghost var was := Colors();
      ShiftedFrom(was, i);
      var j := i;
      while j > 0
        invariant 0 <= j <= i && Colors() == Shifting(was, i, j)
        modifies fields
      {
        ShiftingStep(was, i, j);
        CopyRowDown(j);
        j := j - 1;
      }
    }

    /** Looks at row `i`; a full one goes, and the rows above move down onto it. */
    method LookAtRow(i: nat, ghost was: Grid, ghost counter: nat, ghost m: nat) returns (full: bool)
      requires Shaped() && Sized(was) && Clearable(was) && HIDDEN <= i < HEIGHT
      requires Clearing(was, Colors(), counter, m)
      requires if m > 0 then i == HIDDEN + counter + m - 1 else i < HIDDEN + counter
      modifies fields
      ensures full ==> m > 0 && Clearing(was, Colors(), counter + 1, m - 1)
      ensures !full ==> Clearing(was, Colors(), counter, if m > 0 then m - 1 else 0)
    {
      hide ShiftedDown, Clearing, Clearable, Full, FullCount, Remaining, Sized;
      ghost var now := Colors();
      ClearingRow(was, now, counter, m, i);
      if counter > 0 {
        ClearableMeaning(was, now, counter, m);
      }
      full := IsLineFull(i);
      if full {
        ClearingDrop(was, now, counter, m, i);
        ghost var row := BlackenRow(i);
        ShiftIgnores(now, i, row);
        ShiftRows(i);
      } else if m > 0 {
        ClearingKeep(was, now, counter, m);
      }
    }

    /** Removes the full lines; a row is looked at again after the rows above have moved down onto
        it. */
    method CheckAndRemoveLines()
      requires Shaped() && Clearable(Colors())
      modifies this`lines, this`score, fields
      ensures Colors() == Collapsed(old(Colors()))
      ensures var k := FullCount(old(Colors())[HIDDEN..]);
              lines == old(lines) + k && score == old(score) + LineScore(k)
    {
      hide ShiftedDown, Clearing, Clearable, Full, FullCount, Remaining, Collapsed, Sized;
      ghost var was := Colors();
      ghost var m: nat := HEIGHT - HIDDEN;
      ClearingStart(was);
      var i, counter := HEIGHT - 1, 0;
      while i >= HIDDEN
        invariant HIDDEN - 1 <= i < HEIGHT && Clearing(was, Colors(), counter, m)
        invariant if m > 0 then i == HIDDEN + counter + m - 1 else i < HIDDEN + counter
        modifies fields
        decreases m, i
      {
        var lineWasFull := LookAtRow(i, was, counter, m);
        if lineWasFull {
          i := i + 1;
          counter := counter + 1;
        }
        m := if m > 0 then m - 1 else 0;
        i := i - 1;
      }
      ClearingEnd(was, Colors(), counter);
      lines := lines + counter;
      if counter != 0 {
        score := score + 100 * Pow2(counter - 1);
        score := score + 50 * LEVEL;
      }
    }

    // ----- pieces on the board -----

    method LoadNextPiece(kind: nat)
      requires activePiece != nextPiece && activePiece.Valid() && NewShape(nextPiece.Value()) && kind < 7
      modifies this`activePiece, this`nextPiece, activePiece, nextPiece
      ensures activePiece == old(nextPiece) && nextPiece == old(activePiece)
      ensures activePiece.Value() == old(nextPiece.Value()).(pos := START_POS)
      ensures old(nextPiece.Valid()) ==> activePiece.Valid()
      ensures nextPiece.Valid() && nextPiece.Value() == Fresh(kind, old(activePiece.pos))
      ensures NewShape(nextPiece.Value())
    {
      var tmp := activePiece;
      activePiece := nextPiece;
      nextPiece := tmp;
      nextPiece.Randomize(kind);
      activePiece.pos := START_POS;
    }

    method IsGameOver() returns (over: bool)
      requires Shaped() && activePiece.Valid() && Playable(State())
      ensures over == SticksOut(State())
    {
      ghost var ps := Spots(activePiece.Value());
      var i := 0;
      while i < 4
        invariant 0 <= i <= 4 && forall j :: 0 <= j < i ==> ps[j].y >= HIDDEN
      {
        assert ps[i].y == activePiece.bodies[activePiece.body][i].y + activePiece.pos.y;
        if activePiece.bodies[activePiece.body][i].y + activePiece.pos.y < HIDDEN {
          return true;
        }
        i := i + 1;
      }
      over := false;
    }

    /** The piece settles, full lines go, and the next piece comes. */
    method Settle(kind: nat)
      requires Shaped() && activePiece != nextPiece && activePiece.Valid() && nextPiece.Valid()
      requires Sound(State()) && !SticksOut(State()) && kind < 7
      requires Colors() == Painted(settled, Spots(activePiece.Value()), activePiece.color)
      modifies Repr()
      ensures Valid() && Repr() == old(Repr())
      ensures State() == Settled(old(State()), Fresh(kind, old(activePiece.pos)))
    {
      hide OneOfSeven, Free, Playable, GoodShape, HiddenEmpty, NoRowFull, Cells, Painted, Collapsed, Fresh, Shows,
           SticksOut, FullCount, LineScore, GoodBody, Sound, NewShape, Settled, Clearable;
      ghost var g := State();
      TablesAreGood(kind, activePiece.pos);
      SettledParts(g, Colors(), Fresh(kind, activePiece.pos));
      CheckAndRemoveLines();
      settled, placed := Colors(), placed + 1;
      LoadNextPiece(kind);
    }

    /** The piece has come down: the game is over when it sticks out; otherwise it settles. */
    method PlacePiece(kind: nat)
      requires Shaped() && activePiece != nextPiece && activePiece.Valid() && nextPiece.Valid()
      requires Sound(State()) && kind < 7
      requires Colors() == Painted(settled, Spots(activePiece.Value()), activePiece.color)
      modifies Repr()
      ensures Valid() && Repr() == old(Repr())
      ensures State() == if SticksOut(old(State())) then old(State()).(blocked := true)
                         else Settled(old(State()), Fresh(kind, old(activePiece.pos)))
    {
      hide OneOfSeven, Free, Playable, NewShape, GoodShape, HiddenEmpty, NoRowFull, Cells, Painted, Collapsed, Shows,
           Settled, SticksOut;
      ghost var g := State();
      var over := IsGameOver();
      if over {
        blocked := true;
        PaintedShows(g);
        SameSoundness(g, State());
      } else {
        Settle(kind);
      }
    }

    /** Takes the active piece off the grid. */
    method Lift()
      requires Valid()
      modifies fields
      ensures Colors() == settled
    {
      ghost var was := Colors();
      MarkFieldsOccupiedByPiece(EMPTY);
      ErasedIsSettled(was, Colors(), State());
    }

    /** Moves the piece, which is not on the grid, and draws its visible part in the new place. */
    method Redraw(dx: int, dy: int)
      requires Valid() && Colors() == settled
      requires Free(settled, Spots(Shifted(activePiece.Value(), dx, dy)))
      modifies fields, activePiece
      ensures Valid() && State() == old(State()).(active := Shifted(old(activePiece.Value()), dx, dy))
    {
      hide OneOfSeven, Shows, Recolored, Cells, HiddenEmpty, NoRowFull, GoodBody, NewShape, Full;
      DrawFieldsOccupiedByPiece(EMPTY);
      ErasedAgain(Colors(), State());
      activePiece.pos := Point(activePiece.pos.x + dx, activePiece.pos.y + dy);
      SettledShows(State());
      DrawFieldsOccupiedByPiece(activePiece.color);
      DrawnShows(settled, Colors(), State(), HIDDEN);
    }

    /** Draws all of the piece. */
    method Remark()
      requires Valid()
      modifies fields
      ensures Valid()
    {
      hide OneOfSeven, Shows, Recolored, Cells, HiddenEmpty, NoRowFull;
      ghost var now := Colors();
      MarkFieldsOccupiedByPiece(activePiece.color);
      DrawnShows(now, Colors(), State(), 0);
    }

    /** Moves the piece to the left (-1) or to the right (1), if there is room. */
    method MovePiece(dx: int)
      requires Valid()
      modifies fields, activePiece
      ensures Valid() && State() == Moved(old(State()), dx)
    {
      hide OneOfSeven, Shows, Recolored, Cells, HiddenEmpty, NoRowFull, Playable, Free;
      Lift();
      SettledShows(State());
      var possible := IsMovePossible(dx, 0);
      if possible {
        Redraw(dx, 0);
      }
      Remark();
    }

    /** Turns the piece, if there is room. */
    method RotatePiece()
      requires Valid()
      modifies fields, activePiece
      ensures Valid() && State() == Rotated(old(State()))
    {
      hide OneOfSeven, Shows, Recolored, Cells, HiddenEmpty, NoRowFull;
      ghost var g := State();
      Lift();
      activePiece.RotateCW();
      var possible := IsMovePossible(0, 0);
      assert Shifted(activePiece.Value(), 0, 0) == activePiece.Value();
      activePiece.RotateCCW();
      TurnedOnce(activePiece.Value(), g.active);
      SettledShows(State());
      if possible {
        DrawFieldsOccupiedByPiece(EMPTY);
        ErasedAgain(Colors(), State());
        activePiece.RotateCW();
        SettledShows(State());
        DrawFieldsOccupiedByPiece(activePiece.color);
        DrawnShows(settled, Colors(), State(), HIDDEN);
      } else {
        Remark();
      }
    }

    /** Moves the piece down by one row, or lets it settle; `kind` is the random number drawn for the
        piece after the next. */
    method MovePieceDown(kind: nat) returns (moved: bool)
      requires Valid() && kind < 7
      modifies Repr()
      ensures Valid() && Repr() == old(Repr()) && moved == CanFall(old(State()))
      ensures State() == Fallen(old(State()), Fresh(kind, old(activePiece.pos)))
      ensures moved ==> activePiece == old(activePiece)
    {
      hide OneOfSeven, Shows, Recolored, Cells, HiddenEmpty, NoRowFull, Free, Settled, Painted, SticksOut;
      Lift();
      SettledShows(State());
      moved := IsMovePossible(0, 1);
      if moved {
        Redraw(0, 1);
      } else {
        MarkFieldsOccupiedByPiece(activePiece.color);
        RecoloredIsPainted(settled, Colors(), Spots(activePiece.Value()), activePiece.color);
        PlacePiece(kind);
      }
    }

    /** Lets the piece fall as far as it can and settle. */
    method DropPiece(kind: nat)
      requires Valid() && kind < 7
      modifies Repr()
      ensures Valid() && Repr() == old(Repr())
      ensures var low := Shifted(old(activePiece.Value()), 0, Fall(old(State())));
              State() == Dropped(old(State()), Fresh(kind, low.pos))
    {
      hide OneOfSeven, Sound, Shows, Fallen, Playable, CanFall, Free;
      SameSoundness(State(), State());
      ghost var g, n := State(), Fall(State());
      var height := 0;
      StillFalling(g, 0);
      var moved := MovePieceDown(kind);
      while moved
        invariant Valid() && Repr() == old(Repr())
        invariant moved == (height < n) && height <= n
        invariant moved ==> State() == g.(active := Shifted(g.active, 0, height + 1))
        invariant !moved ==> State() == Fallen(g.(active := Shifted(g.active, 0, n)),
                                               Fresh(kind, Shifted(g.active, 0, n).pos))
        decreases n - height
      {
        height := height + 1;
        StillFalling(g, height);
        moved := MovePieceDown(kind);
      }
      ghost var landed := State();
      score := score + 2 * height;
      SameSoundness(landed, State());
    }
  }

  /** What is needed to let a piece settle, and what comes of it. */
  lemma SettledParts(g: Game, colors: Grid, chosen: Shape)
    requires Sound(g) && !SticksOut(g) && NewShape(chosen)
    requires colors == Painted(g.settled, Spots(g.active), g.active.color)
    ensures Sized(colors) && Clearable(colors) && NewShape(g.next)
    ensures var k := FullCount(colors[HIDDEN..]);
            Settled(g, chosen) == Game(Collapsed(colors), g.next.(pos := START_POS), chosen, g.lines + k,
                                       g.score + LineScore(k), g.blocked, g.placed + 1)
    ensures Sound(Settled(g, chosen)) && Sized(Collapsed(colors)) && Shows(Collapsed(colors), Settled(g, chosen))
  {
    HiddenStaysEmpty(g);
    HiddenNotFull(colors);
    SettledSound(g, chosen);
    SettledShows(Settled(g, chosen));
    CollapsedSized(colors);
  }

  lemma SameSoundness(g: Game, g': Game)
    requires Sound(g) && g' == g.(score := g'.score, blocked := g'.blocked)
    ensures Sound(g') && Playable(g')
    ensures forall grid :: Sized(grid) && Shows(grid, g) ==> Shows(grid, g')
  {
  }

  lemma FreeInside(g: Grid, ps: seq<Point>)
    requires Sized(g) && Free(g, ps)
    ensures AllInside(ps)
  {
  }

  lemma StillFalling(g: Game, height: nat)
    requires Playable(g) && height <= Fall(g)
    ensures var low := g.(active := Shifted(g.active, 0, height));
            && Playable(low) && CanFall(low) == (height < Fall(g))
            && (CanFall(low) ==> forall chosen :: Fallen(low, chosen) == g.(active := Shifted(g.active, 0, height + 1)))
    ensures Shifted(g.active, 0, 0) == g.active
  {
    hide Free, Fall;
    var low := g.(active := Shifted(g.active, 0, height));
    FallMeaning(g);
    assert Shifted(low.active, 0, 1) == Shifted(g.active, 0, height + 1);
    if 0 < height {
      FreeInside(g.settled, Spots(low.active));
    } else {
      assert low == g;
    }
  }

  lemma TurnedOnce(a: Shape, b: Shape)
    requires GoodShape(a) && GoodShape(b) && Turned(a) == Turned(b)
    ensures a == b
  {
  }

  /** Drawing the cells of a piece black, where nothing has settled, changes nothing. */
  lemma ErasedAgain(after: Grid, g: Game)
    requires Sound(g) && Sized(after)
    requires Recolored(g.settled, after, Spots(g.active), EMPTY, HIDDEN)
    ensures after == g.settled
  {
    forall y, x | 0 <= y < HEIGHT && 0 <= x < WIDTH
      ensures after[y][x] == g.settled[y][x]
    {
      if Point(x, y) in Spots(g.active) {
        var i :| 0 <= i < |Spots(g.active)| && Spots(g.active)[i] == Point(x, y);
        assert g.settled[y][x] == EMPTY;
      }
    }
    SameGrid(after, g.settled);
  }

  lemma PaintedShows(g: Game)
    requires Sound(g)
    ensures Shows(Painted(g.settled, Spots(g.active), g.active.color), g)
  {
    forall y, x | 0 <= y < HEIGHT && 0 <= x < WIDTH
      ensures Painted(g.settled, Spots(g.active), g.active.color)[y][x] ==
              if Point(x, y) in Spots(g.active) then g.active.color else g.settled[y][x]
    {
      PaintedAt(g.settled, Spots(g.active), g.active.color, x, y);
    }
  }

  lemma HiddenNotFull(g: Grid)
    requires Sized(g) && HiddenEmpty(g)
    ensures !Full(g[HIDDEN - 1])
  {
    assert EmptyRow()[0] == EMPTY;
  }

  /** The row that goes does not matter to the shift. */
  lemma ShiftIgnores(g: Grid, i: nat, row: Row)
    requires HIDDEN <= i < |g|
    ensures ShiftedDown(g[i := row], i) == ShiftedDown(g, i)
  {
  }
}
