/** The rules of the game: the settled cells, the piece that falls, and what each move does. */
module TetrisRules {

  const HEIGHT := 22
  const WIDTH := 10

  /** The rows above the visible board, where pieces appear. */
  const HIDDEN := 2
  const EMPTY := 0

  datatype Point = Point(x: int, y: int)
  type Body = seq<Point>
  type Row = seq<int>
  type Grid = seq<Row>

  /** A piece: its four rotations, the one in use, its color and where it is. */
  datatype Shape = Shape(bodies: seq<Body>, rotation: nat, color: int, pos: Point)

  /** `settled` is the board without the active piece, and `placed` counts the pieces in it. */
  datatype Game = Game(settled: Grid, active: Shape, next: Shape, lines: nat, score: int,
                       blocked: bool, placed: nat)

  // ----- pieces -----

  ghost predicate GoodBody(b: Body) {
    && |b| == 4
    && (forall i :: 0 <= i < 4 ==> 0 <= b[i].x < 4 && 0 <= b[i].y < 4)
    && (forall i, j :: 0 <= i < j < 4 ==> b[i] != b[j])
  }

  ghost predicate GoodShape(s: Shape) {
    && |s.bodies| == 4 && s.rotation < 4 && s.color != EMPTY
    && forall r :: 0 <= r < 4 ==> GoodBody(s.bodies[r])
  }

  /** A piece as it is when it has just been chosen: unrotated, which makes it two rows high at most. */
  ghost predicate NewShape(s: Shape) {
    && GoodShape(s) && s.rotation == 0
    && forall i :: 0 <= i < 4 ==> s.bodies[0][i].y < HIDDEN
  }

  function SpotsOf(b: Body, pos: Point): (ps: seq<Point>)
    ensures |ps| == |b|
  {
    seq(|b|, i requires 0 <= i < |b| => Point(b[i].x + pos.x, b[i].y + pos.y))
  }

  /** The cells a piece covers. */
  function Spots(s: Shape): seq<Point>
    requires s.rotation < |s.bodies|
  {
    SpotsOf(s.bodies[s.rotation], s.pos)
  }

  function Shifted(s: Shape, dx: int, dy: int): Shape {
    s.(pos := Point(s.pos.x + dx, s.pos.y + dy))
  }

  function Turned(s: Shape): Shape {
    s.(rotation := (s.rotation + 1) % 4)
  }

  // ----- the grid -----

  ghost predicate Sized(g: Grid) {
    |g| == HEIGHT && forall y :: 0 <= y < HEIGHT ==> |g[y]| == WIDTH
  }

  predicate Inside(p: Point) {
    0 <= p.x < WIDTH && 0 <= p.y < HEIGHT
  }

  /** All cells are on the board and empty. */
  ghost predicate Free(g: Grid, ps: seq<Point>)
    requires Sized(g)
  {
    forall i :: 0 <= i < |ps| ==> Inside(ps[i]) && g[ps[i].y][ps[i].x] == EMPTY
  }

  ghost predicate AllInside(ps: seq<Point>) {
    forall i :: 0 <= i < |ps| ==> Inside(ps[i])
  }

  function Painted1(g: Grid, p: Point, color: int): Grid
    requires 0 <= p.y < |g| && 0 <= p.x < |g[p.y]|
  {
    g[p.y := g[p.y][p.x := color]]
  }

  /** The grid with the cells `ps` in one color. */
  ghost function Painted(g: Grid, ps: seq<Point>, color: int): (g': Grid)
    requires Sized(g) && AllInside(ps)
    ensures Sized(g')
  {
    if ps == [] then g
    else Painted1(Painted(g, ps[..|ps| - 1], color), ps[|ps| - 1], color)
  }

  predicate Full(row: Row) {
    EMPTY !in row
  }

  function Remaining(rows: seq<Row>): (kept: seq<Row>)
    ensures |kept| <= |rows|
    ensures forall row :: row in kept <==> row in rows && !Full(row)
  {
    if rows == [] then []
    else (if Full(rows[0]) then [] else [rows[0]]) + Remaining(rows[1..])
  }

  function FullCount(rows: seq<Row>): (k: nat)
    ensures k + |Remaining(rows)| == |rows|
  {
    if rows == [] then 0 else (if Full(rows[0]) then 1 else 0) + FullCount(rows[1..])
  }

  function Copies(row: Row, n: nat): (rows: seq<Row>)
    ensures |rows| == n && forall i :: 0 <= i < n ==> rows[i] == row
  {
    seq(n, _ => row)
  }

  function EmptyRow(): (row: Row)
    ensures |row| == WIDTH
  {
    seq(WIDTH, _ => EMPTY)
  }

  /** The visible rows that are not full, in order and at the bottom, below as many copies of the last
      hidden row as there were full ones. */
  function Collapsed(g: Grid): Grid
    requires |g| == HEIGHT
  {
    var visible := g[HIDDEN..];
    g[..HIDDEN] + Copies(g[HIDDEN - 1], FullCount(visible)) + Remaining(visible)
  }

  lemma CollapsedSized(g: Grid)
    requires Sized(g)
    ensures Sized(Collapsed(g))
  {
    var visible := g[HIDDEN..];
    forall row | row in Remaining(visible)
      ensures |row| == WIDTH
    {
      var y :| 0 <= y < |visible| && visible[y] == row;
      assert row == g[y + HIDDEN];
    }
  }

  // ----- the moves -----

  function Pow2(n: nat): nat {
    if n == 0 then 1 else 2 * Pow2(n - 1)
  }

  const LEVEL := 1

  function LineScore(k: nat): nat {
    if k == 0 then 0 else 100 * Pow2(k - 1) + 50 * LEVEL
  }

  const START_POS := Point(4, 0)

  ghost predicate Playable(g: Game) {
    && Sized(g.settled) && GoodShape(g.active) && AllInside(Spots(g.active))
  }

  /** A move sideways, when there is room. */
  ghost function Moved(g: Game, dx: int): Game
    requires Playable(g)
  {
    if Free(g.settled, Spots(Shifted(g.active, dx, 0))) then g.(active := Shifted(g.active, dx, 0)) else g
  }

  ghost function Rotated(g: Game): Game
    requires Playable(g)
  {
    if Free(g.settled, Spots(Turned(g.active))) then g.(active := Turned(g.active)) else g
  }

  ghost predicate CanFall(g: Game)
    requires Playable(g)
  {
    Free(g.settled, Spots(Shifted(g.active, 0, 1)))
  }

  /** Some cell of the active piece is above the visible board. */
  ghost predicate SticksOut(g: Game)
    requires Playable(g)
  {
    exists i :: 0 <= i < 4 && Spots(g.active)[i].y < HIDDEN
  }

  /** The piece settles, full lines go, and the next piece comes; `chosen` is the one after it. */
  ghost function Settled(g: Game, chosen: Shape): Game
    requires Playable(g)
  {
    var painted := Painted(g.settled, Spots(g.active), g.active.color);
    var k := FullCount(painted[HIDDEN..]);
    Game(Collapsed(painted), g.next.(pos := START_POS), chosen, g.lines + k, g.score + LineScore(k),
         g.blocked, g.placed + 1)
  }

  /** One step down; a piece that cannot fall settles, or ends the game when it sticks out. */
  ghost function Fallen(g: Game, chosen: Shape): Game
    requires Playable(g)
  {
    if CanFall(g) then g.(active := Shifted(g.active, 0, 1))
    else if SticksOut(g) then g.(blocked := true)
    else Settled(g, chosen)
  }

  /** How far the piece can fall. */
  ghost function Fall(g: Game): (n: nat)
    requires Playable(g)
    ensures Playable(g.(active := Shifted(g.active, 0, n)))
    decreases HEIGHT - g.active.pos.y
  {
    if CanFall(g) then
      LowerInside(g);
      var n := 1 + Fall(g.(active := Shifted(g.active, 0, 1)));
      assert Shifted(Shifted(g.active, 0, 1), 0, n - 1) == Shifted(g.active, 0, n);
      n
    else
      assert Shifted(g.active, 0, 0) == g.active;
      0
  }

  lemma LowerInside(g: Game)
    requires Playable(g) && CanFall(g)
    ensures Playable(g.(active := Shifted(g.active, 0, 1)))
    ensures g.active.pos.y < HEIGHT
  {
    var b := g.active.bodies[g.active.rotation];
    assert GoodBody(b);
    assert Inside(Spots(Shifted(g.active, 0, 1))[0]);
  }

  /** The piece falls as far as it can and settles. */
  ghost function Dropped(g: Game, chosen: Shape): Game
    requires Playable(g)
  {
    var n := Fall(g);
    var landed := Fallen(g.(active := Shifted(g.active, 0, n)), chosen);
    landed.(score := landed.score + 2 * n)
  }
}
