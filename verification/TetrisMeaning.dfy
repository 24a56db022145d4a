/** What the moves of the game mean on the board, in plain numbers. */
module TetrisMeaning {
  import opened TetrisRules
  import opened TetrisLaws
  import opened TetrisBoard

  // ----- the pieces -----

  /** A piece as it is drawn when unrotated; the first two rows of the four by four box. */
  function Picture(kind: nat): seq<string>
    requires kind < 7
  {
    match kind
    case 0 => ["    ",
               "XXXX"]
    case 1 => ["X   ",
               "XXX "]
    case 2 => ["  X ",
               "XXX "]
    case 3 => [" XX ",
               " XX "]
    case 4 => [" XX ",
               "XX  "]
    case 5 => [" X  ",
               "XXX "]
    case _ => ["XX  ",
               " XX "]
  }

  predicate Drawn(picture: seq<string>, x: int, y: int) {
    0 <= y < |picture| && 0 <= x < |picture[y]| && picture[y][x] == 'X'
  }

  /** An unrotated piece covers the cells of its picture, moved to its position. */
  lemma PictureMeaning(kind: nat, pos: Point, p: Point)
    requires kind < 7
    ensures p in Spots(Fresh(kind, pos)) <==> Drawn(Picture(kind), p.x - pos.x, p.y - pos.y)
  {
    var b := BodiesOf(kind)[0];
    var q := Point(p.x - pos.x, p.y - pos.y);
    InSpots(b, pos, p);
    PictureTable(kind, q);
  }

  lemma PictureTable(kind: nat, q: Point)
    requires kind < 7
    ensures q in BodiesOf(kind)[0] <==> Drawn(Picture(kind), q.x, q.y)
  {
    match kind {
      case 0 => case 1 => case 2 => case 3 => case 4 => case 5 => case _ =>
    }
  }

  /** A body at a position covers the places that are as far from the position as its cells from the corner of
      the box. */
  lemma InSpots(b: Body, pos: Point, p: Point)
    ensures p in SpotsOf(b, pos) <==> Point(p.x - pos.x, p.y - pos.y) in b
  {
    if Point(p.x - pos.x, p.y - pos.y) in b {
      var i :| 0 <= i < |b| && b[i] == Point(p.x - pos.x, p.y - pos.y);
      assert SpotsOf(b, pos)[i] == p;
    }
  }

  /** Where the corner of the box goes when a piece of this kind turns. */
  function Corner(kind: nat): Point {
    if kind == 0 then Point(3, 0) else if kind == 3 then Point(2, -1) else Point(2, 0)
  }

  /** The kinds have different colors, and none is black. */
  lemma ColorsDiffer()
    ensures |PIECE_COLORS| == 7 && forall i, j :: 0 <= i < j < 7 ==> PIECE_COLORS[i] != PIECE_COLORS[j]
    ensures forall i :: 0 <= i < 7 ==> 0 < PIECE_COLORS[i] < 16
  {
  }

  /** Rotating turns a piece clockwise by a quarter: on the board, whose rows are counted downwards, the cell that
      is (x, y) from the position is afterwards -y to the right and x down from where the corner has gone. */
  lemma QuarterTurn(kind: nat, s: Shape, p: Point)
    requires kind < 7 && s.bodies == BodiesOf(kind) && s.rotation < 4
    ensures p in Spots(s) <==>
            Point(s.pos.x + Corner(kind).x - (p.y - s.pos.y), s.pos.y + Corner(kind).y + (p.x - s.pos.x))
              in Spots(Turned(s))
  {
    hide BodiesOf, SpotsOf;
    var b, b' := s.bodies[s.rotation], s.bodies[(s.rotation + 1) % 4];
    var q := Point(p.x - s.pos.x, p.y - s.pos.y);
    var c := Corner(kind);
    InSpots(b, s.pos, p);
    InSpots(b', s.pos, Point(s.pos.x + c.x - q.y, s.pos.y + c.y + q.x));
    TurnedTable(kind, s.rotation, q);
  }

  lemma TurnedTable(kind: nat, r: nat, q: Point)
    requires kind < 7 && r < 4
    ensures q in BodiesOf(kind)[r] <==>
            Point(Corner(kind).x - q.y, Corner(kind).y + q.x) in BodiesOf(kind)[(r + 1) % 4]
  {
    match kind {
      case 0 => case 1 => case 2 => case 3 => case 4 => case 5 => case _ =>
    }
  }

  // ----- moving -----

  /** The cells that are `dx` to the right of the active piece's and `dy` below them are on the board and
      empty. */
  ghost predicate Room(g: Game, dx: int, dy: int)
    requires Playable(g)
  {
    forall i :: 0 <= i < 4 ==>
      var p := Spots(g.active)[i];
      0 <= p.x + dx < 10 && 0 <= p.y + dy < 22 && g.settled[p.y + dy][p.x + dx] == 0
  }

  lemma RoomIsFree(g: Game, dx: int, dy: int)
    requires Playable(g)
    ensures Room(g, dx, dy) <==> Free(g.settled, Spots(Shifted(g.active, dx, dy)))
  {
    var ps, qs := Spots(g.active), Spots(Shifted(g.active, dx, dy));
    assert forall i :: 0 <= i < 4 ==> qs[i] == Point(ps[i].x + dx, ps[i].y + dy);
    if Free(g.settled, qs) {
      assert forall i :: 0 <= i < 4 ==> Inside(qs[i]) && g.settled[qs[i].y][qs[i].x] == EMPTY;
    }
  }

  /** The game with its piece moved, if there is room. */
  ghost function MovedIfRoom(g: Game, dx: int): Game
    requires Playable(g)
  {
    if Room(g, dx, 0) then g.(active := g.active.(pos := Point(g.active.pos.x + dx, g.active.pos.y))) else g
  }

  /** To the left is one column less, and to the right one more; without room nothing changes. */
  lemma SidewaysMeaning(g: Game)
    requires Playable(g)
    ensures Step(g, Left) == MovedIfRoom(g, -1) && Step(g, Right) == MovedIfRoom(g, 1)
  {
    RoomIsFree(g, -1, 0);
    RoomIsFree(g, 1, 0);
    hide Free, Room, Playable;
  }

  /** A piece turns when the cells it would then cover are on the board and empty. */
  lemma RotateMeaning(g: Game)
    requires Playable(g)
    ensures Step(g, Rotate) ==
            if forall p :: p in Spots(Turned(g.active)) ==>
                 0 <= p.x < 10 && 0 <= p.y < 22 && g.settled[p.y][p.x] == 0
            then g.(active := Turned(g.active)) else g
  {
    var ps := Spots(Turned(g.active));
    if Free(g.settled, ps) {
      forall p | p in ps
        ensures 0 <= p.x < 10 && 0 <= p.y < 22 && g.settled[p.y][p.x] == 0
      {
        var i :| 0 <= i < |ps| && ps[i] == p;
      }
    }
    hide Turned, Spots, GoodShape;
  }

  /** Down is one row more; a piece without room below ends the game when one of its cells is in the first two
      rows, and otherwise the next one comes at (4, 0). */
  lemma DownMeaning(g: Game, chosen: Shape)
    requires Playable(g)
    ensures var g' := Step(g, Down(chosen));
            if Room(g, 0, 1) then g' == g.(active := g.active.(pos := Point(g.active.pos.x, g.active.pos.y + 1)))
            else if exists i :: 0 <= i < 4 && Spots(g.active)[i].y < 2 then g' == g.(blocked := true)
            else g'.blocked == g.blocked && g'.placed == g.placed + 1
                 && g'.active == g.next.(pos := Point(4, 0)) && g'.next == chosen
  {
    RoomIsFree(g, 0, 1);
    hide Free, Room, Playable, Spots;
  }

  /** There is room for each row of the fall, and not for one more. */
  lemma FallRoom(g: Game)
    requires Playable(g)
    ensures (forall k :: 0 < k <= Fall(g) ==> Room(g, 0, k)) && !Room(g, 0, Fall(g) + 1)
  {
    hide Free, Room, Playable, Spots, Fall;
    FallMeaning(g);
    RoomIsFree(g, 0, Fall(g) + 1);
    forall k | 0 < k <= Fall(g)
      ensures Room(g, 0, k)
    {
      RoomIsFree(g, 0, k);
    }
  }

  /** The game with its piece `n` rows further down. */
  function Lowered(g: Game, n: nat): Game {
    g.(active := g.active.(pos := Point(g.active.pos.x, g.active.pos.y + n)))
  }

  /** A drop is as many rows down as there is room, and then one move down more. */
  lemma DropMeaning(g: Game, chosen: Shape)
    requires Playable(g)
    ensures var n := Fall(g);
            && (forall k :: 0 < k <= n ==> Room(g, 0, k)) && !Room(g, 0, n + 1)
            && Playable(Lowered(g, n))
            && var g' := Step(Lowered(g, n), Down(chosen)); Step(g, Drop(chosen)) == g'.(score := g'.score + 2 * n)
  {
    hide Free, Room, Playable, Spots, SticksOut, Settled, CanFall, Fallen, Fall;
    FallRoom(g);
    assert Shifted(g.active, 0, Fall(g)) == Lowered(g, Fall(g)).active;
  }

  /** The move lets a piece settle, or would, of which a cell is above the visible board. */
  ghost predicate EndsGame(g: Game, m: Move)
    requires Playable(g)
  {
    || (m.Down? && !Room(g, 0, 1) && exists i :: 0 <= i < 4 && Spots(g.active)[i].y < 2)
    || (m.Drop? && exists i :: 0 <= i < 4 && Spots(g.active)[i].y + Fall(g) < 2)
  }

  lemma StepEnds(g: Game, m: Move)
    requires Playable(g)
    ensures Step(g, m).blocked <==> g.blocked || EndsGame(g, m)
  {
    if m.Down? {
      DownMeaning(g, m.chosen);
      hide Room, Step, Playable, Spots;
    } else if m.Drop? {
      DropEnds(g, m.chosen);
      hide Room, Step, Playable, Spots;
    } else {
      SidewaysMeaning(g);
    }
  }

  lemma DropEnds(g: Game, chosen: Shape)
    requires Playable(g)
    ensures Step(g, Drop(chosen)).blocked <==>
            g.blocked || exists i :: 0 <= i < 4 && Spots(g.active)[i].y + Fall(g) < 2
  {
    hide Room, Fall, Step;
    DropMeaning(g, chosen);
    LoweredRoom(g, Fall(g));
    var low := Lowered(g, Fall(g));
    DownMeaning(low, chosen);
    assert forall i :: 0 <= i < 4 ==> Spots(low.active)[i].y == Spots(g.active)[i].y + Fall(g);
    hide Playable, Spots;
  }

  lemma LoweredRoom(g: Game, n: nat)
    requires Playable(g) && Playable(Lowered(g, n))
    ensures Room(Lowered(g, n), 0, 1) <==> Room(g, 0, n + 1)
  {
    var low := Lowered(g, n);
    RoomIsFree(low, 0, 1);
    RoomIsFree(g, 0, n + 1);
    assert Shifted(low.active, 0, 1) == Shifted(g.active, 0, n + 1);
    hide Free, Room, Spots;
  }

  /** The game is over exactly when a piece has come to rest that was not visible as a whole. */
  lemma {:induction false} RunEnds(states: seq<Game>, moves: seq<Move>, k: nat)
    requires IsRun(states, moves) && k < |states|
    ensures states[k].blocked <==>
            states[0].blocked || exists i :: 0 <= i < k && EndsGame(states[i], moves[i])
  {
    hide EndsGame, Step, Playable, Choice;
    if k > 0 {
      RunEnds(states, moves, k - 1);
      StepEnds(states[k - 1], moves[k - 1]);
    }
  }

  // ----- full lines -----

  /** The places of the full rows: those without an empty cell. */
  ghost function FullPlaces(rows: seq<Row>): set<nat> {
    set i: nat | i < |rows| && 0 !in rows[i]
  }

  lemma {:induction false} FullCountMeaning(rows: seq<Row>)
    ensures FullCount(rows) == |FullPlaces(rows)|
  {
    if rows != [] {
      var n := |rows| - 1;
      FullCountMeaning(rows[..n]);
      assert rows == rows[..n] + [rows[n]];
      FullCountConcat(rows[..n], [rows[n]]);
      assert FullCount([rows[n]]) == if Full(rows[n]) then 1 else 0;
      FullPlacesLast(rows);
      hide FullCount, FullPlaces, Remaining;
    }
  }

  lemma FullPlacesLast(rows: seq<Row>)
    requires rows != []
    ensures var n := |rows| - 1;
            |FullPlaces(rows)| == |FullPlaces(rows[..n])| + if 0 !in rows[n] then 1 else 0
  {
    var n := |rows| - 1;
    assert FullPlaces(rows) == FullPlaces(rows[..n]) + if 0 !in rows[n] then {n} else {};
  }

  lemma {:induction false} RemainingConcat(a: seq<Row>, b: seq<Row>)
    ensures Remaining(a + b) == Remaining(a) + Remaining(b)
  {
    if a == [] {
      assert a + b == b;
    } else {
      assert (a + b)[1..] == a[1..] + b;
      RemainingConcat(a[1..], b);
    }
  }

  /** When lines are cleared, a visible row that is not full moves down by as many rows as there are full ones
      below it. */
  lemma RowsLand(g: Grid, y: nat)
    requires Sized(g) && 2 <= y < 22 && 0 in g[y]
    ensures var k := |FullPlaces(g[y + 1..])|;
            y + k < |Collapsed(g)| && Collapsed(g)[y + k] == g[y]
  {
    Length(g);
    hide Remaining, FullCount, FullPlaces, Sized, Copies, Full, Collapsed;
    CollapsedSized(g);
    Length(Collapsed(g));
    FullCountMeaning(g[y + 1..]);
    var top := CollapsedAt(g, y);
    FromBottom(Collapsed(g), top, g[y], Remaining(g[y + 1..]));
  }

  lemma CollapsedAt(g: Grid, y: nat) returns (top: seq<Row>)
    requires |g| == 22 && 2 <= y < 22 && 0 in g[y]
    ensures Collapsed(g) == top + ([g[y]] + Remaining(g[y + 1..]))
  {
    hide Remaining, FullCount, Full, Copies;
    var above, below := g[2..y], g[y + 1..];
    RemainingAround(above, g[y], below);
    assert g[HIDDEN..] == above + ([g[y]] + below);
    top := g[..HIDDEN] + Copies(g[HIDDEN - 1], FullCount(g[HIDDEN..])) + Remaining(above);
  }

  lemma FromBottom(rows: seq<Row>, top: seq<Row>, row: Row, rest: seq<Row>)
    requires rows == top + ([row] + rest)
    ensures |rest| < |rows| && rows[|rows| - 1 - |rest|] == row
  {
  }

  lemma Length(g: Grid)
    requires Sized(g)
    ensures |g| == 22
  {
  }

  lemma RemainingAround(above: seq<Row>, row: Row, below: seq<Row>)
    requires 0 in row
    ensures Remaining(above + ([row] + below)) == Remaining(above) + ([row] + Remaining(below))
  {
    RemainingConcat(above, [row] + below);
    RemainingConcat([row], below);
    assert Remaining([row]) == [row];
  }

  /** The rows above those that have moved are copies of the second row, and the first two stay. */
  lemma TopRows(g: Grid, y: nat)
    requires Sized(g) && y < 2 + |FullPlaces(g[2..])|
    ensures y < |Collapsed(g)| && Collapsed(g)[y] == g[if y < 2 then y else 1]
  {
    FullCountMeaning(g[2..]);
    CollapsedSized(g);
    hide Remaining, FullCount, FullPlaces;
  }

  /** What settles: the active piece in its color, then the full rows go. */
  lemma SettledMeaning(g: Game, chosen: Shape)
    requires Sound(g) && !Room(g, 0, 1) && forall i :: 0 <= i < 4 ==> 2 <= Spots(g.active)[i].y
    ensures var g', landed := Step(g, Down(chosen)), Painted(g.settled, Spots(g.active), g.active.color);
            && g'.settled == Collapsed(landed)
            && g'.lines == g.lines + |FullPlaces(landed[2..])|
            && g'.score == g.score + Points(|FullPlaces(landed[2..])|)
  {
    RoomIsFree(g, 0, 1);
    AtMostFourLines(g);
    var landed := Painted(g.settled, Spots(g.active), g.active.color);
    FullCountMeaning(landed[2..]);
    PointsMeaning(FullCount(landed[2..]));
    hide Free, Room, Sound, Spots, FullCount, LineScore, Points, Painted, FullPlaces;
  }

  // ----- the score -----

  /** The points for the lines that go at once. */
  function Points(lines: int): int {
    if lines == 0 then 0
    else if lines == 1 then 150
    else if lines == 2 then 250
    else if lines == 3 then 450
    else 850
  }

  lemma PointsMeaning(k: nat)
    requires k <= 4
    ensures LineScore(k) == Points(k)
  {
    assert Pow2(0) == 1 && Pow2(1) == 2 && Pow2(2) == 4 && Pow2(3) == 8;
  }

  /** Each row that a piece is dropped brings two points, and lines bring theirs; nothing else does. */
  lemma StepScore(g: Game, m: Move)
    requires Sound(g) && Choice(m)
    ensures var g' := Step(g, m);
            && 0 <= g'.lines - g.lines <= 4
            && g'.score == g.score + Points(g'.lines - g.lines) + (if m.Drop? then 2 * Fall(g) else 0)
  {
    if m.Down? {
      FallenScore(g, m.chosen);
    } else if m.Drop? {
      FallMeaning(g);
      var low := g.(active := Shifted(g.active, 0, Fall(g)));
      assert Fall(g) == 0 ==> low == g;
      FallenScore(low, m.chosen);
    }
  }

  lemma FallenScore(g: Game, chosen: Shape)
    requires Sound(g)
    ensures var g' := Fallen(g, chosen);
            0 <= g'.lines - g.lines <= 4 && g'.score == g.score + Points(g'.lines - g.lines)
  {
    assert Points(0) == 0;
    assert Playable(g);
    hide Sound, Painted, FullCount, CanFall, SticksOut, LineScore, Points, Playable, Spots;
    AtMostFourLines(g);
    PointsMeaning(FullCount(Painted(g.settled, Spots(g.active), g.active.color)[HIDDEN..]));
  }

  /** What the first `k` moves of a run have brought. */
  ghost function Earned(states: seq<Game>, moves: seq<Move>, k: nat): int
    requires IsRun(states, moves) && k <= |moves|
  {
    if k == 0 then 0
    else Earned(states, moves, k - 1) + Points(states[k].lines - states[k - 1].lines)
         + if moves[k - 1].Drop? then 2 * Fall(states[k - 1]) else 0
  }

  /** The score of any run. */
  lemma {:induction false} RunScore(states: seq<Game>, moves: seq<Move>, k: nat)
    requires IsRun(states, moves) && Sound(states[0]) && k <= |moves|
    ensures states[k].score == states[0].score + Earned(states, moves, k)
  {
    hide Points, Fall, Sound, Step, Playable, Choice;
    if k > 0 {
      RunScore(states, moves, k - 1);
      RunSound(states, moves, k - 1);
      StepScore(states[k - 1], moves[k - 1]);
    }
  }
}
