/** The text-mode table of the console splitter, as a value.

    A splitter merges several text consoles into one virtual console.  Row `r` of its table is
    virtual mode `r`: the geometry it has, and, console by console, the mode number that console is
    put in when the virtual mode is selected (-1 when the console has none). */
module ModeTable {

  datatype Geometry = Geometry(columns: nat, rows: nat)

  /** The geometry the splitter reads as "this mode is not supported". */
  const NO_GEOMETRY := Geometry(0, 0)

  /** The geometry of the only mode of a splitter without consoles. */
  const DEFAULT_GEOMETRY := Geometry(40, 12)

  /** What a console answers to QueryMode; `left` is what a failing call leaves in its out parameters. */
  datatype Reply = Supported(size: Geometry) | Failed(left: Geometry)

  /** A console has at least mode 0. */
  type Replies = modes: seq<Reply> | |modes| > 0 witness [Failed(NO_GEOMETRY)]

  /** A physical text console: its mode table is fixed, and the object is its identity. */
  class TextOut {
    const modes: Replies

    constructor (modes: Replies)
      ensures this.modes == modes
    {
      this.modes := modes;
    }
  }

  datatype Row = Row(size: Geometry, modes: seq<int>)

  // ----- the first console -----

  /** The geometry recorded for mode `m` of the first console; a failing mode 1 is cleared. */
  function ReportedSize(d: TextOut, m: nat): Geometry
    requires m < |d.modes|
  {
    match d.modes[m]
    case Supported(size) => size
    case Failed(left) => if m == 1 then NO_GEOMETRY else left
  }

  function FirstTable(d: TextOut): seq<Row> {
    seq(|d.modes|, m requires 0 <= m < |d.modes| => Row(ReportedSize(d, m), [m]))
  }

  // ----- one more console -----

  /** The first row with geometry `size`, or |rows| when there is none. */
  function FirstMatch(rows: seq<Row>, size: Geometry): (i: nat)
    ensures i <= |rows|
    ensures i < |rows| ==> rows[i].size == size
    ensures forall j :: 0 <= j < i ==> rows[j].size != size
  {
    if rows == [] then 0
    else if rows[0].size == size then 0
    else
      var i := FirstMatch(rows[1..], size);
      assert forall j :: 0 < j < i + 1 ==> rows[j] == rows[1..][j - 1];
      i + 1
  }

  /** The table and the column of the console being added, part-way through its modes. */
  datatype Probe = Probe(rows: seq<Row>, column: seq<int>)

  /** Records mode `m` of console `d`: under the first row with its geometry, or, when it is mode 1
      and fails, under row 1, whose geometry is cleared. */
  function ProbeMode(p: Probe, d: TextOut, m: nat): (p': Probe)
    requires m < |d.modes| && |p.rows| == |p.column|
    ensures |p'.rows| == |p'.column| == |p.rows|
  {
    match d.modes[m]
    case Failed(_) =>
      if m == 1 && |p.rows| > 1 then
        Probe(p.rows[1 := p.rows[1].(size := NO_GEOMETRY)], p.column[1 := 1])
      else p
    case Supported(size) =>
      var i := FirstMatch(p.rows, size);
      if i < |p.rows| then p.(column := p.column[i := m]) else p
  }

  /** The probe after the first `n` modes of `d`. */
  function ProbeModes(rows: seq<Row>, d: TextOut, n: nat): (p: Probe)
    requires n <= |d.modes|
    ensures |p.rows| == |p.column| == |rows|
  {
    if n == 0 then Probe(rows, seq(|rows|, _ => -1))
    else ProbeMode(ProbeModes(rows, d, n - 1), d, n - 1)
  }

  /** Rows 0 and 1 are never removed; any other row needs an entry in the filter column. */
  predicate Stays(column: seq<int>, i: nat)
    requires i < |column|
  {
    i < 2 || column[i] != -1
  }

  /** The first `n` elements of `xs` that stay. */
  function Kept<T>(xs: seq<T>, column: seq<int>, n: nat): (ys: seq<T>)
    requires n <= |xs| && n <= |column|
    ensures |ys| <= n
  {
    if n == 0 then []
    else Kept(xs, column, n - 1) + (if Stays(column, n - 1) then [xs[n - 1]] else [])
  }

  /** The number of removed rows below row `n`. */
  function Removed(column: seq<int>, n: nat): (k: nat)
    requires n <= |column|
    ensures k <= n && (n <= 2 ==> k == 0)
  {
    if n == 0 then 0
    else Removed(column, n - 1) + (if Stays(column, n - 1) then 0 else 1)
  }

  /** The number that the current mode has when the first `n` rows have been filtered. */
  function RenumberedTo(column: seq<int>, n: nat, mode: int): int
    requires n <= |column|
  {
    if mode < 0 then mode
    else if mode < n && !Stays(column, mode) then -1
    else mode - Removed(column, if mode < n then mode else n)
  }

  function Renumbered(column: seq<int>, mode: int): int {
    RenumberedTo(column, |column|, mode)
  }

  function Attach(p: Probe): seq<Row>
    requires |p.rows| == |p.column|
  {
    seq(|p.rows|, r requires 0 <= r < |p.rows| =>
      Row(p.rows[r].size, p.rows[r].modes + [p.column[r]]))
  }

  /** A splitter's consoles in order, its table and its current mode. */
  datatype Console = Console(devices: seq<TextOut>, rows: seq<Row>, mode: int)

  const NO_CONSOLE_ROWS := [Row(DEFAULT_GEOMETRY, [])]

  function AddFirst(c: Console, d: TextOut): Console {
    Console([d], FirstTable(d), c.mode)
  }

  function AddNext(c: Console, d: TextOut): Console {
    var p := ProbeModes(c.rows, d, |d.modes|);
    Console(c.devices + [d], Kept(Attach(p), p.column, |p.rows|), Renumbered(p.column, c.mode))
  }

  function Add(c: Console, d: TextOut): Console {
    if c.devices == [] then AddFirst(c, d) else AddNext(c, d)
  }

  /** Adds `ds` in order to a splitter without consoles whose current mode is `mode`. */
  function AddAll(ds: seq<TextOut>, mode: int): (c: Console)
    ensures c.devices == ds
  {
    if ds == [] then Console([], NO_CONSOLE_ROWS, mode)
    else
      var n := |ds| - 1;
      assert ds == ds[..n] + [ds[n]];
      Add(AddAll(ds[..n], mode), ds[n])
  }

  /** The position of console `d`, or |ds|. */
  function Position(ds: seq<TextOut>, d: TextOut): (i: nat)
    ensures i <= |ds|
    ensures i < |ds| ==> ds[i] == d
    ensures forall j :: 0 <= j < i ==> ds[j] != d
  {
    if ds == [] then 0
    else if ds[0] == d then 0
    else
      var i := Position(ds[1..], d);
      assert forall j :: 0 < j < i + 1 ==> ds[j] == ds[1..][j - 1];
      i + 1
  }

  /** Deletes `d`: its first occurrence leaves the list and the table is rebuilt from the rest. */
  function Delete(c: Console, d: TextOut): Console {
    var i := Position(c.devices, d);
    if i == |c.devices| then c
    else
      var rest := c.devices[..i] + c.devices[i + 1..];
      AddAll(rest, if rest == [] then 0 else c.mode)
  }

  // ----- filtering -----

  lemma {:induction false} KeptLength<T>(xs: seq<T>, column: seq<int>, n: nat)
    requires n <= |xs| && n <= |column|
    ensures |Kept(xs, column, n)| == n - Removed(column, n)
  {
    if n > 0 {
      KeptLength(xs, column, n - 1);
    }
  }

  lemma {:induction false} KeptPrefix<T>(xs: seq<T>, column: seq<int>, m: nat, n: nat)
    requires m <= n <= |xs| && n <= |column|
    ensures Kept(xs, column, m) <= Kept(xs, column, n)
  {
    if m < n {
      KeptPrefix(xs, column, m, n - 1);
    }
  }

  /** A row that stays is found, unchanged, at its new number. */
  lemma RenumberedRow<T>(xs: seq<T>, column: seq<int>, mode: nat)
    requires |xs| == |column| && mode < |xs|
    ensures Renumbered(column, mode) == -1 <==> !Stays(column, mode)
    ensures Stays(column, mode) ==>
              0 <= Renumbered(column, mode) < |Kept(xs, column, |xs|)|
              && Kept(xs, column, |xs|)[Renumbered(column, mode)] == xs[mode]
  {
    KeptLength(xs, column, mode);
    if Stays(column, mode) {
      KeptPrefix(xs, column, mode + 1, |xs|);
      assert Kept(xs, column, mode + 1) == Kept(xs, column, mode) + [xs[mode]];
    }
  }

  /** Where each kept element came from; the origins are increasing, so order is kept. */
  function Origin(column: seq<int>, n: nat, i: nat): (o: nat)
    requires n <= |column| && i < n - Removed(column, n)
    ensures o < n && Stays(column, o) && o >= i
    ensures o - Removed(column, o) == i
  {
    if Stays(column, n - 1) && i == n - 1 - Removed(column, n - 1) then n - 1
    else Origin(column, n - 1, i)
  }

  lemma {:induction false} OriginMonotone(column: seq<int>, n: nat, i: nat, j: nat)
    requires n <= |column| && i < j < n - Removed(column, n)
    ensures Origin(column, n, i) < Origin(column, n, j)
  {
    if !(Stays(column, n - 1) && j == n - 1 - Removed(column, n - 1)) {
      OriginMonotone(column, n - 1, i, j);
    }
  }

  lemma {:induction false} KeptAt<T>(xs: seq<T>, column: seq<int>, n: nat, i: nat)
    requires n <= |xs| && n <= |column|
    requires i < n - Removed(column, n)
    ensures |Kept(xs, column, n)| == n - Removed(column, n)
    ensures Kept(xs, column, n)[i] == xs[Origin(column, n, i)]
  {
    KeptLength(xs, column, n);
    KeptLength(xs, column, n - 1);
    if !(Stays(column, n - 1) && i == n - 1 - Removed(column, n - 1)) {
      KeptAt(xs, column, n - 1, i);
    }
  }

  /** Every element that stays is kept. */
  lemma {:induction false} KeptHas<T>(xs: seq<T>, column: seq<int>, n: nat, i: nat)
    requires i < n <= |xs| && n <= |column| && Stays(column, i)
    ensures xs[i] in Kept(xs, column, n)
  {
    if i < n - 1 {
      KeptHas(xs, column, n - 1, i);
    }
  }
}
