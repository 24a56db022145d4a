/** The console splitter's text-out data: a device list, the geometries of the first console's modes,
    and the mode map, a two-dimensional table kept in one flat array whose row length is the length
    of the device list. */
module TextOutSplitter {
  import opened ModeTable
  import opened ModeTableLaws
  import opened Grids

  /** How many elements a buffer grows by. */
  const ALLOC_UNIT := 32

  // ----- the flat array as a table -----

  /** A table of virtual modes for `width` consoles, read from the map and the recorded geometries. */
  ghost predicate Readable(grid: seq<seq<int>>, query: seq<Geometry>, width: nat) {
    forall r {:trigger grid[r]} :: 0 <= r < |grid| ==> RowReadable(grid[r], query, width)
  }

  ghost predicate RowReadable(row: seq<int>, query: seq<Geometry>, width: nat) {
    0 < width <= |row| && 0 <= row[0] < |query|
  }

  ghost function TableOf(grid: seq<seq<int>>, query: seq<Geometry>, width: nat): (rows: seq<Row>)
    requires Readable(grid, query, width)
    ensures |rows| == |grid|
  {
    seq(|grid|, r requires 0 <= r < |grid| => Row(query[grid[r][0]], grid[r][..width]))
  }

  /** The entries from column `width` on are -1. */
  ghost predicate BlankFrom(grid: seq<seq<int>>, width: nat) {
    forall r, c :: 0 <= r < |grid| && width <= c < |grid[r]| ==> grid[r][c] == -1
  }

  lemma {:induction false} KeptTable(grid: seq<seq<int>>, query: seq<Geometry>, width: nat,
                                     column: seq<int>, n: nat)
    requires Readable(grid, query, width) && n <= |grid| == |column|
    ensures Readable(Kept(grid, column, n), query, width)
    ensures TableOf(Kept(grid, column, n), query, width) == Kept(TableOf(grid, query, width), column, n)
  {
    if n > 0 {
      KeptTable(grid, query, width, column, n - 1);
    }
  }

  lemma KeptBlank(grid: seq<seq<int>>, width: nat, column: seq<int>)
    requires BlankFrom(grid, width) && |grid| == |column|
    ensures BlankFrom(Kept(grid, column, |grid|), width)
  {
    KeptLength(grid, column, |grid|);
    forall r | 0 <= r < |Kept(grid, column, |grid|)|
      ensures Kept(grid, column, |grid|)[r] in grid
    {
      KeptAt(grid, column, |grid|, r);
    }
  }

  // ----- reconstructing the map -----

  /** `column` is read from `cells` at `base`, `base + step`, `base + 2 * step`, ... */
  ghost predicate IsColumn(cells: seq<int>, base: nat, step: nat, column: seq<int>) {
    forall r :: 0 <= r < |column| ==>
      base + Offset(step, r) < |cells| && cells[base + Offset(step, r)] == column[r]
  }

  /** Copies `count` entries within an array. */
  method CopyMem(a: array<int>, to: nat, from: nat, count: nat)
    requires to + count <= a.Length && from + count <= a.Length
    modifies a
    ensures a[..] == old(a[..])[..to] + old(a[..])[from..from + count] + old(a[..])[to + count..]
  {
    forall c | 0 <= c < count {
      a[to + c] := a[from + c];
    }
  }

  /** The rows so far: the first `kept` rows of the array are what stays of the first `done` rows of
      the table, and from row `done` on the array is as it was. */
  ghost predicate Filtered(was: seq<int>, now: seq<int>, step: nat, column: seq<int>,
                           done: nat, kept: nat)
    requires Offset(step, |column|) <= |was|
  {
    && |now| == |was|
    && kept <= done <= |column|
    && kept == done - Removed(column, done)
    && Offset(step, kept) <= Offset(step, done) <= |now|
    && now[Offset(step, done)..] == was[Offset(step, done)..]
    && Grid(now, step, kept) == Kept(Grid(was, step, |column|), column, done)
  }

  lemma FilterStart(was: seq<int>, step: nat, column: seq<int>, done: nat, mode: int)
    requires Offset(step, |column|) <= |was| && done <= 2 && done <= |column|
    ensures RenumberedTo(column, done, mode) == mode
    ensures Filtered(was, was, step, column, done, done)
  {
    var n := |column|;
    var grid := Grid(was, step, n);
    GridPrefix(was, step, done, n);
    if done == 2 {
      assert Kept(grid, column, 1) == Kept(grid, column, 0) + [grid[0]];
    }
  }

  lemma FilterDrop(was: seq<int>, now: seq<int>, step: nat, column: seq<int>, done: nat, kept: nat)
    requires Offset(step, |column|) <= |was| && done < |column| && !Stays(column, done)
    requires Filtered(was, now, step, column, done, kept)
    ensures Filtered(was, now, step, column, done + 1, kept)
  {
    OffsetMonotone(step, done, |column|);
    SameTail(was, now, Offset(step, done), step);
  }

  lemma FilterKeep(was: seq<int>, now: seq<int>, after: seq<int>, step: nat, column: seq<int>,
                   done: nat, kept: nat)
    requires Offset(step, |column|) <= |was| && done < |column| && Stays(column, done)
    requires Filtered(was, now, step, column, done, kept)
    requires Offset(step, kept + 1) <= Offset(step, done + 1) <= |now|
    requires after == now[..Offset(step, kept)] + now[Offset(step, done)..Offset(step, done + 1)]
                      + now[Offset(step, kept + 1)..]
    ensures Filtered(was, after, step, column, done + 1, kept + 1)
  {
    var k, d := Offset(step, kept), Offset(step, done);
    GridRow(was, step, |column|, done);
    RowMoved(was, now, after, k, d, step);
    GridSame(now, after, step, kept);
  }

  lemma RowMoved(was: seq<int>, now: seq<int>, after: seq<int>, k: nat, d: nat, step: nat)
    requires k <= d && d + step <= |now| == |was| && now[d..] == was[d..]
    requires after == now[..k] + now[d..d + step] + now[k + step..]
    ensures |after| == |now| && after[..k] == now[..k] && after[k..k + step] == was[d..d + step]
    ensures after[d + step..] == was[d + step..]
  {
    SameTail(was, now, d, step);
    assert forall i :: k + step <= i < |after| ==> after[i] == now[i];
    assert after[d + step..] == now[d + step..];
  }

  lemma SameTail(was: seq<int>, now: seq<int>, d: nat, step: nat)
    requires d + step <= |now| == |was| && now[d..] == was[d..]
    ensures now[d..d + step] == was[d..d + step] && now[d + step..] == was[d + step..]
  {
    assert now[d..d + step] == now[d..][..step] && was[d..d + step] == was[d..][..step];
    assert now[d + step..] == now[d..][step..] && was[d + step..] == was[d..][step..];
  }

  lemma ColumnAt(cells: seq<int>, base: nat, step: nat, column: seq<int>, r: nat)
    requires IsColumn(cells, base, step, column) && r < |column|
    ensures base + Offset(step, r) < |cells| && cells[base + Offset(step, r)] == column[r]
  {
  }

  /** A column of the table itself is still intact in the rows not yet done. */
  lemma ColumnIntact(was: seq<int>, now: seq<int>, base: nat, step: nat, column: seq<int>,
                     done: nat, kept: nat)
    requires Offset(step, |column|) <= |was| && done < |column|
    requires IsColumn(was, base, step, column) && Filtered(was, now, step, column, done, kept)
    ensures base + Offset(step, done) < |now| && now[base + Offset(step, done)] == column[done]
  {
    ColumnAt(was, base, step, column, done);
    assert now[Offset(step, done)..][base] == was[Offset(step, done)..][base];
  }

  /** Moves row `done` down to row `kept`, unless it is already there. */
  method KeepRow(modeMap: array<int>, current: nat, next: nat, step: nat,
                 ghost was: seq<int>, ghost column: seq<int>, ghost done: nat, ghost kept: nat)
    requires Offset(step, |column|) <= |was| && done < |column| && Stays(column, done)
    requires Filtered(was, modeMap[..], step, column, done, kept)
    requires current == Offset(step, done) && next == Offset(step, kept)
    modifies modeMap
    ensures Filtered(was, modeMap[..], step, column, done + 1, kept + 1)
  {
    hide Filtered, Offset;
    OffsetMonotone(step, done, |column|);
    NextRow(step, done);
    NextRow(step, kept);
    FilteredFits(was, modeMap[..], step, column, done, kept);
    ghost var now := modeMap[..];
    if current != next {
      CopyMem(modeMap, next, current, step);
    } else {
      SamePlace(now, next, step);
    }
    FilterKeep(was, now, modeMap[..], step, column, done, kept);
  }

  lemma FilteredFits(was: seq<int>, now: seq<int>, step: nat, column: seq<int>, done: nat, kept: nat)
    requires Offset(step, |column|) <= |was| && done < |column| && Filtered(was, now, step, column, done, kept)
    ensures |now| == |was| && Offset(step, kept + 1) <= Offset(step, done + 1) <= |now|
  {
    OffsetMonotone(step, done, |column|);
  }

  lemma SamePlace(s: seq<int>, at: nat, n: nat)
    requires at + n <= |s|
    ensures s == s[..at] + s[at..at + n] + s[at + n..]
  {
  }

  lemma RenumberStep(column: seq<int>, index: nat, mode: int)
    requires index < |column|
    ensures RenumberedTo(column, index + 1, mode) ==
            if Stays(column, index) || index > mode then RenumberedTo(column, index, mode)
            else if index == mode then -1
            else RenumberedTo(column, index, mode) - 1
  {
  }

  lemma FilterEnd(was: seq<int>, now: seq<int>, step: nat, column: seq<int>, done: nat, kept: nat)
    requires Offset(step, |column|) <= |was| && done == |column|
    requires Filtered(was, now, step, column, done, kept)
    ensures |now| == |was| && Offset(step, kept) <= |now|
    ensures kept <= done && Grid(now, step, kept) == Kept(Grid(was, step, |column|), column, done)
  {
    OffsetMonotone(step, kept, done);
  }

  /** The column to filter by: one of the table itself, as it was, or one of other cells. */
  ghost predicate FiltersBy(own: bool, cells: seq<int>, was: seq<int>, base: nat, step: nat,
                            filterStep: nat, column: seq<int>)
  {
    if own then filterStep == step && IsColumn(was, base, step, column)
    else IsColumn(cells, base, filterStep, column)
  }

  lemma StillFilters(own: bool, cells: seq<int>, after: seq<int>, was: seq<int>, base: nat, step: nat,
                     filterStep: nat, column: seq<int>)
    requires FiltersBy(own, cells, was, base, step, filterStep, column) && (own || after == cells)
    ensures FiltersBy(own, after, was, base, step, filterStep, column)
  {
  }

  lemma EntryIntact(modeMap: array<int>, filter: array<int>, was: seq<int>, base: nat, step: nat,
                    filterStep: nat, column: seq<int>, index: nat, kept: nat)
    requires FiltersBy(filter == modeMap, filter[..], was, base, step, filterStep, column)
    requires Offset(step, |column|) <= |was| && index < |column|
    requires Filtered(was, modeMap[..], step, column, index, kept)
    ensures base + Offset(filterStep, index) < filter.Length
    ensures filter[base + Offset(filterStep, index)] == column[index]
  {
    hide IsColumn, Filtered, Offset;
    if filter == modeMap {
      ColumnIntact(was, modeMap[..], base, step, column, index, kept);
    } else {
      ColumnAt(filter[..], base, filterStep, column, index);
    }
  }

  /** Part-way through filtering: row `index` is the next one, and of `maxMode` rows still counted the ones
      from there on have not been looked at. */
  ghost predicate Filtering(was: seq<int>, now: seq<int>, step: nat, column: seq<int>, base: nat, filterStep: nat,
                            currentMode: int, index: nat, current: nat, next: nat, entry: nat,
                            maxMode: nat, mode: int)
  {
    var done := if |column| < 2 then |column| else index;
    var kept := maxMode - (|column| - done);
    && Offset(step, |column|) <= |was| && 2 <= index && done <= |column| && 0 <= kept
    && (2 <= |column| ==> current == Offset(step, index) && next == Offset(step, kept))
    && entry == base + Offset(filterStep, index)
    && Filtered(was, now, step, column, done, kept)
    && mode == RenumberedTo(column, done, currentMode)
  }

  /** Keeps or drops row `index` of the table. */
  method FilterRow(modeMap: array<int>, filter: array<int>, entry: nat, current: nat, next: nat, step: nat,
                   index: nat, maxMode: nat, mode: int, currentMode: int, ghost was: seq<int>,
                   ghost column: seq<int>, ghost base: nat, ghost filterStep: nat)
    returns (next': nat, maxMode': nat, mode': int)
    requires FiltersBy(filter == modeMap, filter[..], was, base, step, filterStep, column) && index < |column|
    requires Filtering(was, modeMap[..], step, column, base, filterStep, currentMode, index,
                       current, next, entry, maxMode, mode)
    modifies modeMap
    ensures FiltersBy(filter == modeMap, filter[..], was, base, step, filterStep, column)
    ensures Filtering(was, modeMap[..], step, column, base, filterStep, currentMode, index + 1,
                      current + step, next', entry + filterStep, maxMode', mode')
  {
    hide IsColumn, Filtered, RenumberedTo, FiltersBy, Offset;
    ghost var cells, kept := filter[..], maxMode - (|column| - index);
    EntryIntact(modeMap, filter, was, base, step, filterStep, column, index, kept);
    RenumberStep(column, index, currentMode);
    NextRow(step, index);
    NextRow(step, kept);
    NextRow(filterStep, index);
    next', maxMode', mode' := next, maxMode, mode;
    if filter[entry] == -1 {
      FilterDrop(was, modeMap[..], step, column, index, kept);
      if index == currentMode {
        mode' := -1;
      } else if index < currentMode {
        mode' := mode - 1;
      }
      maxMode' := maxMode - 1;
    } else {
      KeepRow(modeMap, current, next, step, was, column, index, kept);
      next' := next + step;
    }
    StillFilters(filter == modeMap, cells, filter[..], was, base, step, filterStep, column);
  }

  /** Filters the first `maxMode` rows of `modeMap` in place by the column of `filter` that starts at
      `base`; the filter may be a column of the same array. */
  method GetIntersection(modeMap: array<int>, filter: array<int>, base: nat, step: nat,
                         filterStep: nat, maxMode: nat, currentMode: int, ghost column: seq<int>)
    returns (newMaxMode: nat, newMode: int)
    requires Offset(step, maxMode) <= modeMap.Length
    requires |column| == maxMode && IsColumn(filter[..], base, filterStep, column)
    requires filter == modeMap ==> filterStep == step
    modifies modeMap
    ensures newMaxMode <= maxMode && Offset(step, newMaxMode) <= modeMap.Length
    ensures Grid(modeMap[..], step, newMaxMode) ==
            Kept(old(Grid(modeMap[..], step, maxMode)), column, maxMode)
    ensures newMode == Renumbered(column, currentMode)
  {
    ghost var was := modeMap[..];
    assert FiltersBy(filter == modeMap, filter[..], was, base, step, filterStep, column);
    hide IsColumn, Filtering, FiltersBy, Grid, Kept, Renumbered, Offset;
    newMaxMode, newMode := maxMode, currentMode;
    var index: nat := 2;
    var current: nat, next: nat, entry: nat := step * 2, step * 2, base + filterStep * 2;
    FilteringStarts(was, step, column, base, filterStep, currentMode);
    while index < maxMode
      invariant 2 <= index && (index <= maxMode || maxMode < 2)
      invariant FiltersBy(filter == modeMap, filter[..], was, base, step, filterStep, column)
      invariant Filtering(was, modeMap[..], step, column, base, filterStep, currentMode, index,
                          current, next, entry, newMaxMode, newMode)
    {
      next, newMaxMode, newMode := FilterRow(modeMap, filter, entry, current, next, step, index, newMaxMode,
                                             newMode, currentMode, was, column, base, filterStep);
      current := current + step;
      entry := entry + filterStep;
      index := index + 1;
    }
    FilteringEnds(was, modeMap[..], step, column, base, filterStep, currentMode, index,
                  current, next, entry, newMaxMode, newMode);
  }

  lemma FilteringStarts(was: seq<int>, step: nat, column: seq<int>, base: nat, filterStep: nat, currentMode: int)
    requires Offset(step, |column|) <= |was|
    ensures Filtering(was, was, step, column, base, filterStep, currentMode, 2,
                      step * 2, step * 2, base + filterStep * 2, |column|, currentMode)
  {
    FilterStart(was, step, column, if |column| < 2 then |column| else 2, currentMode);
    TwoRows(step);
    TwoRows(filterStep);
    hide Filtered, Offset, RenumberedTo;
  }

  lemma FilteringEnds(was: seq<int>, now: seq<int>, step: nat, column: seq<int>, base: nat, filterStep: nat,
                      currentMode: int, index: nat, current: nat, next: nat, entry: nat, maxMode: nat, mode: int)
    requires Filtering(was, now, step, column, base, filterStep, currentMode, index,
                       current, next, entry, maxMode, mode)
    requires |column| <= index
    ensures |now| == |was| && Offset(step, |column|) <= |was|
    ensures maxMode <= |column| && Offset(step, maxMode) <= |now|
    ensures Grid(now, step, maxMode) == Kept(Grid(was, step, |column|), column, |column|)
    ensures mode == Renumbered(column, currentMode)
  {
    hide Filtered, RenumberedTo, Offset;
    FilterEnd(was, now, step, column, |column|, maxMode);
  }

  lemma TwoRows(step: nat)
    ensures Offset(step, 2) == step * 2
  {
    assert Offset(step, 1) == step;
  }

  lemma NextRow(step: nat, n: nat)
    ensures Offset(step, 0) == 0
    ensures Offset(step, n + 1) == Offset(step, n) + step
  {
  }

  // ----- the splitter -----

  /** Grows a buffer by one allocation unit; the new elements are zero. */
  method GrowBuffer<T>(buffer: array<T>, zero: T) returns (grown: array<T>)
    ensures fresh(grown)
    ensures grown[..] == buffer[..] + seq(ALLOC_UNIT, _ => zero)
  {
    var n := buffer.Length;
    grown := new T[n + ALLOC_UNIT](i requires 0 <= i < n + ALLOC_UNIT reads buffer =>
      if i < n then buffer[i] else zero);
  }

  /** Copies `count` entries from one array to another. */
  method CopyRow(to: array<int>, at: nat, from: array<int>, start: nat, count: nat)
    requires to != from && at + count <= to.Length && start + count <= from.Length
    modifies to
    ensures to[..] == old(to[..])[..at] + from[start..start + count] + old(to[..])[at + count..]
  {
    forall c | 0 <= c < count {
      to[at + c] := from[start + c];
    }
  }

  /** The entries from number `k` on are -1. */
  ghost predicate Blank(cells: seq<int>, k: nat) {
    forall i :: k <= i < |cells| ==> cells[i] == -1
  }

  /** Wider rows: the first `width` entries of each row are kept and the others are -1. */
  ghost predicate Widened(before: seq<seq<int>>, after: seq<seq<int>>, width: nat) {
    && |after| == |before|
    && (forall r :: 0 <= r < |after| ==> width <= |before[r]| && width <= |after[r]|)
    && (forall r :: 0 <= r < |after| ==> after[r][..width] == before[r][..width])
    && BlankFrom(after, width)
  }

  /** A map with `rows` rows of `step` entries, all -1. */
  method NewMap(step: nat, rows: nat) returns (cells: array<int>)
    ensures fresh(cells) && cells.Length == Offset(step, rows) && Blank(cells[..], 0)
  {
    OffsetIsProduct(step, rows);
    cells := new int[step * rows](_ => -1);
  }

  lemma WidenStart(was: seq<int>, oldStep: nat, now: seq<int>, step: nat, width: nat)
    ensures Widened(Grid(was, oldStep, 0), Grid(now, step, 0), width)
  {
  }

  /** Copying the entries in use of one more row, from a map with rows of length `oldStep` to a
      blank one with rows of length `step`. */
  lemma WidenRow(was: seq<int>, now: seq<int>, after: seq<int>, oldStep: nat, step: nat, n: nat, width: nat)
    requires width <= oldStep && width <= step
    requires Offset(oldStep, n + 1) <= |was| && Offset(step, n + 1) <= |now|
    requires after == now[..Offset(step, n)] + was[Offset(oldStep, n)..Offset(oldStep, n) + width]
                      + now[Offset(step, n) + width..]
    requires Widened(Grid(was, oldStep, n), Grid(now, step, n), width) && Blank(now, Offset(step, n))
    ensures |after| == |now| && Blank(after, Offset(step, n + 1))
    ensures Widened(Grid(was, oldStep, n + 1), Grid(after, step, n + 1), width)
  {
    var k, e := Offset(step, n), Offset(oldStep, n);
    var row, source := after[k..k + step], was[e..e + oldStep];
    assert Grid(after, step, n + 1) == Grid(after, step, n) + [row];
    assert Grid(was, oldStep, n + 1) == Grid(was, oldStep, n) + [source];
    assert Offset(step, n + 1) == k + step && Offset(oldStep, n + 1) == e + oldStep;
    hide Grid, Offset;
    assert after[..k] == now[..k];
    GridSame(now, after, step, n);
    CopiedRow(was, now, after, e, oldStep, k, step, width);
  }

  lemma CopiedRow(was: seq<int>, now: seq<int>, after: seq<int>, e: nat, oldStep: nat, k: nat, step: nat, width: nat)
    requires width <= oldStep && width <= step && e + oldStep <= |was| && k + step <= |now|
    requires after == now[..k] + was[e..e + width] + now[k + width..]
    requires Blank(now, k)
    ensures |after| == |now| && Blank(after, k + step)
    ensures after[k..k + step][..width] == was[e..e + oldStep][..width]
    ensures var row := after[k..k + step]; forall c :: width <= c < step ==> row[c] == -1
  {
    var row, source := after[k..k + step], was[e..e + oldStep];
    assert row[..width] == after[k..k + width] == was[e..e + width] == source[..width];
    forall c | width <= c < step
      ensures row[c] == -1
    {
      assert row[c] == now[k + c];
    }
  }

  // ----- adding the modes of a console -----

  /** Rows that hold the first console's modes and nothing else. */
  ghost function FirstGrid(step: nat, n: nat): (grid: seq<seq<int>>)
    requires 0 < step
    ensures |grid| == n && forall r :: 0 <= r < n ==> |grid[r]| == step && grid[r][0] == r
    ensures BlankFrom(grid, 1)
  {
    seq(n, r requires 0 <= r < n => [r as int] + seq(step - 1, _ => -1))
  }

  lemma FirstStart(cells: seq<int>, step: nat)
    requires 0 < step
    ensures Grid(cells, step, 0) == FirstGrid(step, 0)
  {
  }

  lemma FirstRow(was: seq<int>, step: nat, n: nat)
    requires 0 < step && Offset(step, n + 1) <= |was|
    requires Grid(was, step, n) == FirstGrid(step, n) && Blank(was, Offset(step, n))
    ensures var now := was[Offset(step, n) := n];
            && Grid(now, step, n + 1) == FirstGrid(step, n + 1)
            && Blank(now, Offset(step, n + 1))
  {
    var k := Offset(step, n);
    var now := was[k := n];
    assert now[..k] == was[..k];
    GridSame(was, now, step, n);
    assert now[k..k + step] == [n as int] + seq(step - 1, _ => -1);
    assert FirstGrid(step, n + 1) == FirstGrid(step, n) + [[n as int] + seq(step - 1, _ => -1)];
  }

  lemma FirstRowFits(step: nat, m: nat, maxMode: nat, rows: nat)
    requires m < maxMode <= rows && 0 < step
    ensures Offset(step, m + 1) == Offset(step, m) + step <= Offset(step, rows)
  {
    OffsetMonotone(step, m, rows);
  }

  /** The finished first table. */
  lemma FirstMapped(grid: seq<seq<int>>, query: seq<Geometry>, step: nat, d: TextOut)
    requires 0 < step && |d.modes| <= |query| && grid == FirstGrid(step, |d.modes|)
    requires forall r :: 0 <= r < |d.modes| ==> query[r] == ReportedSize(d, r)
    ensures Readable(grid, query, 1) && BlankFrom(grid, 1)
    ensures TableOf(grid, query, 1) == FirstTable(d)
  {
    forall r | 0 <= r < |grid|
      ensures TableOf(grid, query, 1)[r] == FirstTable(d)[r]
    {
      assert grid[r][..1] == [r];
    }
  }

  /** The map, the geometries and column `width` of the map hold what the probe holds. */
  ghost predicate Tracks(grid: seq<seq<int>>, query: seq<Geometry>, width: nat, p: Probe) {
    && Readable(grid, query, width) && BlankFrom(grid, width + 1)
    && (forall r :: 0 <= r < |grid| ==> width < |grid[r]|)
    && TableOf(grid, query, width) == p.rows
    && |p.column| == |grid|
    && (forall r :: 0 <= r < |grid| ==> grid[r][width] == p.column[r])
  }

  lemma TrackReadable(grid: seq<seq<int>>, query: seq<Geometry>, width: nat, p: Probe)
    requires Tracks(grid, query, width, p)
    ensures Readable(grid, query, width) && TableOf(grid, query, width) == p.rows
    ensures |p.column| == |p.rows| == |grid|
    ensures forall r :: 0 <= r < |grid| ==> width < |grid[r]|
    ensures grid != [] ==> 0 < width
  {
    if grid != [] {
      assert RowReadable(grid[0], query, width);
    }
  }

  /** The end of a probe: filtering the map by the new column is filtering the probed table. */
  lemma TrackKept(grid: seq<seq<int>>, query: seq<Geometry>, width: nat, p: Probe)
    requires Tracks(grid, query, width, p) && grid != []
    ensures |p.column| == |p.rows| == |grid|
    ensures forall r :: 0 <= r < |grid| ==> width < |grid[r]| && grid[r][width] == p.column[r]
    ensures var kept := Kept(grid, p.column, |grid|);
            && kept != []
            && Readable(kept, query, width + 1) && BlankFrom(kept, width + 1)
            && TableOf(kept, query, width + 1) == Kept(Attach(p), p.column, |p.rows|)
  {
    TrackAttach(grid, query, width, p);
    KeptTable(grid, query, width + 1, p.column, |grid|);
    KeptBlank(grid, width + 1, p.column);
    KeptHas(grid, p.column, |grid|, 0);
  }

  /** Only row 1 uses the geometry of the first console's mode 1. */
  ghost predicate Reserved(grid: seq<seq<int>>) {
    forall r :: 0 <= r < |grid| ==> |grid[r]| > 0 && (grid[r][0] == 1 <==> r == 1)
  }

  /** The entry a probe starts from: no mode of the new console recorded. */
  lemma TrackStart(grid: seq<seq<int>>, query: seq<Geometry>, width: nat, d: TextOut)
    requires Readable(grid, query, width) && BlankFrom(grid, width)
    requires forall r :: 0 <= r < |grid| ==> width < |grid[r]|
    ensures Tracks(grid, query, width, ProbeModes(TableOf(grid, query, width), d, 0))
  {
  }

  lemma TrackEntry(grid: seq<seq<int>>, query: seq<Geometry>, width: nat, p: Probe, r: nat, m: int)
    requires Tracks(grid, query, width, p) && r < |grid|
    ensures width < |grid[r]| && r < |p.column|
    ensures Reserved(grid) ==> Reserved(grid[r := grid[r][width := m]])
    ensures Tracks(grid[r := grid[r][width := m]], query, width, p.(column := p.column[r := m]))
  {
    var grid' := grid[r := grid[r][width := m]];
    assert forall q :: 0 <= q < |grid| ==> grid'[q][..width] == grid[q][..width];
    assert TableOf(grid', query, width) == TableOf(grid, query, width);
  }

  lemma TrackCleared(grid: seq<seq<int>>, query: seq<Geometry>, width: nat, p: Probe)
    requires Tracks(grid, query, width, p) && Reserved(grid) && 1 < |query|
    ensures Tracks(grid, query[1 := NO_GEOMETRY], width,
              if |grid| > 1 then p.(rows := p.rows[1 := p.rows[1].(size := NO_GEOMETRY)]) else p)
  {
    var query' := query[1 := NO_GEOMETRY];
    var rows := if |grid| > 1 then p.rows[1 := p.rows[1].(size := NO_GEOMETRY)] else p.rows;
    forall r | 0 <= r < |grid|
      ensures TableOf(grid, query', width)[r] == rows[r]
    {
      assert TableOf(grid, query, width)[r] == p.rows[r];
    }
  }

  lemma ConsistentReserved(grid: seq<seq<int>>, query: seq<Geometry>, c: Console)
    requires c.devices != [] && Readable(grid, query, |c.devices|) && Consistent(c)
    requires c.rows == TableOf(grid, query, |c.devices|)
    ensures Reserved(grid)
  {
    forall r | 0 <= r < |grid|
      ensures grid[r][0] == 1 <==> r == 1
    {
      assert RowConsistent(c.devices, c.rows[r], r);
      assert Lead(c.rows[r]) == grid[r][0];
      if r >= 2 {
        assert RowConsistent(c.devices, c.rows[1], 1);
        assert Lead(c.rows[1]) < Lead(c.rows[r]);
      }
    }
  }

  lemma ConsistentStart(cells: seq<int>, step: nat, n: nat, query: seq<Geometry>, c: Console)
    requires 0 < step && 0 < n && Offset(step, n) <= |cells| && c.devices != [] && Consistent(c)
    requires Readable(Grid(cells, step, n), query, |c.devices|)
    requires c.rows == TableOf(Grid(cells, step, n), query, |c.devices|)
    ensures 0 < |cells| && cells[0] == 0
  {
    GridCell(cells, step, n, 0, 0);
    assert RowConsistent(c.devices, c.rows[0], 0);
    assert Lead(c.rows[0]) == Grid(cells, step, n)[0][0];
  }

  lemma AddAllOne(d: TextOut, mode: int)
    ensures AddAll([d], mode) == Console([d], FirstTable(d), mode)
  {
    assert [d][..0] == [];
  }

  lemma AddAllNone()
    ensures AddAll([], 0) == Console([], NO_CONSOLE_ROWS, 0)
  {
  }

  lemma DeleteMeaning(c: Console, d: TextOut) returns (rest: seq<TextOut>)
    ensures Position(c.devices, d) < |c.devices| <==> d in c.devices
    ensures d !in c.devices ==> Delete(c, d) == c
    ensures d in c.devices ==>
              var p := Position(c.devices, d);
              && rest == c.devices[..p] + c.devices[p + 1..]
              && Delete(c, d) == (if rest == [] then Console([], NO_CONSOLE_ROWS, 0)
                                  else AddAll(rest, c.mode))
  {
    hide AddAll;
    rest := [];
    assert AddAll([], 0) == Console([], NO_CONSOLE_ROWS, 0) by {
      AddAllNone();
    }
    if d in c.devices {
      var p := Position(c.devices, d);
      rest := c.devices[..p] + c.devices[p + 1..];
    }
  }

  lemma AddAllNext(ds: seq<TextOut>, k: nat, mode: int)
    requires 0 < k < |ds|
    ensures AddAll(ds[..k + 1], mode) == AddNext(AddAll(ds[..k], mode), ds[k])
  {
    assert ds[..k + 1][..k] == ds[..k];
  }

  lemma WidenedTable(before: seq<seq<int>>, after: seq<seq<int>>, query: seq<Geometry>, width: nat)
    requires Widened(before, after, width) && Readable(before, query, width)
    ensures Readable(after, query, width) && BlankFrom(after, width)
    ensures TableOf(after, query, width) == TableOf(before, query, width)
  {
    forall r | 0 <= r < |after|
      ensures RowReadable(after[r], query, width) && after[r][0] == before[r][0]
    {
      assert RowReadable(before[r], query, width);
      assert after[r][..width][0] == before[r][..width][0];
    }
  }

  /** Reading one column more is attaching the probe's column. */
  lemma TrackAttach(grid: seq<seq<int>>, query: seq<Geometry>, width: nat, p: Probe)
    requires Tracks(grid, query, width, p)
    ensures Readable(grid, query, width + 1)
    ensures |p.rows| == |p.column| && TableOf(grid, query, width + 1) == Attach(p)
  {
    forall r | 0 <= r < |grid|
      ensures TableOf(grid, query, width + 1)[r] == Attach(p)[r]
    {
      assert TableOf(grid, query, width)[r] == p.rows[r];
      assert grid[r][..width + 1] == grid[r][..width] + [grid[r][width]];
    }
  }

  lemma {:induction false} GridColumn(cells: seq<int>, step: nat, n: nat, base: nat, column: seq<int>)
    requires Offset(step, n) <= |cells| && base < step && |column| == n
    requires forall r :: 0 <= r < n ==> Grid(cells, step, n)[r][base] == column[r]
    ensures IsColumn(cells, base, step, column)
  {
    forall r | 0 <= r < n
      ensures base + Offset(step, r) < |cells| && cells[base + Offset(step, r)] == column[r]
    {
      GridCell(cells, step, n, r, base);
    }
  }

  /** Virtual mode `m` is there and has geometry `size`. */
  ghost predicate Exposes(c: Console, m: nat, size: Geometry) {
    m < |c.rows| && c.rows[m].size == size && size != NO_GEOMETRY
  }

  class Splitter {
    var consoles: nat
    var list: array<TextOut?>
    var queryData: array<Geometry>
    var modeMap: array?<int>
    var maxMode: nat
    var mode: int

    ghost function Repr(): (objects: set<object>)
      reads this
      ensures this in objects
    {
      var map_: set<object> := if modeMap == null then {} else {modeMap as object};
      {this, list, queryData} + map_
    }

    /** The table in the live part of the map. */
    ghost function LiveGrid(): (grid: seq<seq<int>>)
      requires modeMap != null && Offset(list.Length, maxMode) <= modeMap.Length
      reads this, modeMap
    {
      Grid(modeMap[..], list.Length, maxMode)
    }

    /** Buffers large enough, and a list without gaps. */
    ghost predicate Sized()
      reads Repr()
    {
      && consoles <= list.Length && ALLOC_UNIT <= list.Length
      && (forall i :: 0 <= i < consoles ==> list[i] != null)
      && ALLOC_UNIT <= queryData.Length
      && (modeMap != null ==> modeMap.Length == Offset(list.Length, queryData.Length))
    }

    /** The live table can be read for `width` consoles. */
    ghost predicate Live(width: nat)
      requires Sized()
      reads Repr()
    {
      && modeMap != null && 0 < maxMode <= queryData.Length
      && Offset(list.Length, maxMode) <= modeMap.Length
      && Readable(LiveGrid(), queryData[..], width)
    }

    /** The live table can be read for `width` consoles, and no further entry is in use. */
    ghost predicate Mapped(width: nat)
      requires Sized()
      reads Repr()
    {
      Live(width) && BlankFrom(LiveGrid(), width)
    }

    ghost predicate Valid()
      reads Repr()
    {
      && Sized()
      && (if consoles == 0 then
            && maxMode == 1 && queryData[0] == DEFAULT_GEOMETRY
            && (modeMap != null ==> modeMap.Length > 0 && modeMap[0] == 0)
          else Mapped(consoles))
      && Consistent(View())
    }

    ghost function Devices(): (ds: seq<TextOut>)
      requires Sized()
      reads Repr()
      ensures |ds| == consoles && forall i :: 0 <= i < consoles ==> ds[i] == list[i]
    {
      seq(consoles, i requires 0 <= i < consoles && Sized() reads Repr() => list[i])
    }

    ghost function View(): Console
      requires Sized() && (consoles > 0 ==> Mapped(consoles))
      reads Repr()
    {
      Console(Devices(),
        if consoles == 0 then [Row(queryData[0], [])]
        else TableOf(LiveGrid(), queryData[..], consoles),
        mode)
    }

    /** The consoles, the virtual modes and the current mode. */
    ghost function State(): Console
      requires Valid()
      reads Repr()
    {
      View()
    }

    constructor ()
      ensures Valid() && fresh(Repr())
      ensures State() == START
    {
      consoles := 0;
      list := new TextOut?[ALLOC_UNIT](_ => null);
      queryData := new Geometry[ALLOC_UNIT](i => if i == 0 then DEFAULT_GEOMETRY else NO_GEOMETRY);
      modeMap := null;
      maxMode := 1;
      mode := 0;
    }

    // ----- growing the map -----

    /** Allocates a map for the present list length and copies the entries in use from the old one,
        whose rows were one allocation unit shorter. */
    method GrowMapTable()
      requires consoles <= list.Length && ALLOC_UNIT <= list.Length
      requires modeMap != null && consoles > 0 ==>
                 && consoles <= list.Length - ALLOC_UNIT && maxMode <= queryData.Length
                 && Offset(list.Length - ALLOC_UNIT, maxMode) <= modeMap.Length
      modifies this`modeMap
      ensures fresh(modeMap) && modeMap.Length == Offset(list.Length, queryData.Length)
      ensures old(modeMap) == null || consoles == 0 ==> Blank(modeMap[..], 0)
      ensures old(modeMap) != null && consoles > 0 ==>
                && Offset(list.Length, maxMode) <= modeMap.Length
                && Widened(old(Grid(modeMap[..], list.Length - ALLOC_UNIT, maxMode)),
                           Grid(modeMap[..], list.Length, maxMode), consoles)
    {
      hide Grid, Widened, Blank;
      var step := list.Length;
      var grown := NewMap(step, queryData.Length);
      if modeMap != null {
        var oldMap: array<int> := modeMap;
        var oldStep := step - ALLOC_UNIT;
        var to, from, index := 0, 0, 0;
        if consoles > 0 {
          WidenStart(oldMap[..], oldStep, grown[..], step, consoles);
        }
        while index < maxMode
          invariant index <= maxMode
          invariant to == Offset(step, index) && from == Offset(oldStep, index)
          invariant consoles == 0 ==> Blank(grown[..], 0)
          invariant consoles > 0 ==>
                      && from <= oldMap.Length && to <= grown.Length
                      && Widened(Grid(oldMap[..], oldStep, index), Grid(grown[..], step, index), consoles)
                      && Blank(grown[..], to)
          modifies grown
        {
          if consoles > 0 {
            OffsetMonotone(step, index, queryData.Length);
            OffsetMonotone(oldStep, index, maxMode);
            ghost var now := grown[..];
            CopyRow(grown, to, oldMap, from, consoles);
            WidenRow(oldMap[..], now, grown[..], oldStep, step, index, consoles);
          }
          to := to + step;
          from := from + oldStep;
          index := index + 1;
        }
      }
      modeMap := grown;
    }

    // ----- the first console's modes -----

    /** Makes room for the geometries of `count` modes. */
    method GrowQueryData(count: nat)
      modifies this`queryData
      ensures old(queryData.Length) <= queryData.Length && count <= queryData.Length
      ensures queryData == old(queryData) || fresh(queryData)
    {
      while count > queryData.Length
        invariant queryData == old(queryData) || fresh(queryData)
        invariant old(queryData.Length) <= queryData.Length
        decreases count - queryData.Length
      {
        queryData := GrowBuffer(queryData, NO_GEOMETRY);
      }
    }

    /** Takes the modes of the first console over into an empty table. */
    method AddOutputMode(d: TextOut)
      requires consoles <= list.Length && ALLOC_UNIT <= list.Length && ALLOC_UNIT <= queryData.Length
      requires consoles == 0 || modeMap == null
      modifies this`maxMode, this`queryData, this`modeMap, queryData
      ensures queryData == old(queryData) || fresh(queryData)
      ensures fresh(modeMap) && modeMap.Length == Offset(list.Length, queryData.Length)
      ensures ALLOC_UNIT <= queryData.Length
      ensures 0 < maxMode <= queryData.Length && Offset(list.Length, maxMode) <= modeMap.Length
      ensures Readable(LiveGrid(), queryData[..], 1) && BlankFrom(LiveGrid(), 1)
      ensures TableOf(LiveGrid(), queryData[..], 1) == FirstTable(d)
    {
      hide Grid, FirstGrid, Blank, Readable, BlankFrom, TableOf, FirstTable, Offset;
      maxMode := |d.modes|;
      GrowQueryData(maxMode);
      GrowMapTable();
      var step, cells := list.Length, modeMap;
      var m, index := 0, 0;
      FirstStart(cells[..], step);
      NextRow(step, 0);
      while m < maxMode
        invariant m <= maxMode && index == Offset(step, m) <= cells.Length
        invariant Grid(cells[..], step, m) == FirstGrid(step, m) && Blank(cells[..], index)
        invariant forall r :: 0 <= r < m ==> queryData[r] == ReportedSize(d, r)
        modifies queryData, cells
      {
        FirstRowFits(step, m, maxMode, queryData.Length);
        FirstRow(cells[..], step, m);
        match d.modes[m] {
          case Supported(size) => queryData[m] := size;
          case Failed(left) => queryData[m] := if m == 1 then NO_GEOMETRY else left;
        }
        ghost var was := cells[..];
        cells[index] := m;
        assert cells[..] == was[index := m];
        m := m + 1;
        index := index + step;
      }
      FirstMapped(LiveGrid(), queryData[..], step, d);
    }

    // ----- the next console's modes -----

    /** The geometry of virtual mode `m`, read through the map. */
    method RowSize(m: nat) returns (size: Geometry)
      requires Sized() && Live(consoles) && m < maxMode
      ensures size == TableOf(LiveGrid(), queryData[..], consoles)[m].size
    {
      hide Grid;
      OffsetIsProduct(list.Length, m);
      GridCell(modeMap[..], list.Length, maxMode, m, 0);
      var queryMode := modeMap[m * list.Length];
      size := queryData[queryMode];
    }

    /** The first virtual mode with geometry `size`, or maxMode. */
    method FindRow(size: Geometry) returns (index: nat)
      requires Sized() && Live(consoles)
      ensures index == FirstMatch(TableOf(LiveGrid(), queryData[..], consoles), size)
    {
      hide Grid;
      ghost var rows := TableOf(LiveGrid(), queryData[..], consoles);
      index := 0;
      while index < maxMode
        invariant index <= maxMode
        invariant forall j :: 0 <= j < index ==> rows[j].size != size
      {
        var rowSize := RowSize(index);
        if rowSize == size {
          return;
        }
        index := index + 1;
      }
    }

    /** Writes the new console's entry of row `r`. */
    method SetEntry(r: nat, m: int)
      requires Sized() && modeMap != null && consoles < list.Length
      requires r < queryData.Length && Offset(list.Length, maxMode) <= modeMap.Length
      modifies modeMap
      ensures LiveGrid() == if r < maxMode then old(LiveGrid())[r := old(LiveGrid())[r][consoles := m]]
                            else old(LiveGrid())
    {
      hide Grid;
      var step := list.Length;
      OffsetIsProduct(step, r);
      OffsetMonotone(step, r, queryData.Length);
      ghost var was := modeMap[..];
      modeMap[r * step + consoles] := m;
      assert modeMap[..] == was[Offset(step, r) + consoles := m];
      if r < maxMode {
        GridUpdate(was, step, maxMode, r, consoles, m);
      } else {
        OffsetMonotone(step, maxMode, r);
        GridSame(was, modeMap[..], step, maxMode);
      }
    }

    /** Records mode `m` of the new console. */
    method SyncMode(d: TextOut, m: nat, ghost p: Probe)
      requires Sized() && 0 < consoles < list.Length && Live(consoles)
      requires m < |d.modes| && Tracks(LiveGrid(), queryData[..], consoles, p) && Reserved(LiveGrid())
      modifies queryData, modeMap
      ensures Tracks(LiveGrid(), queryData[..], consoles, ProbeMode(p, d, m)) && Reserved(LiveGrid())
    {
      hide Grid, Tracks, Reserved, Readable, TableOf, BlankFrom;
      ghost var grid := LiveGrid();
      TrackReadable(grid, queryData[..], consoles, p);
      match d.modes[m] {
        case Failed(_) =>
          if m == 1 {
            SetEntry(1, m);
            queryData[m] := NO_GEOMETRY;
            if maxMode > 1 {
              TrackEntry(grid, old(queryData[..]), consoles, p, 1, 1);
              TrackCleared(LiveGrid(), old(queryData[..]), consoles, p.(column := p.column[1 := 1]));
            } else {
              TrackCleared(grid, old(queryData[..]), consoles, p);
            }
          }
        case Supported(size) =>
          var index := FindRow(size);
          if index < maxMode {
            SetEntry(index, m);
            TrackEntry(grid, queryData[..], consoles, p, index, m);
          }
      }
    }

    /** Records the modes of `d` in the next free column. */
    method QueryModes(d: TextOut) returns (ghost p: Probe)
      requires Sized() && 0 < consoles < list.Length && Mapped(consoles) && Reserved(LiveGrid())
      modifies queryData, modeMap
      ensures Sized() && Live(consoles)
      ensures p == ProbeModes(old(TableOf(LiveGrid(), queryData[..], consoles)), d, |d.modes|)
      ensures Tracks(LiveGrid(), queryData[..], consoles, p)
    {
      hide Grid, Tracks, ProbeMode, Readable, Reserved, BlankFrom, TableOf;
      ghost var rows := TableOf(LiveGrid(), queryData[..], consoles);
      p := ProbeModes(rows, d, 0);
      TrackStart(LiveGrid(), queryData[..], consoles, d);
      var m := 0;
      while m < |d.modes|
        invariant m <= |d.modes| && p == ProbeModes(rows, d, m)
        invariant Live(consoles) && Reserved(LiveGrid())
        invariant Tracks(LiveGrid(), queryData[..], consoles, p)
        modifies queryData, modeMap
      {
        SyncMode(d, m, p);
        p := ProbeMode(p, d, m);
        m := m + 1;
        TrackReadable(LiveGrid(), queryData[..], consoles, p);
      }
    }

    /** Records the modes of `d` in the next free column and keeps the modes that all consoles have. */
    method SyncOutputMode(d: TextOut)
      requires Sized() && 0 < consoles < list.Length && Mapped(consoles) && Reserved(LiveGrid())
      modifies this`maxMode, this`mode, queryData, modeMap
      ensures Sized() && Mapped(consoles + 1)
      ensures var p := ProbeModes(old(TableOf(LiveGrid(), queryData[..], consoles)), d, |d.modes|);
              && TableOf(LiveGrid(), queryData[..], consoles + 1) == Kept(Attach(p), p.column, |p.rows|)
              && mode == Renumbered(p.column, old(mode))
    {
      hide Grid, Tracks, ProbeModes, Attach, Readable, BlankFrom, TableOf, Kept, Renumbered, RenumberedTo, Removed,
           Reserved;
      ghost var p := QueryModes(d);
      TrackKept(LiveGrid(), queryData[..], consoles, p);
      GridColumn(modeMap[..], list.Length, maxMode, consoles, p.column);
      maxMode, mode := GetIntersection(modeMap, modeMap, consoles, list.Length, list.Length,
                                       maxMode, mode, p.column);
    }

    /** Adds the console already in the next free place of the list. */
    method Append(d: TextOut)
      requires Valid() && 0 < consoles < list.Length && list[consoles] == d
      modifies this`consoles, this`maxMode, this`mode, queryData, modeMap
      ensures Valid() && consoles == old(consoles) + 1
      ensures State() == AddNext(old(State()), d)
    {
      hide Grid, ProbeModes, Attach, Kept, Consistent, Readable, BlankFrom, TableOf;
      ghost var was := View();
      ConsistentReserved(LiveGrid(), queryData[..], was);
      SyncOutputMode(d);
      consoles := consoles + 1;
      assert Devices() == was.devices + [d];
      AddNextConsistent(was, d);
    }

    /** Makes room in a full list. */
    method GrowList()
      requires Valid() && consoles == list.Length
      modifies this`list, this`modeMap
      ensures Valid() && State() == old(State()) && fresh(list) && fresh(modeMap)
      ensures list.Length == old(list.Length) + ALLOC_UNIT
    {
      hide Grid, Consistent, Readable, BlankFrom, TableOf, Widened;
      ghost var was := View();
      ghost var grid := LiveGrid();
      list := GrowBuffer(list, null);
      GrowMapTable();
      WidenedTable(grid, LiveGrid(), queryData[..], consoles);
      assert Devices() == was.devices;
    }

    /** Puts a console in the next free place of the list. */
    method Place(d: TextOut)
      requires Valid() && consoles < list.Length
      modifies list
      ensures Valid() && State() == old(State()) && list[consoles] == d
    {
      hide Grid, Consistent, Readable, BlankFrom, TableOf;
      ghost var was := View();
      list[consoles] := d;
      assert Devices() == was.devices;
      assert View() == was;
    }

    /** Adds the console already in the first place of an empty list. */
    method Start(d: TextOut)
      requires Valid() && consoles == 0 && list[0] == d
      modifies Repr()
      ensures Valid() && fresh(Repr() - old(Repr()))
      ensures State() == AddFirst(old(State()), d)
    {
      hide Grid, Consistent, Readable, BlankFrom, TableOf, AddNext;
      ghost var was := View();
      AddOutputMode(d);
      consoles := 1;
      assert Devices() == [d];
      AddConsistent(was, d);
    }

    /** Adds a console: the virtual modes become those that it has too. */
    method TextOutAddDevice(d: TextOut)
      requires Valid()
      modifies Repr()
      ensures Valid() && fresh(Repr() - old(Repr()))
      ensures State() == Add(old(State()), d)
    {
      hide Grid, Consistent, Readable, BlankFrom, TableOf, AddNext, AddFirst;
      ghost var was := State();
      while consoles >= list.Length
        invariant Valid() && fresh(Repr() - old(Repr()))
        invariant State() == was
        decreases consoles - list.Length
      {
        GrowList();
      }
      Place(d);
      if consoles == 0 {
        Start(d);
      } else {
        Append(d);
      }
    }

    // ----- deleting a console -----

    /** The place of `d` in the list, or `consoles`. */
    method FindConsole(d: TextOut) returns (index: nat)
      requires Valid()
      ensures Valid() && State() == old(State()) && index == Position(State().devices, d)
    {
      hide Valid, State;
      StateDevices();
      ghost var ds := Devices();
      index := 0;
      while index < consoles && list[index] != d
        invariant index <= consoles && forall j :: 0 <= j < index ==> ds[j] != d
      {
        index := index + 1;
      }
    }

    /** Closes the gap that console number `index` leaves in the list. */
    method Unlist(index: nat)
      requires Sized() && index < consoles
      modifies list
      ensures Sized()
      ensures var rest := old(Devices())[..index] + old(Devices())[index + 1..];
              forall i :: 0 <= i < consoles - 1 ==> list[i] == rest[i]
    {
      forall i | index <= i < consoles - 1 {
        list[i] := list[i + 1];
      }
    }

    /** The map of a splitter with consoles starts with mode 0 of the first one. */
    lemma FirstEntry()
      requires Valid()
      ensures modeMap != null ==> modeMap.Length > 0 && modeMap[0] == 0
    {
      if consoles > 0 {
        ConsistentStart(modeMap[..], list.Length, maxMode, queryData[..], View());
      } else if modeMap != null {
        OffsetMonotone(list.Length, 0, queryData.Length);
      }
    }

    /** The state without consoles. */
    method Reset()
      requires Sized() && (modeMap != null ==> modeMap.Length > 0 && modeMap[0] == 0)
      modifies this`consoles, this`maxMode, this`mode, queryData
      ensures Valid() && State() == Console([], NO_CONSOLE_ROWS, 0)
    {
      consoles := 0;
      maxMode := 1;
      queryData[0] := DEFAULT_GEOMETRY;
      mode := 0;
      assert Devices() == [];
    }

    /** Restarts the table from the first console of the list. */
    method Restart()
      requires Sized() && 0 < consoles
      modifies this`consoles, this`maxMode, this`queryData, this`modeMap, queryData
      ensures Valid() && consoles == 1 && fresh(modeMap)
      ensures queryData == old(queryData) || fresh(queryData)
      ensures State() == AddAll([old(Devices())[0]], mode)
    {
      hide Grid, Consistent, Readable, BlankFrom, TableOf, AddNext, AddFirst, AddAll;
      forall i | 0 <= i < queryData.Length {
        queryData[i] := NO_GEOMETRY;
      }
      modeMap := null;
      var first := list[0];
      AddOutputMode(first);
      consoles := 1;
      assert Devices() == [first];
      AddAllOne(first, mode);
      AddAllConsistent([first], mode);
    }

    /** Rebuilds the table from the first `count` consoles of the list. */
    method Rebuild(count: nat, ghost rest: seq<TextOut>)
      requires Sized() && 0 < count < consoles && |rest| == count
      requires forall i :: 0 <= i < count ==> list[i] == rest[i]
      modifies this`consoles, this`maxMode, this`mode, this`queryData, this`modeMap, queryData
      ensures Valid() && fresh(Repr() - old(Repr()))
      ensures State() == AddAll(rest, old(mode))
    {
      hide Grid, Consistent, Readable, BlankFrom, TableOf, AddNext, AddFirst, AddAll;
      assert Devices()[0] == rest[0];
      Restart();
      assert rest[..1] == [rest[0]];
      while consoles < count
        invariant Valid() && 1 <= consoles <= count
        invariant fresh(modeMap) && (queryData == old(queryData) || fresh(queryData))
        invariant View() == AddAll(rest[..consoles], old(mode))
        modifies this`consoles, this`maxMode, this`mode, queryData, modeMap
      {
        var next := list[consoles];
        AddAllNext(rest, consoles, old(mode));
        Append(next);
      }
      assert rest[..count] == rest;
    }

    lemma StateDevices()
      requires Valid()
      ensures Sized() && State().devices == Devices() && State().mode == mode
      ensures |State().rows| == maxMode > 0 && |State().devices| == consoles
    {
    }

    lemma StateTable()
      requires Valid() && consoles > 0
      ensures Sized() && Live(consoles)
      ensures State().rows == TableOf(LiveGrid(), queryData[..], consoles)
    {
    }

    /** Deletes a console: the table is rebuilt from the consoles that remain. */
    method TextOutDeleteDevice(d: TextOut) returns (found: bool)
      requires Valid()
      modifies Repr()
      ensures Valid() && fresh(Repr() - old(Repr()))
      ensures found == (d in old(State()).devices)
      ensures State() == Delete(old(State()), d)
    {
      hide Valid, State, Sized, Delete, AddAll, Position;
      ghost var rest := DeleteMeaning(State(), d);
      var index := FindConsole(d);
      StateDevices();
      FirstEntry();
      found := index < consoles;
      if found {
        Unlist(index);
        if consoles == 1 {
          Reset();
        } else {
          Rebuild(consoles - 1, rest);
        }
      }
    }

    // ----- what the splitter's users see -----

    /** The geometry of a virtual mode; `ok` is false for a number out of range and for a mode some
        console does not support. */
    method QueryMode(m: nat) returns (size: Geometry, ok: bool)
      requires Valid()
      ensures ok ==> Exposes(State(), m, size)
      ensures !ok ==> forall g :: !Exposes(State(), m, g)
    {
      hide Grid, Consistent, BlankFrom;
      if m >= maxMode {
        return NO_GEOMETRY, false;
      }
      if modeMap != null {
        FirstEntry();
        OffsetIsProduct(list.Length, m);
        if consoles > 0 {
          GridCell(modeMap[..], list.Length, maxMode, m, 0);
        }
        var currentMode := modeMap[list.Length * m];
        size := queryData[currentMode];
      } else {
        size := queryData[m];
      }
      ok := size != NO_GEOMETRY;
    }

    lemma RowMeaning(m: nat)
      requires Valid() && m < maxMode
      ensures m < |State().rows| == maxMode && RowConsistent(State().devices, State().rows[m], m)
      ensures |State().rows[m].modes| == consoles == |State().devices|
      ensures consoles > 0 ==> State().rows[m].modes == LiveGrid()[m][..consoles]
    {
    }

    lemma RowCells(m: nat, start: nat)
      requires Valid() && m < maxMode && start == Offset(list.Length, m)
      ensures |State().rows| == maxMode && |State().rows[m].modes| == consoles
      ensures consoles > 0 ==> modeMap != null && start + consoles <= modeMap.Length
      ensures forall c :: 0 <= c < consoles ==> modeMap[start + c] == State().rows[m].modes[c]
    {
      hide Grid, Consistent, Readable, BlankFrom;
      RowMeaning(m);
      if consoles > 0 {
        GridRow(modeMap[..], list.Length, maxMode, m);
      }
    }

    /** Puts each console in its mode for virtual mode `m`. */
    method RequestModes(m: nat, answers: nat -> bool) returns (modes: seq<int>, status: Status)
      requires Valid() && m < maxMode
      ensures Valid() && State() == old(State()) && modes == State().rows[m].modes
      ensures status == WorstMet(answers, |State().devices|)
    {
      hide Valid, State;
      StateDevices();
      OffsetIsProduct(list.Length, m);
      var start := list.Length * m;
      RowCells(m, start);
      modes, status := [], Success;
      var index := 0;
      while index < consoles
        invariant index <= consoles && modes == State().rows[m].modes[..index]
        invariant status == WorstMet(answers, index)
      {
        modes := modes + [modeMap[start + index]];
        if !answers(index) {
          status := ConsoleFailed(index);
        }
        index := index + 1;
      }
    }

    /** Clears the screen of every console. */
    method ClearScreens(answers: nat -> bool) returns (status: Status)
      requires Valid()
      ensures Valid() && State() == old(State()) && status == WorstMet(answers, |State().devices|)
    {
      hide Valid, State;
      StateDevices();
      status := Success;
      var index := 0;
      while index < consoles
        invariant index <= consoles && status == WorstMet(answers, index)
      {
        if !answers(index) {
          status := ConsoleFailed(index);
        }
        index := index + 1;
      }
    }

    method TextOutSetMode(m: nat)
      requires Valid()
      modifies this`mode
      ensures Valid() && State() == old(State()).(mode := m)
    {
      hide Grid, Readable, BlankFrom;
      ghost var was := State();
      mode := m;
      assert Devices() == was.devices;
    }

    /** Selects a virtual mode; `requests` are the modes asked of the consoles, in order, and `answers` says
        which consoles do as they are told.  For the current mode the screens are only cleared. */
    method SetMode(m: nat, answers: nat -> bool) returns (requests: seq<int>, cleared: bool, status: Status)
      requires Valid()
      modifies this`mode
      ensures Valid() && (status == Unsupported <==> m >= |State().rows|)
      ensures State() == old(State()).(mode := if status == Unsupported then old(mode) else m)
      ensures status != Unsupported ==> status == WorstMet(answers, |State().devices|)
      ensures cleared == (status != Unsupported && m == old(mode))
      ensures requests == if status == Unsupported || cleared then [] else State().rows[m].modes
      ensures status != Unsupported && !cleared && 2 <= m ==>
                |requests| == |State().devices| &&
                forall c :: 0 <= c < |requests| ==>
                  Offers(State().devices[c], c, requests[c], State().rows[m].size)
    {
      hide Valid, State, Sized, Offers, WorstMet;
      StateDevices();
      requests, cleared := [], false;
      if m >= maxMode {
        return requests, cleared, Unsupported;
      }
      WorstIsSupported(answers, consoles);
      if mode == m {
        cleared := true;
        status := ClearScreens(answers);
        return;
      }
      RowMeaning(m);
      requests, status := RequestModes(m, answers);
      TextOutSetMode(m);
    }
  }

  /** What a call to all consoles comes back with: the failure of the last console that failed. */
  datatype Status = Success | Unsupported | ConsoleFailed(index: nat)

  function WorstMet(answers: nat -> bool, n: nat): (status: Status)
    ensures status == Success <==> forall i: nat :: i < n ==> answers(i)
    ensures status.ConsoleFailed? ==>
              status.index < n && !answers(status.index) && forall i: nat :: status.index < i < n ==> answers(i)
  {
    if n == 0 then Success
    else if !answers(n - 1) then ConsoleFailed(n - 1)
    else WorstMet(answers, n - 1)
  }

  lemma {:induction false} WorstIsSupported(answers: nat -> bool, n: nat)
    ensures WorstMet(answers, n) != Unsupported
  {
    if n > 0 {
      WorstIsSupported(answers, n - 1);
    }
  }
}
