/** What every run of console adds and deletes keeps, and what the splitter exposes. */
module ModeTableLaws {
  import opened ModeTable

  // ----- the table agrees with the consoles -----

  /** Mode `m` of console number `c` has geometry `size`. */
  predicate Offers(d: TextOut, c: nat, m: int, size: Geometry) {
    && 0 <= m < |d.modes|
    && if c == 0 then ReportedSize(d, m) == size else d.modes[m] == Supported(size)
  }

  /** Row by row: one entry per console; modes 0 and 1 keep their numbers for the first console and
      any other row is a mode of every console, with the row's own geometry. */
  ghost predicate RowConsistent(ds: seq<TextOut>, row: Row, r: nat) {
    && |row.modes| == |ds|
    && (forall c :: 0 <= c < |ds| ==> -1 <= row.modes[c] < |ds[c].modes|)
    && (0 < |ds| ==> 0 <= row.modes[0] && (r < 2 ==> row.modes[0] == r))
    && (r >= 2 ==> forall c :: 0 <= c < |ds| ==> Offers(ds[c], c, row.modes[c], row.size))
  }

  /** The first console's mode number in a row. */
  function Lead(row: Row): int {
    if row.modes == [] then 0 else row.modes[0]
  }

  ghost predicate Increasing(rows: seq<Row>) {
    forall r, s :: 0 <= r < s < |rows| ==> Lead(rows[r]) < Lead(rows[s])
  }

  ghost predicate Consistent(c: Console) {
    && (forall r :: 0 <= r < |c.rows| ==> RowConsistent(c.devices, c.rows[r], r))
    && Increasing(c.rows)
    && (c.devices == [] ==> c.rows == NO_CONSOLE_ROWS)
  }

  /** What holds of a probe: entries are modes of the console probed, and match their rows. */
  ghost predicate ProbeConsistent(rows: seq<Row>, d: TextOut, n: nat, p: Probe)
  {
    && |p.rows| == |p.column| == |rows|
    && (forall r :: 0 <= r < |rows| ==> p.rows[r].modes == rows[r].modes)
    && (forall r :: 0 <= r < |rows| && r != 1 ==> p.rows[r] == rows[r])
    && (forall r :: 0 <= r < |rows| ==> -1 <= p.column[r] < n)
    && (forall r :: 2 <= r < |rows| && p.column[r] != -1 ==>
          p.column[r] < |d.modes| && d.modes[p.column[r]] == Supported(rows[r].size))
  }

  lemma {:induction false} ProbeKeeps(rows: seq<Row>, d: TextOut, n: nat)
    requires n <= |d.modes|
    ensures ProbeConsistent(rows, d, n, ProbeModes(rows, d, n))
  {
    hide ProbeConsistent, ProbeMode;
    if n == 0 {
      ProbeStarts(rows, d);
    } else {
      ProbeKeeps(rows, d, n - 1);
      ProbeModeKeeps(rows, d, n - 1, ProbeModes(rows, d, n - 1));
    }
  }

  lemma ProbeStarts(rows: seq<Row>, d: TextOut)
    ensures ProbeConsistent(rows, d, 0, ProbeModes(rows, d, 0))
  {
  }

  lemma ProbeModeKeeps(rows: seq<Row>, d: TextOut, m: nat, p: Probe)
    requires m < |d.modes| && ProbeConsistent(rows, d, m, p)
    ensures ProbeConsistent(rows, d, m + 1, ProbeMode(p, d, m))
  {
  }

  /** A row that stays remains consistent when the entry of the console probed is attached. */
  lemma AttachConsistent(ds: seq<TextOut>, rows: seq<Row>, d: TextOut, p: Probe, o: nat, r: nat)
    requires ds != [] && o < |rows| && RowConsistent(ds, rows[o], o)
    requires ProbeConsistent(rows, d, |d.modes|, p)
    requires Stays(p.column, o) && (r < 2 <==> o < 2) && (r < 2 ==> o == r)
    ensures RowConsistent(ds + [d], Attach(p)[o], r)
    ensures Lead(Attach(p)[o]) == Lead(rows[o])
  {
    var row := Attach(p)[o];
    assert row.modes == rows[o].modes + [p.column[o]];
    if r >= 2 {
      assert row.size == rows[o].size;
      forall c | 0 <= c < |ds| + 1
        ensures Offers((ds + [d])[c], c, row.modes[c], row.size)
      {
        if c < |ds| {
          assert Offers(ds[c], c, rows[o].modes[c], rows[o].size);
        }
      }
    }
  }

  /** Adding the next console keeps the table consistent. */
  lemma AddNextConsistent(c: Console, d: TextOut)
    requires Consistent(c) && c.devices != []
    ensures Consistent(AddNext(c, d))
  {
    var p := ProbeModes(c.rows, d, |d.modes|);
    ProbeKeeps(c.rows, d, |d.modes|);
    var all := Attach(p);
    var n := |p.rows|;
    var rows := Kept(all, p.column, n);
    KeptLength(all, p.column, n);
    forall r | 0 <= r < |rows|
      ensures RowConsistent(c.devices + [d], rows[r], r)
      ensures Origin(p.column, n, r) < |c.rows|
      ensures Lead(rows[r]) == Lead(c.rows[Origin(p.column, n, r)])
    {
      KeptAt(all, p.column, n, r);
      LowOrigin(p.column, n, r);
      AttachConsistent(c.devices, c.rows, d, p, Origin(p.column, n, r), r);
    }
    forall r, s | 0 <= r < s < |rows|
      ensures Lead(rows[r]) < Lead(rows[s])
    {
      OriginMonotone(p.column, n, r, s);
    }
  }

  /** Rows 0 and 1 stay where they are, and no other row takes their place. */
  lemma LowOrigin(column: seq<int>, n: nat, i: nat)
    requires n <= |column| && i < n - Removed(column, n)
    ensures i < 2 <==> Origin(column, n, i) < 2
    ensures i < 2 ==> Origin(column, n, i) == i
  {
    if Origin(column, n, i) >= 2 {
      RemovedStep(column, Origin(column, n, i));
    }
  }

  lemma {:induction false} RemovedStep(column: seq<int>, n: nat)
    requires 2 <= n <= |column|
    ensures Removed(column, n) <= n - 2
  {
    if n > 2 {
      RemovedStep(column, n - 1);
    }
  }

  lemma AddConsistent(c: Console, d: TextOut)
    requires Consistent(c)
    ensures Consistent(Add(c, d))
  {
    if c.devices != [] {
      AddNextConsistent(c, d);
    }
  }

  lemma {:induction false} AddAllConsistent(ds: seq<TextOut>, mode: int)
    ensures Consistent(AddAll(ds, mode))
  {
    if ds != [] {
      AddAllConsistent(ds[..|ds| - 1], mode);
      AddConsistent(AddAll(ds[..|ds| - 1], mode), ds[|ds| - 1]);
    }
  }

  lemma DeleteConsistent(c: Console, d: TextOut)
    requires Consistent(c)
    ensures Consistent(Delete(c, d))
  {
    hide AddAll, Consistent;
    var i := Position(c.devices, d);
    if i < |c.devices| {
      var rest := c.devices[..i] + c.devices[i + 1..];
      AddAllConsistent(rest, if rest == [] then 0 else c.mode);
    }
  }

  // ----- the exposed modes are the common modes -----

  /** The last mode of `d`, among its first `n`, with geometry `size`; -1 when there is none. */
  function LastMode(d: TextOut, size: Geometry, n: nat): (m: int)
    requires n <= |d.modes|
    ensures -1 <= m < n
    ensures m >= 0 ==> d.modes[m] == Supported(size)
    ensures forall k :: m < k < n ==> d.modes[k] != Supported(size)
  {
    if n == 0 then -1
    else if d.modes[n - 1] == Supported(size) then n - 1
    else LastMode(d, size, n - 1)
  }

  predicate Supports(d: TextOut, size: Geometry) {
    LastMode(d, size, |d.modes|) != -1
  }

  lemma SupportsMeaning(d: TextOut, size: Geometry)
    ensures Supports(d, size) <==> Supported(size) in d.modes
  {
    var m := LastMode(d, size, |d.modes|);
    if Supported(size) in d.modes {
      var k :| 0 <= k < |d.modes| && d.modes[k] == Supported(size);
      assert !(m < k);
    }
  }

  /** The first console tells its modes from number 2 on apart: each geometry is unlike every other
      one's, and is not the geometry of an unsupported mode. */
  ghost predicate DistinctModes(d: TextOut) {
    forall m, k :: 2 <= m < |d.modes| && 0 <= k < |d.modes| ==>
      ReportedSize(d, m) != NO_GEOMETRY && (k != m ==> ReportedSize(d, k) != ReportedSize(d, m))
  }

  ghost predicate DistinctRows(rows: seq<Row>) {
    forall r, s :: 2 <= r < |rows| && 0 <= s < |rows| ==>
      rows[r].size != NO_GEOMETRY && (s != r ==> rows[s].size != rows[r].size)
  }

  /** The probe has found, for each row from number 2 on, the last of the first `n` modes of `d` with its
      geometry. */
  ghost predicate FoundLast(rows: seq<Row>, d: TextOut, n: nat, p: Probe)
    requires n <= |d.modes|
  {
    && |p.rows| == |p.column| == |rows| && DistinctRows(p.rows)
    && forall r :: 2 <= r < |rows| ==> p.rows[r] == rows[r] && p.column[r] == LastMode(d, rows[r].size, n)
  }

  lemma {:induction false} ProbeFindsLast(rows: seq<Row>, d: TextOut, n: nat)
    requires DistinctRows(rows) && n <= |d.modes|
    ensures FoundLast(rows, d, n, ProbeModes(rows, d, n))
  {
    hide FoundLast, ProbeMode, LastMode, DistinctRows;
    if n == 0 {
      NoneFound(rows, d);
    } else {
      ProbeFindsLast(rows, d, n - 1);
      ProbeModeFinds(rows, d, n - 1, ProbeModes(rows, d, n - 1));
    }
  }

  lemma NoneFound(rows: seq<Row>, d: TextOut)
    requires DistinctRows(rows)
    ensures FoundLast(rows, d, 0, ProbeModes(rows, d, 0))
  {
  }

  lemma ProbeModeFinds(rows: seq<Row>, d: TextOut, m: nat, p: Probe)
    requires m < |d.modes| && FoundLast(rows, d, m, p)
    ensures FoundLast(rows, d, m + 1, ProbeMode(p, d, m))
  {
  }

  /** A row with the mode `d` has for it; nothing when `d` has none. */
  function Extended(row: Row, d: TextOut): seq<Row> {
    var m := LastMode(d, row.size, |d.modes|);
    if m != -1 then [Row(row.size, row.modes + [m])] else []
  }

  /** The rows of `rows` that `d` supports, in order, each with the mode `d` has for it. */
  function Common(rows: seq<Row>, d: TextOut): seq<Row> {
    if rows == [] then [] else Common(rows[..|rows| - 1], d) + Extended(rows[|rows| - 1], d)
  }

  /** The rows from number 2 on after a filter that agrees with `LastMode`. */
  lemma {:induction false} KeptIsCommon(rows: seq<Row>, p: Probe, d: TextOut, n: nat)
    requires |p.rows| == |p.column| == |rows| && 2 <= n <= |rows|
    requires forall r :: 2 <= r < |rows| ==>
               p.rows[r] == rows[r] && p.column[r] == LastMode(d, rows[r].size, |d.modes|)
    ensures |Kept(Attach(p), p.column, n)| >= 2
    ensures Kept(Attach(p), p.column, n)[2..] == Common(rows[2..n], d)
  {
    var all := Attach(p);
    if n == 2 {
      assert Kept(all, p.column, 1) == Kept(all, p.column, 0) + [all[0]];
      assert Kept(all, p.column, 2) == Kept(all, p.column, 1) + [all[1]];
    } else {
      KeptIsCommon(rows, p, d, n - 1);
      CommonNext(rows, d, n);
      KeptNext(all, p.column, n);
      assert Extended(rows[n - 1], d) == if Stays(p.column, n - 1) then [all[n - 1]] else [];
      hide Kept, Common, Extended, Attach;
    }
  }

  lemma CommonNext(rows: seq<Row>, d: TextOut, n: nat)
    requires 2 < n <= |rows|
    ensures Common(rows[2..n], d) == Common(rows[2..n - 1], d) + Extended(rows[n - 1], d)
  {
    assert rows[2..n][..n - 3] == rows[2..n - 1];
  }

  lemma KeptNext<T>(xs: seq<T>, column: seq<int>, n: nat)
    requires 2 < n <= |xs| && n <= |column| && 2 <= |Kept(xs, column, n - 1)|
    ensures |Kept(xs, column, n)| >= 2
    ensures Kept(xs, column, n)[2..]
         == Kept(xs, column, n - 1)[2..] + if Stays(column, n - 1) then [xs[n - 1]] else []
  {
  }

  /** The first console's modes from number 2 on that each of `others` supports. */
  function CommonModes(first: TextOut, others: seq<TextOut>): seq<Row> {
    if others == [] then
      if |first.modes| <= 2 then [] else FirstTable(first)[2..]
    else Common(CommonModes(first, others[..|others| - 1]), others[|others| - 1])
  }

  function Tail(rows: seq<Row>): seq<Row> {
    if |rows| <= 2 then [] else rows[2..]
  }

  lemma KeptDistinct(rows: seq<Row>, column: seq<int>)
    requires |rows| == |column| && DistinctRows(rows)
    ensures DistinctRows(Kept(rows, column, |rows|))
  {
    var n := |rows|;
    var kept := Kept(rows, column, n);
    KeptLength(rows, column, n);
    forall r, s | 2 <= r < |kept| && 0 <= s < |kept|
      ensures kept[r].size != NO_GEOMETRY && (s != r ==> kept[s].size != kept[r].size)
    {
      KeptAt(rows, column, n, r);
      KeptAt(rows, column, n, s);
      LowOrigin(column, n, r);
      if s < r {
        OriginMonotone(column, n, s, r);
      } else if r < s {
        OriginMonotone(column, n, r, s);
      }
    }
  }

  lemma AddNextExposes(c: Console, d: TextOut)
    requires DistinctRows(c.rows)
    ensures Tail(AddNext(c, d).rows) == Common(Tail(c.rows), d)
    ensures DistinctRows(AddNext(c, d).rows)
  {
    hide ProbeModes, Common, LastMode, Kept, Tail;
    var p := ProbeModes(c.rows, d, |d.modes|);
    ProbeFindsLast(c.rows, d, |d.modes|);
    KeptDistinct(Attach(p), p.column);
    KeptTail(c.rows, p, d);
  }

  lemma KeptTail(rows: seq<Row>, p: Probe, d: TextOut)
    requires |p.rows| == |p.column| == |rows|
    requires forall r :: 2 <= r < |rows| ==>
               p.rows[r] == rows[r] && p.column[r] == LastMode(d, rows[r].size, |d.modes|)
    ensures Tail(Kept(Attach(p), p.column, |rows|)) == Common(Tail(rows), d)
  {
    if |rows| >= 2 {
      KeptIsCommon(rows, p, d, |rows|);
      assert rows[2..|rows|] == rows[2..];
    }
  }

  lemma FirstExposes(c: Console, d: TextOut)
    requires DistinctModes(d)
    ensures Tail(AddFirst(c, d).rows) == CommonModes(d, [])
    ensures DistinctRows(AddFirst(c, d).rows)
  {
  }

  /** The virtual modes from number 2 on are the first console's modes from number 2 on, in order,
      that every other console supports. */
  lemma {:induction false} ExposedModes(first: TextOut, others: seq<TextOut>, mode: int)
    requires DistinctModes(first)
    ensures Tail(AddAll([first] + others, mode).rows) == CommonModes(first, others)
    ensures DistinctRows(AddAll([first] + others, mode).rows)
  {
    hide AddFirst, AddNext, Common, Tail, DistinctRows, DistinctModes, FirstTable;
    var ds := [first] + others;
    if others == [] {
      assert ds == [first] && ds[..0] == [];
      FirstExposes(AddAll([], mode), first);
    } else {
      var n := |others| - 1;
      ExposedModes(first, others[..n], mode);
      assert ds[..|ds| - 1] == [first] + others[..n];
      AddNextExposes(AddAll(ds[..|ds| - 1], mode), others[n]);
    }
  }

  /** Membership in CommonModes, without its recursion. */
  lemma {:induction false} CommonModesMeaning(first: TextOut, others: seq<TextOut>, size: Geometry)
    ensures (exists row :: row in CommonModes(first, others) && row.size == size) <==>
            (exists m :: 2 <= m < |first.modes|
                         && (first.modes[m] == Supported(size) || first.modes[m] == Failed(size)))
            && forall d :: d in others ==> Supported(size) in d.modes
  {
    if others == [] {
      if |first.modes| > 2 {
        var t := FirstTable(first);
        assert forall m :: 2 <= m < |t| ==> t[2..][m - 2] == t[m];
        forall m | 2 <= m < |first.modes| && (first.modes[m] == Supported(size) || first.modes[m] == Failed(size))
          ensures exists row :: row in t[2..] && row.size == size
        {
          assert t[2..][m - 2] == t[m];
          assert t[m] in t[2..];
        }
      }
    } else {
      var n := |others| - 1;
      var d := others[n];
      CommonModesMeaning(first, others[..n], size);
      CommonMeaning(CommonModes(first, others[..n]), d, size);
      SupportsMeaning(d, size);
      assert others == others[..n] + [d];
    }
  }

  lemma {:induction false} CommonMeaning(rows: seq<Row>, d: TextOut, size: Geometry)
    ensures (exists row :: row in Common(rows, d) && row.size == size) <==>
            (exists row :: row in rows && row.size == size) && Supports(d, size)
  {
    if rows != [] {
      var rest, last := rows[..|rows| - 1], rows[|rows| - 1];
      CommonMeaning(rest, d, size);
      assert rows == rest + [last];
      if last.size == size && Supports(d, size) {
        assert Extended(last, d)[0] in Common(rows, d);
      }
      if row :| row in Common(rest, d) && row.size == size {
        assert row in Common(rows, d);
      }
    }
  }

  // ----- whole runs -----

  datatype Op = Plug(d: TextOut) | Unplug(d: TextOut)

  function Step(c: Console, op: Op): Console {
    match op
    case Plug(d) => Add(c, d)
    case Unplug(d) => Delete(c, d)
  }

  function Run(c: Console, ops: seq<Op>): Console
    decreases |ops|
  {
    if ops == [] then c else Run(Step(c, ops[0]), ops[1..])
  }

  const START := Console([], NO_CONSOLE_ROWS, 0)

  lemma {:induction false} RowsIgnoreMode(ds: seq<TextOut>, mode: int, mode': int)
    ensures AddAll(ds, mode).rows == AddAll(ds, mode').rows
  {
    if ds != [] {
      RowsIgnoreMode(ds[..|ds| - 1], mode, mode');
    }
  }

  /** The table is that of adding the consoles present, in their order, to an empty splitter. */
  ghost predicate Canonical(c: Console) {
    c.rows == AddAll(c.devices, 0).rows
  }

  lemma AddCanonical(c: Console, d: TextOut)
    requires Canonical(c)
    ensures Canonical(Add(c, d))
  {
    var ds := c.devices + [d];
    assert ds[..|ds| - 1] == c.devices;
    if c.devices != [] {
      assert AddNext(c, d).rows == AddNext(AddAll(c.devices, 0), d).rows;
    }
  }

  lemma DeleteCanonical(c: Console, d: TextOut)
    requires Canonical(c)
    ensures Canonical(Delete(c, d))
  {
    hide AddAll;
    var i := Position(c.devices, d);
    if i < |c.devices| {
      RowsIgnoreMode(c.devices[..i] + c.devices[i + 1..], c.mode, 0);
    }
  }

  /** The table only depends on the consoles present, in their order: whatever was plugged and
      unplugged before, it is the table of adding just these consoles to an empty splitter. */
  lemma {:induction false} RunCanonical(c: Console, ops: seq<Op>)
    requires Canonical(c)
    ensures Canonical(Run(c, ops))
    decreases |ops|
  {
    if ops != [] {
      match ops[0] {
        case Plug(d) => AddCanonical(c, d);
        case Unplug(d) => DeleteCanonical(c, d);
      }
      RunCanonical(Step(c, ops[0]), ops[1..]);
    }
  }

  lemma {:induction false} RunConsistent(c: Console, ops: seq<Op>)
    requires Consistent(c)
    ensures Consistent(Run(c, ops))
    decreases |ops|
  {
    if ops != [] {
      match ops[0] {
        case Plug(d) => AddConsistent(c, d);
        case Unplug(d) => DeleteConsistent(c, d);
      }
      RunConsistent(Step(c, ops[0]), ops[1..]);
    }
  }

  /** Whatever is plugged and unplugged from the start on, the table is consistent and only depends on the
      consoles present. */
  lemma RunFromStart(ops: seq<Op>)
    ensures Consistent(Run(START, ops)) && Canonical(Run(START, ops))
  {
    AddAllConsistent([], 0);
    RunConsistent(START, ops);
    RunCanonical(START, ops);
  }

  // ----- the current mode -----

  /** A current mode in range is lost exactly when it is number 2 or higher and its row gets no mode of the
      console added.  Otherwise its new number is in range and names the row with the same modes of the
      consoles so far and the same geometry, unless it is mode 1, whose geometry may have been cleared. */
  lemma AddNextMode(c: Console, d: TextOut)
    requires c.devices != [] && 0 <= c.mode < |c.rows|
    ensures var after := AddNext(c, d);
            var column := ProbeModes(c.rows, d, |d.modes|).column;
            && (after.mode == -1 <==> 2 <= c.mode && column[c.mode] == -1)
            && (after.mode != -1 ==>
                  && 0 <= after.mode < |after.rows|
                  && after.rows[after.mode].modes == c.rows[c.mode].modes + [column[c.mode]]
                  && (after.rows[after.mode].size == c.rows[c.mode].size
                      || (c.mode == 1 && after.rows[after.mode].size == NO_GEOMETRY)))
  {
    hide Kept, Renumbered, ProbeModes;
    var p := ProbeModes(c.rows, d, |d.modes|);
    ProbeKeeps(c.rows, d, |d.modes|);
    ProbeSizes(c.rows, d, |d.modes|);
    RenumberedRow(Attach(p), p.column, c.mode);
  }

  /** Probing changes at most the geometry of row 1, which it clears. */
  lemma {:induction false} ProbeSizes(rows: seq<Row>, d: TextOut, n: nat)
    requires n <= |d.modes|
    ensures var p := ProbeModes(rows, d, n);
            forall r :: 0 <= r < |rows| ==>
              p.rows[r].size == if r == 1 && 1 < n && d.modes[1].Failed? then NO_GEOMETRY else rows[r].size
  {
    if n > 0 {
      ProbeSizes(rows, d, n - 1);
      var p := ProbeModes(rows, d, n - 1);
      forall r | 0 <= r < |rows|
        ensures ProbeModes(rows, d, n).rows[r].size ==
                if r == 1 && 1 < n && d.modes[1].Failed? then NO_GEOMETRY else rows[r].size
      {
        ProbeModeSize(p, d, n - 1, r);
        hide ProbeMode;
      }
    }
  }

  lemma ProbeModeSize(p: Probe, d: TextOut, m: nat, r: nat)
    requires m < |d.modes| && r < |p.rows| == |p.column|
    ensures ProbeMode(p, d, m).rows[r].size ==
            if r == 1 && m == 1 && d.modes[1].Failed? then NO_GEOMETRY else p.rows[r].size
  {
  }

  /** When the first console's geometries are told apart, it is lost exactly when the console added does not
      support its geometry. */
  lemma AddNextModeDistinct(c: Console, d: TextOut)
    requires c.devices != [] && 0 <= c.mode < |c.rows| && DistinctRows(c.rows)
    ensures AddNext(c, d).mode == -1 <==> 2 <= c.mode && Supported(c.rows[c.mode].size) !in d.modes
  {
    AddNextMode(c, d);
    ProbeFindsLast(c.rows, d, |d.modes|);
    SupportsMeaning(d, c.rows[c.mode].size);
    hide AddNext, ProbeModes;
  }

  // ----- the consoles' replies -----

  /** What is recorded of the first console: the geometry it replies with, or what a failing call leaves,
      but for a failing mode 1, which has no columns and no rows. */
  lemma ReportedMeaning(d: TextOut, m: nat, size: Geometry)
    requires m < |d.modes|
    ensures d.modes[m] == Supported(size) ==> ReportedSize(d, m) == size
    ensures m != 1 && d.modes[m] == Failed(size) ==> ReportedSize(d, m) == size
    ensures m == 1 && d.modes[m] == Failed(size) ==> ReportedSize(d, m) == Geometry(0, 0)
  {
  }

  /** Console `d` has a mode 1 and fails to report it. */
  predicate FailsModeOne(d: TextOut) {
    1 < |d.modes| && d.modes[1].Failed?
  }

  /** A row has the geometry that the first console replied with for its mode; a mode 1 that any console
      fails to report has none. */
  ghost predicate RowReplied(ds: seq<TextOut>, row: Row, r: nat) {
    && ds != [] && row.modes != [] && 0 <= row.modes[0] < |ds[0].modes|
    && (if r == 1 && exists d :: d in ds && FailsModeOne(d) then row.size == Geometry(0, 0)
        else ds[0].modes[row.modes[0]] == Supported(row.size) || ds[0].modes[row.modes[0]] == Failed(row.size))
  }

  ghost predicate Replied(c: Console) {
    forall r :: 0 <= r < |c.rows| ==> RowReplied(c.devices, c.rows[r], r)
  }

  lemma FirstReplied(c: Console, d: TextOut)
    ensures Replied(AddFirst(c, d))
  {
    var rows := FirstTable(d);
    forall r | 0 <= r < |rows| ensures RowReplied([d], rows[r], r) {
      assert rows[r].modes[0] == r;
      assert d in [d];
    }
  }

  lemma NextReplied(c: Console, d: TextOut)
    requires c.devices != [] && Consistent(c) && Replied(c)
    ensures Replied(AddNext(c, d))
  {
    var p := ProbeModes(c.rows, d, |d.modes|);
    ProbeKeeps(c.rows, d, |d.modes|);
    ProbeSizes(c.rows, d, |d.modes|);
    var n := |p.rows|;
    var rows := Kept(Attach(p), p.column, n);
    KeptLength(Attach(p), p.column, n);
    forall r | 0 <= r < |rows|
      ensures RowReplied(c.devices + [d], rows[r], r)
    {
      KeptAt(Attach(p), p.column, n, r);
      LowOrigin(p.column, n, r);
      RowStillReplied(c, d, p, Origin(p.column, n, r), r);
    }
  }

  lemma RowStillReplied(c: Console, d: TextOut, p: Probe, o: nat, r: nat)
    requires c.devices != [] && o < |c.rows| && RowReplied(c.devices, c.rows[o], o)
    requires ProbeConsistent(c.rows, d, |d.modes|, p)
    requires p.rows[o].size == if o == 1 && FailsModeOne(d) then NO_GEOMETRY else c.rows[o].size
    requires (r < 2 <==> o < 2) && (r < 2 ==> o == r)
    ensures RowReplied(c.devices + [d], Attach(p)[o], r)
  {
    var ds, row := c.devices + [d], Attach(p)[o];
    assert row.modes == c.rows[o].modes + [p.column[o]] && row.size == p.rows[o].size;
    assert forall e :: e in ds <==> e in c.devices || e == d;
  }

  /** After any run, with at least one console left, every row has the geometry that the first console
      replied with, but for a mode 1 that some console fails to report. */
  lemma {:induction false} RunReplied(ds: seq<TextOut>, mode: int)
    requires ds != []
    ensures Replied(AddAll(ds, mode))
  {
    var n := |ds| - 1;
    if n == 0 {
      FirstReplied(AddAll(ds[..n], mode), ds[n]);
    } else {
      RunReplied(ds[..n], mode);
      AddAllConsistent(ds[..n], mode);
      hide Replied, Consistent;
      NextReplied(AddAll(ds[..n], mode), ds[n]);
    }
  }

  lemma RunFromStartReplied(ops: seq<Op>)
    requires Run(START, ops).devices != []
    ensures Replied(Run(START, ops))
  {
    RunFromStart(ops);
    RunReplied(Run(START, ops).devices, 0);
    hide AddAll;
  }

  /** A splitter without consoles has one mode, of 40 columns and 12 rows. */
  lemma StartMeaning()
    ensures START.devices == [] && START.rows == [Row(Geometry(40, 12), [])] && START.mode == 0
  {
  }

  /** The entries that a further console gets in rows 0 and 1, which no filter removes: its last mode with the
      row's geometry, and mode 1 in row 1 when it fails to report that. */
  lemma {:induction false} LowEntries(rows: seq<Row>, d: TextOut, n: nat)
    requires n <= |d.modes| && 2 <= |rows| && rows[0].size != rows[1].size
    requires Supported(Geometry(0, 0)) !in d.modes
    ensures var column := ProbeModes(rows, d, n).column;
            && column[0] == LastMode(d, rows[0].size, n)
            && column[1] == if 1 < n && d.modes[1].Failed? then 1 else LastMode(d, rows[1].size, n)
  {
    if n > 0 {
      LowEntries(rows, d, n - 1);
      ProbeSizes(rows, d, n - 1);
      var p := ProbeModes(rows, d, n - 1);
      assert d.modes[n - 1] in d.modes;
      if d.modes[n - 1].Supported? {
        FirstMatchLow(p.rows, d.modes[n - 1].size);
      }
      hide ProbeModes, FirstMatch;
    }
  }

  lemma FirstMatchLow(rows: seq<Row>, size: Geometry)
    requires 2 <= |rows|
    ensures FirstMatch(rows, size) == 0 <==> rows[0].size == size
    ensures FirstMatch(rows, size) == 1 <==> rows[0].size != size && rows[1].size == size
  {
  }
}
