/** ConOut and StdErr with a console in common: each table keeps the modes the other one has too. */
module StdErrSync {
  import opened ModeTable
  import opened ModeTableLaws

  function Sizes(rows: seq<Row>): set<Geometry> {
    set row | row in rows :: row.size
  }

  /** 1 for each row of `rows` whose geometry `other` has, -1 for the rest. */
  function MatchColumn(rows: seq<Row>, other: seq<Row>): (column: seq<int>)
    ensures |column| == |rows|
  {
    seq(|rows|, i requires 0 <= i < |rows| =>
      if FirstMatch(other, rows[i].size) < |other| then 1 else -1)
  }

  /** 1 for each row of `rows` that is the first one with the geometry of one of the first `n` rows
      of `other`, -1 for the rest. */
  function HitColumn(rows: seq<Row>, other: seq<Row>, n: nat): (column: seq<int>)
    requires n <= |other|
    ensures |column| == |rows|
  {
    if n == 0 then seq(|rows|, _ => -1)
    else
      var column := HitColumn(rows, other, n - 1);
      var j := FirstMatch(rows, other[n - 1].size);
      if j < |rows| then column[j := 1] else column
  }

  /** Keeps the rows that `column` keeps; a current mode that is lost is replaced by mode 0. */
  function Restrict(c: Console, column: seq<int>): Console
    requires |column| == |c.rows|
  {
    var rows := Kept(c.rows, column, |c.rows|);
    var mode := Renumbered(column, c.mode);
    Console(c.devices, rows, if mode < 0 && rows != [] then 0 else mode)
  }

  function SyncConOut(conOut: Console, stdErr: Console): Console {
    Restrict(conOut, MatchColumn(conOut.rows, stdErr.rows))
  }

  function SyncStdErr(conOut: Console, stdErr: Console): Console {
    Restrict(stdErr, HitColumn(stdErr.rows, conOut.rows, |conOut.rows|))
  }

  lemma MatchMeaning(rows: seq<Row>, other: seq<Row>)
    ensures forall i :: 0 <= i < |rows| ==>
              (MatchColumn(rows, other)[i] != -1 <==> rows[i].size in Sizes(other))
  {
  }

  lemma {:induction false} HitMeaning(rows: seq<Row>, other: seq<Row>, n: nat, j: nat)
    requires n <= |other| && j < |rows|
    ensures HitColumn(rows, other, n)[j] != -1 <==>
            exists i :: 0 <= i < n && FirstMatch(rows, other[i].size) == j
  {
    if n > 0 {
      HitMeaning(rows, other, n - 1, j);
    }
  }

  /** A filtered table has the geometries of the rows that stay. */
  lemma KeptSizes(rows: seq<Row>, column: seq<int>, size: Geometry)
    requires |rows| == |column|
    ensures size in Sizes(Kept(rows, column, |rows|)) <==>
            exists i :: 0 <= i < |rows| && rows[i].size == size && Stays(column, i)
  {
    var kept := Kept(rows, column, |rows|);
    if size in Sizes(kept) {
      var row :| row in kept && row.size == size;
      var k :| 0 <= k < |kept| && kept[k] == row;
      KeptLength(rows, column, |rows|);
      KeptAt(rows, column, |rows|, k);
      assert Stays(column, Origin(column, |rows|, k));
    }
    if i :| 0 <= i < |rows| && rows[i].size == size && Stays(column, i) {
      KeptHas(rows, column, |rows|, i);
    }
  }

  /** A geometry both tables have stays in both. */
  lemma CommonSizeStays(conOut: Console, stdErr: Console, size: Geometry)
    requires size in Sizes(conOut.rows) && size in Sizes(stdErr.rows)
    ensures size in Sizes(SyncConOut(conOut, stdErr).rows)
    ensures size in Sizes(SyncStdErr(conOut, stdErr).rows)
  {
    var row :| row in conOut.rows && row.size == size;
    var i :| 0 <= i < |conOut.rows| && conOut.rows[i] == row;
    var column := MatchColumn(conOut.rows, stdErr.rows);
    MatchMeaning(conOut.rows, stdErr.rows);
    assert Stays(column, i);
    KeptSizes(conOut.rows, column, size);
    var j := FirstMatch(stdErr.rows, size);
    var hits := HitColumn(stdErr.rows, conOut.rows, |conOut.rows|);
    HitMeaning(stdErr.rows, conOut.rows, |conOut.rows|, j);
    assert Stays(hits, j);
    KeptSizes(stdErr.rows, hits, size);
  }

  /** Only a reserved row can stay without a partner in the other table. */
  lemma LoneSizeIsReserved(conOut: Console, stdErr: Console, size: Geometry)
    ensures size in Sizes(SyncConOut(conOut, stdErr).rows) && size !in Sizes(stdErr.rows) ==>
              exists i :: 0 <= i < 2 && i < |conOut.rows| && conOut.rows[i].size == size
    ensures size in Sizes(SyncStdErr(conOut, stdErr).rows) && size !in Sizes(conOut.rows) ==>
              exists i :: 0 <= i < 2 && i < |stdErr.rows| && stdErr.rows[i].size == size
  {
    var column := MatchColumn(conOut.rows, stdErr.rows);
    MatchMeaning(conOut.rows, stdErr.rows);
    KeptSizes(conOut.rows, column, size);
    var hits := HitColumn(stdErr.rows, conOut.rows, |conOut.rows|);
    KeptSizes(stdErr.rows, hits, size);
    if size in Sizes(SyncStdErr(conOut, stdErr).rows) && size !in Sizes(conOut.rows) {
      var j :| 0 <= j < |stdErr.rows| && stdErr.rows[j].size == size && Stays(hits, j);
      HitMeaning(stdErr.rows, conOut.rows, |conOut.rows|, j);
    }
  }

  /** The geometries of rows 0 and 1 of `rows`, which no filter removes, are all in `other`. */
  ghost predicate ReservedIn(rows: seq<Row>, other: seq<Row>) {
    forall i :: 0 <= i < 2 && i < |rows| ==> rows[i].size in Sizes(other)
  }

  lemma ReservedStays(c: Console, column: seq<int>, i: nat)
    requires |column| == |c.rows| && i < 2 && i < |c.rows|
    ensures c.rows[i].size in Sizes(Restrict(c, column).rows)
  {
    assert Stays(column, i);
    KeptSizes(c.rows, column, c.rows[i].size);
  }

  lemma RestrictShrinks(c: Console, column: seq<int>)
    requires |column| == |c.rows|
    ensures Sizes(Restrict(c, column).rows) <= Sizes(c.rows)
  {
    forall size | size in Sizes(Restrict(c, column).rows)
      ensures size in Sizes(c.rows)
    {
      KeptSizes(c.rows, column, size);
    }
  }

  /** The two tables hold the same geometries after the sync, that of a cleared mode 1 included, exactly when
      the other table had those of rows 0 and 1 already, both ways. */
  lemma SyncSameSizes(conOut: Console, stdErr: Console)
    ensures Sizes(SyncConOut(conOut, stdErr).rows) == Sizes(SyncStdErr(conOut, stdErr).rows) <==>
            ReservedIn(conOut.rows, stdErr.rows) && ReservedIn(stdErr.rows, conOut.rows)
  {
    var column := MatchColumn(conOut.rows, stdErr.rows);
    MatchMeaning(conOut.rows, stdErr.rows);
    var hits := HitColumn(stdErr.rows, conOut.rows, |conOut.rows|);
    var a, b := Sizes(SyncConOut(conOut, stdErr).rows), Sizes(SyncStdErr(conOut, stdErr).rows);
    RestrictShrinks(conOut, column);
    RestrictShrinks(stdErr, hits);
    if a == b {
      forall i | 0 <= i < 2 && i < |conOut.rows|
        ensures conOut.rows[i].size in Sizes(stdErr.rows)
      {
        ReservedStays(conOut, column, i);
      }
      forall i | 0 <= i < 2 && i < |stdErr.rows|
        ensures stdErr.rows[i].size in Sizes(conOut.rows)
      {
        ReservedStays(stdErr, hits, i);
      }
    }
    if ReservedIn(conOut.rows, stdErr.rows) && ReservedIn(stdErr.rows, conOut.rows) {
      forall size | size in a || size in b
        ensures size in a && size in b
      {
        LoneSizeIsReserved(conOut, stdErr, size);
        assert size in Sizes(conOut.rows) && size in Sizes(stdErr.rows);
        CommonSizeStays(conOut, stdErr, size);
      }
    }
  }

  /** The geometries that QueryMode reports: a cleared mode is not supported. */
  function Seen(rows: seq<Row>): set<Geometry> {
    Sizes(rows) - {NO_GEOMETRY}
  }

  /** The other console reports the geometries of rows 0 and 1 that are reported at all. */
  ghost predicate ReservedSeenIn(rows: seq<Row>, other: seq<Row>) {
    forall i :: 0 <= i < 2 && i < |rows| && rows[i].size != NO_GEOMETRY ==> rows[i].size in Seen(other)
  }

  /** The two consoles report the same geometries after the sync exactly when each reported beforehand what
      the other one's modes 0 and 1 report. */
  lemma SyncAgrees(conOut: Console, stdErr: Console)
    ensures Seen(SyncConOut(conOut, stdErr).rows) == Seen(SyncStdErr(conOut, stdErr).rows) <==>
            ReservedSeenIn(conOut.rows, stdErr.rows) && ReservedSeenIn(stdErr.rows, conOut.rows)
  {
    var column := MatchColumn(conOut.rows, stdErr.rows);
    var hits := HitColumn(stdErr.rows, conOut.rows, |conOut.rows|);
    var a, b := Seen(SyncConOut(conOut, stdErr).rows), Seen(SyncStdErr(conOut, stdErr).rows);
    RestrictShrinks(conOut, column);
    RestrictShrinks(stdErr, hits);
    hide SyncConOut, SyncStdErr, Restrict, MatchColumn, HitColumn, Sizes;
    if a == b {
      forall i | 0 <= i < 2 && i < |conOut.rows| && conOut.rows[i].size != NO_GEOMETRY
        ensures conOut.rows[i].size in Seen(stdErr.rows)
      {
        SyncKeepsReserved(conOut, stdErr, i);
        assert conOut.rows[i].size in a;
      }
      forall i | 0 <= i < 2 && i < |stdErr.rows| && stdErr.rows[i].size != NO_GEOMETRY
        ensures stdErr.rows[i].size in Seen(conOut.rows)
      {
        SyncKeepsReserved(conOut, stdErr, i);
        assert stdErr.rows[i].size in b;
      }
    }
    if ReservedSeenIn(conOut.rows, stdErr.rows) && ReservedSeenIn(stdErr.rows, conOut.rows) {
      forall size | size in a || size in b
        ensures size in a && size in b
      {
        LoneSizeIsReserved(conOut, stdErr, size);
        assert size in Seen(conOut.rows) && size in Seen(stdErr.rows);
        CommonSizeStays(conOut, stdErr, size);
      }
    }
  }

  lemma SyncKeepsReserved(conOut: Console, stdErr: Console, i: nat)
    requires i < 2
    ensures Sizes(SyncConOut(conOut, stdErr).rows) <= Sizes(conOut.rows)
    ensures Sizes(SyncStdErr(conOut, stdErr).rows) <= Sizes(stdErr.rows)
    ensures i < |conOut.rows| ==> conOut.rows[i].size in Sizes(SyncConOut(conOut, stdErr).rows)
    ensures i < |stdErr.rows| ==> stdErr.rows[i].size in Sizes(SyncStdErr(conOut, stdErr).rows)
  {
    var column := MatchColumn(conOut.rows, stdErr.rows);
    var hits := HitColumn(stdErr.rows, conOut.rows, |conOut.rows|);
    RestrictShrinks(conOut, column);
    RestrictShrinks(stdErr, hits);
    if i < |conOut.rows| {
      ReservedStays(conOut, column, i);
    }
    if i < |stdErr.rows| {
      ReservedStays(stdErr, hits, i);
    }
  }

  // ----- counting -----

  ghost predicate AllDistinct(rows: seq<Row>) {
    forall r, s :: 0 <= r < s < |rows| ==> rows[r].size != rows[s].size
  }

  lemma RestrictDistinct(c: Console, column: seq<int>)
    requires |column| == |c.rows| && AllDistinct(c.rows)
    ensures AllDistinct(Restrict(c, column).rows)
  {
    var rows := Restrict(c, column).rows;
    KeptLength(c.rows, column, |c.rows|);
    forall r, s | 0 <= r < s < |rows|
      ensures rows[r].size != rows[s].size
    {
      KeptAt(c.rows, column, |c.rows|, r);
      KeptAt(c.rows, column, |c.rows|, s);
      OriginMonotone(column, |c.rows|, r, s);
    }
  }

  lemma SizesAppend(rows: seq<Row>, last: Row)
    ensures Sizes(rows + [last]) == Sizes(rows) + {last.size}
  {
    forall size | size in Sizes(rows) + {last.size}
      ensures size in Sizes(rows + [last])
    {
      if size in Sizes(rows) {
        var row :| row in rows && row.size == size;
        assert row in rows + [last];
      } else {
        assert last in rows + [last];
      }
    }
  }

  lemma {:induction false} DistinctCount(rows: seq<Row>)
    requires AllDistinct(rows)
    ensures |Sizes(rows)| == |rows|
  {
    if rows == [] {
      assert Sizes(rows) == {};
    } else {
      var n := |rows| - 1;
      DistinctCount(rows[..n]);
      assert rows == rows[..n] + [rows[n]];
      SizesAppend(rows[..n], rows[n]);
    }
  }

  /** With geometries told apart on both sides, agreement is also agreement on the number of modes. */
  lemma SyncAgreesOnMaxMode(conOut: Console, stdErr: Console)
    requires AllDistinct(conOut.rows) && AllDistinct(stdErr.rows)
    requires ReservedIn(conOut.rows, stdErr.rows) && ReservedIn(stdErr.rows, conOut.rows)
    ensures |SyncConOut(conOut, stdErr).rows| == |SyncStdErr(conOut, stdErr).rows|
  {
    var a, b := SyncConOut(conOut, stdErr), SyncStdErr(conOut, stdErr);
    SyncSameSizes(conOut, stdErr);
    RestrictDistinct(conOut, MatchColumn(conOut.rows, stdErr.rows));
    RestrictDistinct(stdErr, HitColumn(stdErr.rows, conOut.rows, |conOut.rows|));
    DistinctCount(a.rows);
    DistinctCount(b.rows);
  }

  // ----- what the sync keeps -----

  /** A current mode in range stays in range; if its row stays it names the same row, otherwise the
      console is back in mode 0. */
  lemma RestrictMode(c: Console, column: seq<int>)
    requires |column| == |c.rows| && 0 <= c.mode < |c.rows|
    ensures var c' := Restrict(c, column);
            && 0 <= c'.mode < |c'.rows|
            && (if Stays(column, c.mode) then c'.rows[c'.mode] == c.rows[c.mode] else c'.mode == 0)
  {
    RenumberedRow(c.rows, column, c.mode);
    KeptHas(c.rows, column, |c.rows|, 0);
  }

  lemma RestrictConsistent(c: Console, column: seq<int>)
    requires |column| == |c.rows| && Consistent(c)
    ensures Consistent(Restrict(c, column))
  {
    var n := |c.rows|;
    var rows := Kept(c.rows, column, n);
    KeptLength(c.rows, column, n);
    forall r | 0 <= r < |rows|
      ensures RowConsistent(c.devices, rows[r], r)
      ensures rows[r] == c.rows[Origin(column, n, r)]
    {
      KeptAt(c.rows, column, n, r);
      LowOrigin(column, n, r);
      var o := Origin(column, n, r);
      assert RowConsistent(c.devices, c.rows[o], o);
    }
    forall r, s | 0 <= r < s < |rows|
      ensures Lead(rows[r]) < Lead(rows[s])
    {
      OriginMonotone(column, n, r, s);
    }
    if c.devices == [] {
      assert Kept(c.rows, column, 1) == Kept(c.rows, column, 0) + [c.rows[0]];
    }
  }

  // ----- runs of both consoles -----

  datatype Both = Both(conOut: Console, stdErr: Console)

  /** One add or delete on ConOut or StdErr; `shared` is whether the search for a common console,
      which follows, finds one. */
  datatype Event = OnConOut(op: Op, shared: bool) | OnStdErr(op: Op, shared: bool)

  function Sync(b: Both, shared: bool): Both {
    if shared then Both(SyncConOut(b.conOut, b.stdErr), SyncStdErr(b.conOut, b.stdErr)) else b
  }

  /** The search for a common console follows each add, and each delete that leaves consoles. */
  predicate Syncs(c: Console, op: Op) {
    op.Plug? || (op.d in c.devices && |c.devices| > 1)
  }

  function StepBoth(b: Both, e: Event): Both {
    match e
    case OnConOut(op, shared) =>
      Sync(b.(conOut := Step(b.conOut, op)), shared && Syncs(b.conOut, op))
    case OnStdErr(op, shared) =>
      Sync(b.(stdErr := Step(b.stdErr, op)), shared && Syncs(b.stdErr, op))
  }

  function RunBoth(b: Both, es: seq<Event>): Both
    decreases |es|
  {
    if es == [] then b else RunBoth(StepBoth(b, es[0]), es[1..])
  }

  lemma StepConsistent(c: Console, op: Op)
    requires Consistent(c)
    ensures Consistent(Step(c, op))
  {
    match op {
      case Plug(d) => AddConsistent(c, d);
      case Unplug(d) => DeleteConsistent(c, d);
    }
  }

  /** From row 2 on, each table has only geometries of the other one. */
  ghost predicate RowsShared(a: seq<Row>, b: seq<Row>) {
    && (forall r :: 2 <= r < |a| ==> a[r].size in Sizes(b))
    && (forall r :: 2 <= r < |b| ==> b[r].size in Sizes(a))
  }

  lemma SyncShares(conOut: Console, stdErr: Console)
    ensures RowsShared(SyncConOut(conOut, stdErr).rows, SyncStdErr(conOut, stdErr).rows)
  {
    var column := MatchColumn(conOut.rows, stdErr.rows);
    var hits := HitColumn(stdErr.rows, conOut.rows, |conOut.rows|);
    var a, b := SyncConOut(conOut, stdErr).rows, SyncStdErr(conOut, stdErr).rows;
    forall r | 2 <= r < |a| ensures a[r].size in Sizes(b) {
      KeptLength(conOut.rows, column, |conOut.rows|);
      KeptAt(conOut.rows, column, |conOut.rows|, r);
      LowOrigin(column, |conOut.rows|, r);
      MatchMeaning(conOut.rows, stdErr.rows);
      var row := conOut.rows[Origin(column, |conOut.rows|, r)];
      assert row in conOut.rows && row.size == a[r].size;
      CommonSizeStays(conOut, stdErr, a[r].size);
    }
    forall r | 2 <= r < |b| ensures b[r].size in Sizes(a) {
      KeptLength(stdErr.rows, hits, |stdErr.rows|);
      KeptAt(stdErr.rows, hits, |stdErr.rows|, r);
      LowOrigin(hits, |stdErr.rows|, r);
      var j := Origin(hits, |stdErr.rows|, r);
      HitMeaning(stdErr.rows, conOut.rows, |conOut.rows|, j);
      var i :| 0 <= i < |conOut.rows| && FirstMatch(stdErr.rows, conOut.rows[i].size) == j;
      assert conOut.rows[i] in conOut.rows && stdErr.rows[j] in stdErr.rows;
      CommonSizeStays(conOut, stdErr, b[r].size);
    }
  }

  /** The sync does not keep less than it has to: a geometry of both tables stays in both, and so do the
      geometries of rows 0 and 1. */
  lemma SyncKeeps(conOut: Console, stdErr: Console, size: Geometry)
    ensures size in Sizes(conOut.rows) && size in Sizes(stdErr.rows) ==>
              size in Sizes(SyncConOut(conOut, stdErr).rows) && size in Sizes(SyncStdErr(conOut, stdErr).rows)
    ensures forall i: nat :: i < 2 && i < |conOut.rows| ==>
              conOut.rows[i].size in Sizes(SyncConOut(conOut, stdErr).rows)
    ensures forall i: nat :: i < 2 && i < |stdErr.rows| ==>
              stdErr.rows[i].size in Sizes(SyncStdErr(conOut, stdErr).rows)
  {
    if size in Sizes(conOut.rows) && size in Sizes(stdErr.rows) {
      CommonSizeStays(conOut, stdErr, size);
    }
    SyncKeepsReserved(conOut, stdErr, 0);
    SyncKeepsReserved(conOut, stdErr, 1);
  }

  /** An event changes the console it is about as an add or a delete does.  If the search for a common console
      follows, which an add or a delete that finds its console and leaves others brings about, and finds one,
      both consoles then only have geometries of each other from row 2 on, and otherwise the other console stays
      as it is. */
  lemma EventMeaning(b: Both, e: Event)
    ensures var own := if e.OnConOut? then b.conOut else b.stdErr;
            var searched := e.op.Plug? || (e.op.d in own.devices && |own.devices| > 1);
            var after := StepBoth(b, e);
            && (e.OnConOut? ==> after.conOut.devices == Step(b.conOut, e.op).devices
                                && after.stdErr.devices == b.stdErr.devices)
            && (e.OnStdErr? ==> after.stdErr.devices == Step(b.stdErr, e.op).devices
                                && after.conOut.devices == b.conOut.devices)
            && (searched && e.shared ==> RowsShared(after.conOut.rows, after.stdErr.rows))
            && (!(searched && e.shared) ==>
                  after == if e.OnConOut? then b.(conOut := Step(b.conOut, e.op))
                           else b.(stdErr := Step(b.stdErr, e.op)))
  {
    hide Step, SyncConOut, SyncStdErr;
    var m := if e.OnConOut? then b.(conOut := Step(b.conOut, e.op)) else b.(stdErr := Step(b.stdErr, e.op));
    SyncShares(m.conOut, m.stdErr);
    SyncDevices(m.conOut, m.stdErr);
  }

  lemma SyncDevices(conOut: Console, stdErr: Console)
    ensures SyncConOut(conOut, stdErr).devices == conOut.devices
    ensures SyncStdErr(conOut, stdErr).devices == stdErr.devices
  {
  }

  /** In every state of every run of adds and deletes on both consoles, both tables are consistent. */
  lemma {:induction false} RunBothConsistent(b: Both, es: seq<Event>)
    requires Consistent(b.conOut) && Consistent(b.stdErr)
    ensures Consistent(RunBoth(b, es).conOut) && Consistent(RunBoth(b, es).stdErr)
    decreases |es|
  {
    if es != [] {
      StepConsistent(b.conOut, es[0].op);
      StepConsistent(b.stdErr, es[0].op);
      var m := match es[0]
        case OnConOut(op, _) => b.(conOut := Step(b.conOut, op))
        case OnStdErr(op, _) => b.(stdErr := Step(b.stdErr, op));
      RestrictConsistent(m.conOut, MatchColumn(m.conOut.rows, m.stdErr.rows));
      RestrictConsistent(m.stdErr, HitColumn(m.stdErr.rows, m.conOut.rows, |m.conOut.rows|));
      RunBothConsistent(StepBoth(b, es[0]), es[1..]);
    }
  }

  /** From the start on, both tables are consistent after any run. */
  lemma RunBothFromStart(es: seq<Event>)
    ensures Consistent(RunBoth(Both(START, START), es).conOut)
    ensures Consistent(RunBoth(Both(START, START), es).stdErr)
  {
    AddAllConsistent([], 0);
    RunBothConsistent(Both(START, START), es);
  }

  // ----- a run after which they do not agree -----

  const TEXT_80_25 := Geometry(80, 25)
  const TEXT_80_50 := Geometry(80, 50)

  /** Console `d` has both modes 0 and 1, and console `e` fails to report mode 1. */
  ghost predicate Differ(d: TextOut, e: TextOut) {
    && d.modes == [Supported(TEXT_80_25), Supported(TEXT_80_50)]
    && |e.modes| == 2 && e.modes[0] == Supported(TEXT_80_25) && e.modes[1].Failed?
  }

  lemma OneConsole(d: TextOut, e: TextOut)
    requires Differ(d, e)
    ensures Add(START, d) == Console([d], [Row(TEXT_80_25, [0]), Row(TEXT_80_50, [1])], 0)
  {
    var rows := [Row(TEXT_80_25, [0]), Row(TEXT_80_50, [1])];
    assert FirstTable(d) == rows;
  }

  lemma BothConsoles(d: TextOut, e: TextOut)
    requires Differ(d, e)
    ensures Add(Add(START, d), e)
         == Console([d, e], [Row(TEXT_80_25, [0, 0]), Row(NO_GEOMETRY, [1, 1])], 0)
  {
    OneConsole(d, e);
    var c := Add(START, d);
    var p0, p1 := ProbeModes(c.rows, e, 0), ProbeModes(c.rows, e, 1);
    assert p0.column == [-1, -1];
    assert FirstMatch(c.rows, TEXT_80_25) == 0;
    assert p1 == Probe(c.rows, [0, -1]);
    var p := ProbeModes(c.rows, e, 2);
    assert p == ProbeMode(p1, e, 1) == Probe([Row(TEXT_80_25, [0]), Row(NO_GEOMETRY, [1])], [0, 1]);
    KeepsBoth(Attach(p), p.column);
    assert [0] + [0] == [0, 0] && [1] + [1] == [1, 1];
    assert Attach(p) == [Row(TEXT_80_25, [0, 0]), Row(NO_GEOMETRY, [1, 1])];
  }

  /** No filter does anything to a table of two rows. */
  lemma KeepsBoth<T>(xs: seq<T>, column: seq<int>)
    requires |xs| == |column| == 2
    ensures Kept(xs, column, 2) == xs && Removed(column, 2) == 0
    ensures Renumbered(column, 0) == 0
  {
    assert Kept(xs, column, 1) == Kept(xs, column, 0) + [xs[0]];
    assert Kept(xs, column, 2) == Kept(xs, column, 1) + [xs[1]];
  }

  lemma SyncChangesNothing(conOut: Console, stdErr: Console)
    requires |conOut.rows| == |stdErr.rows| == 2 && conOut.mode == stdErr.mode == 0
    ensures SyncConOut(conOut, stdErr) == conOut && SyncStdErr(conOut, stdErr) == stdErr
  {
    KeepsBoth(conOut.rows, MatchColumn(conOut.rows, stdErr.rows));
    KeepsBoth(stdErr.rows, HitColumn(stdErr.rows, conOut.rows, 2));
  }

  /** The failing side of `SyncAgrees` is reached: `d` is plugged into both, and `e` into ConOut alone.  They
      share `d` all along, and in the end ConOut does not expose the mode 1 that StdErr exposes. */
  lemma SharingRunDisagrees(d: TextOut, e: TextOut)
    requires Differ(d, e)
    ensures var es := [OnConOut(Plug(d), false), OnStdErr(Plug(d), true), OnConOut(Plug(e), true)];
            var b := RunBoth(Both(START, START), es);
            && d in b.conOut.devices && d in b.stdErr.devices
            && !ReservedSeenIn(b.stdErr.rows, b.conOut.rows)
            && TEXT_80_50 in Seen(b.stdErr.rows) && TEXT_80_50 !in Seen(b.conOut.rows)
  {
    OneConsole(d, e);
    BothConsoles(d, e);
    hide Add, SyncConOut, SyncStdErr;
    var one, two := Add(START, d), Add(Add(START, d), e);
    SyncChangesNothing(one, one);
    SyncChangesNothing(two, one);
    var b0, b1, b2 := Both(START, START), Both(one, START), Both(one, one);
    var e0, e1, e2 := OnConOut(Plug(d), false), OnStdErr(Plug(d), true), OnConOut(Plug(e), true);
    assert StepBoth(b0, e0) == b1 && StepBoth(b1, e1) == b2 && StepBoth(b2, e2) == Both(two, one);
    assert [e0, e1, e2][1..] == [e1, e2] && [e1, e2][1..] == [e2] && [e2][1..] == [];
    assert RunBoth(Both(two, one), []) == Both(two, one);
    assert RunBoth(b2, [e2]) == Both(two, one);
    assert RunBoth(b1, [e1, e2]) == RunBoth(b2, [e2]);
    assert one.rows[1] in one.rows;
    assert forall row :: row in two.rows ==> row.size != TEXT_80_50;
  }
}
