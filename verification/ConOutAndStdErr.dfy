/** ConOut and StdErr as the driver holds them, kept in step when they have a console in common. */
module ConOutAndStdErr {
  import opened ModeTable
  import opened ModeTableLaws
  import opened StdErrSync
  import opened Grids
  import opened TextOutSplitter

  lemma {:induction false} UnitOffset(r: nat)
    ensures Offset(1, r) == r
  {
    if r > 0 {
      UnitOffset(r - 1);
    }
  }

  lemma WholeColumn(column: seq<int>)
    ensures IsColumn(column, 0, 1, column)
  {
    forall r | 0 <= r < |column|
      ensures 0 + Offset(1, r) < |column| && column[0 + Offset(1, r)] == column[r]
    {
      UnitOffset(r);
    }
  }

  /** Keeps the virtual modes that `filter` keeps; a current mode that is lost becomes mode 0. */
  method RestrictModes(s: Splitter, filter: array<int>)
    requires s.Valid() && s.consoles > 0 && filter !in s.Repr() && filter.Length == s.maxMode
    modifies s.Repr()
    ensures s.Repr() == old(s.Repr())
    ensures s.Valid() && s.State() == Restrict(old(s.State()), old(filter[..]))
  {
    hide Grid, Consistent, Readable, BlankFrom, TableOf, Kept, Restrict;
    ghost var was := s.State();
    ghost var grid := s.LiveGrid();
    ghost var column := filter[..];
    WholeColumn(column);
    KeptTable(grid, s.queryData[..], s.consoles, column, |grid|);
    KeptBlank(grid, s.consoles, column);
    KeptHas(grid, column, |grid|, 0);
    s.maxMode, s.mode := GetIntersection(s.modeMap, filter, 0, s.list.Length, 1, s.maxMode, s.mode, column);
    RestrictMeaning(was, column);
    RestrictConsistent(was, column);
    if s.mode < 0 {
      s.mode := 0;
    }
    assert s.Devices() == was.devices;
    assert s.View() == Restrict(was, column);
  }

  lemma RestrictMeaning(c: Console, column: seq<int>)
    requires |column| == |c.rows|
    ensures var rows := Kept(c.rows, column, |c.rows|);
            var mode := Renumbered(column, c.mode);
            && Restrict(c, column).devices == c.devices
            && Restrict(c, column).rows == rows
            && (rows != [] ==> Restrict(c, column).mode == if mode < 0 then 0 else mode)
  {
  }

  /** Two splitters that share nothing. */
  ghost predicate Apart(conOut: Splitter, stdErr: Splitter)
    reads conOut.Repr(), stdErr.Repr()
  {
    conOut.Valid() && stdErr.Valid() && conOut.Repr() !! stdErr.Repr()
  }

  lemma ApartMeaning(conOut: Splitter, stdErr: Splitter)
    requires Apart(conOut, stdErr)
    ensures conOut.Valid() && stdErr.Valid() && conOut.Repr() !! stdErr.Repr()
  {
  }

  /** The marks that say which virtual modes each of the two consoles keeps. */
  ghost predicate Marks(conOutMap: seq<int>, stdErrMap: seq<int>, conOut: Console, stdErr: Console) {
    && conOutMap == MatchColumn(conOut.rows, stdErr.rows)
    && stdErrMap == HitColumn(stdErr.rows, conOut.rows, |conOut.rows|)
  }

  /** The marks after the first `m` modes of ConOut. */
  ghost predicate Marking(conOutMap: seq<int>, stdErrMap: seq<int>, a: seq<Row>, b: seq<Row>, m: nat) {
    && m <= |a| == |conOutMap| && |b| == |stdErrMap|
    && conOutMap[..m] == MatchColumn(a, b)[..m]
    && (forall i :: m <= i < |a| ==> conOutMap[i] == -1)
    && stdErrMap == HitColumn(b, a, m)
  }

  lemma MarkStart(a: seq<Row>, b: seq<Row>)
    ensures Marking(seq(|a|, _ => -1), seq(|b|, _ => -1), a, b, 0)
  {
  }

  lemma MarkStep(conOutMap: seq<int>, stdErrMap: seq<int>, a: seq<Row>, b: seq<Row>, m: nat)
    requires m < |a| && Marking(conOutMap, stdErrMap, a, b, m)
    ensures var index := FirstMatch(b, a[m].size);
            if index < |b| then
              |conOutMap| == |a| && |stdErrMap| == |b|
              && Marking(conOutMap[m := 1], stdErrMap[index := 1], a, b, m + 1)
            else Marking(conOutMap, stdErrMap, a, b, m + 1)
  {
    hide FirstMatch, MatchColumn;
    MatchEntry(a, b, m);
    Extend(conOutMap, MatchColumn(a, b), m, if FirstMatch(b, a[m].size) < |b| then 1 else -1);
  }

  lemma MatchEntry(a: seq<Row>, b: seq<Row>, m: nat)
    requires m < |a|
    ensures MatchColumn(a, b)[m] == if FirstMatch(b, a[m].size) < |b| then 1 else -1
  {
  }

  lemma Extend(marks: seq<int>, column: seq<int>, m: nat, v: int)
    requires m < |marks| == |column| && marks[..m] == column[..m] && column[m] == v
    ensures marks[m := v][..m + 1] == column[..m + 1]
    ensures marks[m] == v ==> marks[m := v] == marks
  {
    assert column[..m + 1] == column[..m] + [v];
    assert marks[m := v][..m + 1] == marks[..m] + [v];
  }

  lemma MarkEnd(conOutMap: seq<int>, stdErrMap: seq<int>, conOut: Console, stdErr: Console)
    requires Marking(conOutMap, stdErrMap, conOut.rows, stdErr.rows, |conOut.rows|)
    ensures Marks(conOutMap, stdErrMap, conOut, stdErr)
  {
    var column := MatchColumn(conOut.rows, stdErr.rows);
    assert column[..|column|] == column;
  }

  /** Marks mode `m` of ConOut, and its partner, when StdErr has it too. */
  method MarkMode(conOut: Splitter, stdErr: Splitter, conOutMap: array<int>, stdErrMap: array<int>, m: nat)
    requires conOut.Valid() && stdErr.Valid() && conOut.consoles > 0 && stdErr.consoles > 0
    requires m < conOut.maxMode && conOutMap != stdErrMap
    requires {conOutMap, stdErrMap} !! conOut.Repr() + stdErr.Repr()
    requires Marking(conOutMap[..], stdErrMap[..], conOut.State().rows, stdErr.State().rows, m)
    modifies conOutMap, stdErrMap
    ensures Marking(conOutMap[..], stdErrMap[..], old(conOut.State()).rows, old(stdErr.State()).rows, m + 1)
  {
    hide Splitter.Valid, Splitter.State, Splitter.Live, Splitter.Sized, Marking;
    conOut.StateDevices();
    stdErr.StateDevices();
    conOut.StateTable();
    stdErr.StateTable();
    ghost var a, b := conOut.State().rows, stdErr.State().rows;
    var size := conOut.RowSize(m);
    var index := stdErr.FindRow(size);
    ghost var x, y := conOutMap[..], stdErrMap[..];
    MarkStep(x, y, a, b, m);
    if index < stdErr.maxMode {
      conOutMap[m] := 1;
      stdErrMap[index] := 1;
      assert conOutMap[..] == x[m := 1] && stdErrMap[..] == y[index := 1];
    }
  }

  /** Marks, in both tables, the modes that the two consoles have in common. */
  method MarkCommonModes(conOut: Splitter, stdErr: Splitter)
    returns (conOutMap: array<int>, stdErrMap: array<int>)
    requires Apart(conOut, stdErr) && conOut.consoles > 0 && stdErr.consoles > 0
    ensures Apart(conOut, stdErr) && fresh(conOutMap) && fresh(stdErrMap) && conOutMap != stdErrMap
    ensures conOutMap.Length == conOut.maxMode && stdErrMap.Length == stdErr.maxMode
    ensures conOut.State() == old(conOut.State()) && stdErr.State() == old(stdErr.State())
    ensures Marks(conOutMap[..], stdErrMap[..], conOut.State(), stdErr.State())
  {
    hide Apart, Splitter.Valid, Splitter.State, Splitter.Sized, Splitter.Live, Marking, Marks, MatchColumn, HitColumn;
    ApartMeaning(conOut, stdErr);
    conOut.StateDevices();
    stdErr.StateDevices();
    ghost var a, b := conOut.State(), stdErr.State();
    conOutMap := new int[conOut.maxMode](_ => -1);
    stdErrMap := new int[stdErr.maxMode](_ => -1);
    assert conOutMap[..] == seq(|a.rows|, _ => -1) && stdErrMap[..] == seq(|b.rows|, _ => -1);
    MarkStart(a.rows, b.rows);
    var m := 0;
    while m < conOut.maxMode
      invariant m <= conOut.maxMode && Marking(conOutMap[..], stdErrMap[..], a.rows, b.rows, m)
      modifies conOutMap, stdErrMap
    {
      MarkMode(conOut, stdErr, conOutMap, stdErrMap, m);
      m := m + 1;
    }
    MarkEnd(conOutMap[..], stdErrMap[..], a, b);
  }

  /** Keeps the modes that both have, on both, when they share a console. */
  method GetIntersectionBetweenConOutAndStdErr(conOut: Splitter, stdErr: Splitter)
    requires Apart(conOut, stdErr)
    requires conOut.consoles > 0 && stdErr.consoles > 0
    modifies conOut.Repr(), stdErr.Repr()
    ensures Apart(conOut, stdErr)
    ensures conOut.Repr() == old(conOut.Repr()) && stdErr.Repr() == old(stdErr.Repr())
    ensures conOut.State() == SyncConOut(old(conOut.State()), old(stdErr.State()))
    ensures stdErr.State() == SyncStdErr(old(conOut.State()), old(stdErr.State()))
  {
    hide Splitter.Valid, Splitter.State, MatchColumn, HitColumn, Restrict;
    var conOutMap, stdErrMap := MarkCommonModes(conOut, stdErr);
    RestrictModes(conOut, conOutMap);
    RestrictModes(stdErr, stdErrMap);
  }

  /** The geometries seen are those that QueryMode reports for some mode. */
  lemma SeenMeaning(c: Console, size: Geometry)
    ensures size in Seen(c.rows) <==> exists m: nat :: Exposes(c, m, size)
  {
    if size in Seen(c.rows) {
      var row :| row in c.rows && row.size == size;
      var m :| 0 <= m < |c.rows| && c.rows[m] == row;
      assert Exposes(c, m, size);
    }
    if m: nat :| Exposes(c, m, size) {
      assert c.rows[m] in c.rows;
    }
  }

  // ----- the operations of the driver -----

  lemma AddCounts(c: Console, d: TextOut)
    ensures |Add(c, d).devices| == |c.devices| + 1
  {
  }

  lemma DeleteCounts(c: Console, d: TextOut)
    ensures |Delete(c, d).devices| == if d in c.devices then |c.devices| - 1 else |c.devices|
  {
    var rest := DeleteMeaning(c, d);
  }

  /** Adds a console to `s`; the other splitter stays as it is. */
  method AddTo(s: Splitter, other: Splitter, d: TextOut)
    requires Apart(s, other)
    modifies s.Repr()
    ensures Apart(s, other) && fresh(s.Repr() - old(s.Repr())) && other.Repr() == old(other.Repr())
    ensures s.State() == Add(old(s.State()), d) && other.State() == old(other.State())
    ensures s.consoles == old(s.consoles) + 1 && other.consoles == old(other.consoles)
  {
    hide Splitter.Valid, Splitter.State, Add;
    s.StateDevices();
    s.TextOutAddDevice(d);
    AddCounts(old(s.State()), d);
    s.StateDevices();
  }

  /** Deletes a console from `s`; the other splitter stays as it is. */
  method DeleteFrom(s: Splitter, other: Splitter, d: TextOut) returns (found: bool)
    requires Apart(s, other)
    modifies s.Repr()
    ensures Apart(s, other) && fresh(s.Repr() - old(s.Repr())) && other.Repr() == old(other.Repr())
    ensures s.State() == Delete(old(s.State()), d) && other.State() == old(other.State())
    ensures found == (d in old(s.State()).devices) && |old(s.State()).devices| == old(s.consoles)
    ensures s.consoles == if found then old(s.consoles) - 1 else old(s.consoles)
    ensures other.consoles == old(other.consoles)
  {
    hide Splitter.Valid, Splitter.State, Delete;
    s.StateDevices();
    found := s.TextOutDeleteDevice(d);
    DeleteCounts(old(s.State()), d);
    s.StateDevices();
  }

  /** Adds a console to ConOut or to StdErr.  `shared` is the outcome of the search for a console
      that both have. */
  method AddDevice(conOut: Splitter, stdErr: Splitter, toConOut: bool, d: TextOut, shared: bool)
    requires Apart(conOut, stdErr)
    requires shared ==> if toConOut then stdErr.consoles > 0 else conOut.consoles > 0
    modifies conOut.Repr(), stdErr.Repr()
    ensures Apart(conOut, stdErr)
    ensures fresh(conOut.Repr() + stdErr.Repr() - old(conOut.Repr() + stdErr.Repr()))
    ensures Both(conOut.State(), stdErr.State()) ==
            StepBoth(old(Both(conOut.State(), stdErr.State())),
              if toConOut then OnConOut(Plug(d), shared) else OnStdErr(Plug(d), shared))
  {
    hide Splitter.Valid, Splitter.State, Splitter.Repr, Add, SyncConOut, SyncStdErr;
    if toConOut {
      AddTo(conOut, stdErr, d);
    } else {
      AddTo(stdErr, conOut, d);
    }
    if shared {
      GetIntersectionBetweenConOutAndStdErr(conOut, stdErr);
    }
  }

  /** Deletes a console from ConOut or from StdErr; nothing more happens when it was not there or was
      the last one. */
  method DeleteDevice(conOut: Splitter, stdErr: Splitter, ofConOut: bool, d: TextOut, shared: bool)
    returns (found: bool)
    requires Apart(conOut, stdErr)
    requires shared ==> conOut.consoles > 0 && stdErr.consoles > 0
    modifies conOut.Repr(), stdErr.Repr()
    ensures Apart(conOut, stdErr)
    ensures fresh(conOut.Repr() + stdErr.Repr() - old(conOut.Repr() + stdErr.Repr()))
    ensures found == (d in old(if ofConOut then conOut.State() else stdErr.State()).devices)
    ensures Both(conOut.State(), stdErr.State()) ==
            StepBoth(old(Both(conOut.State(), stdErr.State())),
              if ofConOut then OnConOut(Unplug(d), shared) else OnStdErr(Unplug(d), shared))
  {
    hide Splitter.Valid, Splitter.State, Splitter.Repr, Delete, SyncConOut, SyncStdErr;
    if ofConOut {
      found := DeleteFrom(conOut, stdErr, d);
    } else {
      found := DeleteFrom(stdErr, conOut, d);
    }
    if found && shared && (if ofConOut then conOut.consoles > 0 else stdErr.consoles > 0) {
      GetIntersectionBetweenConOutAndStdErr(conOut, stdErr);
    }
  }
}
