# Verification model of the HTC Leo UEFI port

This project models the parts of the HTC Leo EDK2 port that keep state with invariants, and proves what
they promise. Class methods are the imperative code; each is proved against a function on values, and the
lemmas are about those functions and about whole runs of them.

| files | what they model |
|---|---|
| `ModeTable`, `ModeTableLaws`, `TextOutSplitter`, `Grids` | the console splitter's text-out table: N physical consoles, one virtual console, a two-dimensional mode map in one flat array whose row length changes when the console list grows |
| `StdErrSync`, `ConOutAndStdErr` | the cross intersection of ConOut and StdErr when they share a console |
| `KeyNotify`, `KeyQueue` | the splitter's input side: the key-notify registry with rollback, and the keystroke queue |
| `Terminal`, `TerminalPage`, `GraphicsConsole` | the graphics console's text engine, against a terminal that handles one character at a time and that in turn is a window on an unbounded page, and its XOR cursor |
| `TetrisRules`, `TetrisLaws`, `TetrisBoard`, `TetrisMeaning` | the Tetris board: settled cells and the active piece in one grid; what its moves mean in plain numbers |
| `LinkedList` | the intrusive circular list |
| `FrameBuffer`, `FrameBufferMeaning` | the text console on the frame buffer and its glyph renderer; what stands on the screen byte by byte |
| `Keypad`, `KeyBuffer` | the long-press and repeat state machine, and the ring of keystrokes |
| `SdCard` | the bit-field extraction from an SD card's response |

The flat map of the splitter is re-strided, compacted in place with one of its own columns as the filter,
and rebuilt; the main results say that all of this is the ordered intersection of the consoles' mode
tables. The Simple Text Output Protocol is section 12.4, and the Simple Text Input Ex Protocol section 12.2,
of the UEFI Specification 2.10; the fields that the SD card code reads are laid out in section 5.3 of the SD
Physical Layer Simplified Specification.

## Where the code falls short of what one would expect

Each of these is proved, as an exact condition and with an input that shows it.

- ConOut and StdErr do not always agree after their cross intersection: rows 0 and 1 are never removed, so
  they report the same geometries iff what those modes of each report was reported by the other
  (`StdErrSync.SyncAgrees`). A run in which they share a console and disagree is
  `StdErrSync.SharingRunDisagrees`.
- The key-notify registry stays exact iff nobody else has a registration on a console that matches
  (`KeyNotify.KeyNotifier.RegisterKeyNotify`): a console gives out the handle of one that does, and when the
  splitter takes its notification back, at the latest when another console refuses it, that registration is
  gone (`KeyNotify.KeyNotifier.RegisterOnAll`). An input is `KeyNotify.SharedRegistration`.
- `SetMode` of the graphics console erases the cursor before it asks the graphics device for another
  resolution, and leaves it erased if the device refuses (`GraphicsConsole.Console.SetMode`, with the exact
  condition; `GraphicsConsole.RefusalErasesCursor` is an input). What the next call does from there is proved,
  too: clearing the screen, any further `SetMode` for a mode the screen supports, and text that begins by
  printing over the cell make the screen exact again; moving the cursor leaves a stray one behind, hiding it
  leaves it on the screen, and a change of colors leaves it in the XOR of the old and the new color.
- Printing s and then s' is printing s + s' for all s' iff the last width control in s, if any, is for the
  width in use before (`Terminal.PrintConcat`); `Terminal.PrintConcatFails` is an input for which it is not.
- Clearing Tetris lines ends iff the last hidden row is not full or no visible row is
  (`TetrisBoard.Board.CheckAndRemoveLines`, `TetrisBoard.LoopNeverEnds`, and `TetrisBoard.FullGridGoesOn` for
  an input); in the game the hidden rows are empty.
- The jump back that repaints a character on the frame buffer console ends iff there are more than two
  characters' worth of rows, or the character is neither a newline nor one that is drawn and fills a line by
  itself (`FrameBuffer.PaintAgain`); an input for which it does not is `FrameBuffer.NewLineEnds`.

## Model

| member | source | states |
|---|---|---|
| ModeTableLaws.RunConsistent | HtcLeoPkg/Drivers/ConSplitterDxe/ConSplitter.c:3127-3192 | after any run of console adds and deletes the table is consistent: one entry per console in every row, the first console's entries increase strictly from 0 and are its mode numbers, and every row from number 2 on holds for each console a mode that has the row's geometry |
| ModeTableLaws.RunCanonical | HtcLeoPkg/Drivers/ConSplitterDxe/ConSplitter.c:3319-3430 | the table depends only on the consoles present and their order: it is the one that adding them to an empty splitter gives, whatever was added and deleted before |
| ModeTableLaws.RunFromStart | HtcLeoPkg/Drivers/ConSplitterDxe/ConSplitter.c:3127-3192 | from the initial state on, any run leaves the table consistent and dependent on the consoles present only |
| ModeTableLaws.AddNextMode | HtcLeoPkg/Drivers/ConSplitterDxe/ConSplitter.c:2496-2570 | adding a console loses the current mode iff it is number 2 or higher and its row gets no mode of that console; otherwise its new number names the row with the same modes of the other consoles and the same geometry, but for a cleared mode 1 |
| ModeTableLaws.AddNextModeDistinct | HtcLeoPkg/Drivers/ConSplitterDxe/ConSplitter.c:2496-2570 | with distinct geometries it is lost iff the new console does not support its geometry |
| ModeTableLaws.ExposedModes | HtcLeoPkg/Drivers/ConSplitterDxe/ConSplitter.c:2496-2570 | if the first console's geometries are told apart, the virtual modes from 2 on are exactly its modes from 2 on, in order, that all other consoles support |
| ModeTableLaws.CommonModesMeaning | HtcLeoPkg/Drivers/ConSplitterDxe/ConSplitter.c:2496-2570 | a geometry is among those common modes iff the first console's reply for a mode from 2 on gave it, failing or not, and every other console supports it for some mode |
| ModeTableLaws.RunReplied | HtcLeoPkg/Drivers/ConSplitterDxe/ConSplitter.c:2384-2400 | for consoles added in any order: the geometry of every row is what the first console's reply for the row's own mode gave; row 1 has none iff some console fails to report its mode 1 |
| ModeTableLaws.RunFromStartReplied | HtcLeoPkg/Drivers/ConSplitterDxe/ConSplitter.c:3127-3192 | so it is in the table that any run from the initial state leaves, with the first of the consoles that are present then |
| ModeTableLaws.ReportedMeaning | HtcLeoPkg/Drivers/ConSplitterDxe/ConSplitter.c:2385-2400 | what is recorded of the first console's reply: the geometry it gave, and none for a mode 1 that it fails to report |
| ModeTableLaws.StartMeaning | HtcLeoPkg/Drivers/ConSplitterDxe/ConSplitter.c:750-810 | without consoles there is one mode of 40 columns and 12 rows, which is the current one |
| ModeTableLaws.LowEntries | HtcLeoPkg/Drivers/ConSplitterDxe/ConSplitter.c:2526-2555 | the entries that a further console gets in rows 0 and 1: its last mode with the row's geometry, and mode 1 in row 1 if it fails to report that |
| ModeTableLaws.AddNextConsistent | HtcLeoPkg/Drivers/ConSplitterDxe/ConSplitter.c:2496-2570 | adding a further console keeps the table consistent, through compaction and a cleared mode 1 |
| ModeTableLaws.DeleteConsistent | HtcLeoPkg/Drivers/ConSplitterDxe/ConSplitter.c:3388-3430 | rebuilding the table after a delete gives a consistent table |
| ModeTableLaws.ProbeKeeps | HtcLeoPkg/Drivers/ConSplitterDxe/ConSplitter.c:2508-2557 | while a console is queried, its column holds only its own modes, under rows of the same geometry, and no row but row 1 changes |
| ModeTable.RenumberedRow | HtcLeoPkg/Drivers/ConSplitterDxe/ConSplitter.c:2426-2486 | filtering turns the current mode into -1 iff its row is removed; otherwise its new number names the identical row |
| ModeTable.KeptAt | HtcLeoPkg/Drivers/ConSplitterDxe/ConSplitter.c:2426-2486 | every row left after filtering is an original row at a position given by an increasing function, so order is kept |
| ModeTable.KeptHas | HtcLeoPkg/Drivers/ConSplitterDxe/ConSplitter.c:2426-2486 | every row that is to stay is still there |
| ModeTable.OriginMonotone | HtcLeoPkg/Drivers/ConSplitterDxe/ConSplitter.c:2426-2486 | filtered rows keep their order |
| TextOutSplitter.FilterRow | HtcLeoPkg/Drivers/ConSplitterDxe/ConSplitter.c:2455-2482 | one round of the compaction: a row is dropped, or moved down onto the rows kept, while the filter, a column of the same array or not, still says what it said for the rows ahead |
| TextOutSplitter.GetIntersection | HtcLeoPkg/Drivers/ConSplitterDxe/ConSplitter.c:2426-2486 | in place, even when the filter is a column of the map being compacted: the live rows become rows 0 and 1 and the later rows whose filter entry is not -1, in order; the result is their number and the renumbered current mode |
| TextOutSplitter.GrowBuffer | HtcLeoPkg/Drivers/ConSplitterDxe/ConSplitter.c:1841-1865 | a larger buffer with the old content in front |
| TextOutSplitter.Splitter.constructor | HtcLeoPkg/Drivers/ConSplitterDxe/ConSplitter.c:750-810 | a splitter without consoles has one mode of 40 by 12 (the state `START`) |
| TextOutSplitter.Splitter.GrowMapTable | HtcLeoPkg/Drivers/ConSplitterDxe/ConSplitter.c:2251-2331 | re-striding: a new map for the longer list in which each live row keeps the entries of the consoles and has -1 beyond them |
| TextOutSplitter.Splitter.AddOutputMode | HtcLeoPkg/Drivers/ConSplitterDxe/ConSplitter.c:2344-2405 | the first console's modes fill the map's first column and the recorded geometries; a failing mode 1 is cleared |
| TextOutSplitter.Splitter.FindRow | HtcLeoPkg/Drivers/ConSplitterDxe/ConSplitter.c:2523-2541 | the search through map and geometries finds the first virtual mode of a geometry |
| TextOutSplitter.Splitter.SyncMode | HtcLeoPkg/Drivers/ConSplitterDxe/ConSplitter.c:2508-2557 | one mode of the new console, recorded through the flat map, is one step of the probe |
| TextOutSplitter.Splitter.SyncOutputMode | HtcLeoPkg/Drivers/ConSplitterDxe/ConSplitter.c:2496-2570 | the flat map after a further console holds exactly the kept rows with the new column attached, and the renumbered current mode |
| TextOutSplitter.Splitter.TextOutAddDevice | HtcLeoPkg/Drivers/ConSplitterDxe/ConSplitter.c:3127-3192 | adding a console, with the list and the map growing if need be, is `Add` on the abstract table, and the representation invariant holds: rows in bounds, entries past the last console -1 |
| TextOutSplitter.Splitter.TextOutDeleteDevice | HtcLeoPkg/Drivers/ConSplitterDxe/ConSplitter.c:3319-3430 | deleting a console is `Delete` on the abstract table: first occurrence out of the list, everything rebuilt from the rest; a console that is not there changes nothing |
| TextOutSplitter.DeleteMeaning | HtcLeoPkg/Drivers/ConSplitterDxe/ConSplitter.c:3388-3430 | the first entry of the console leaves the list, and the table is that of adding the others in order, with the current mode carried along, or the initial one if there are none |
| TextOutSplitter.Splitter.Rebuild | HtcLeoPkg/Drivers/ConSplitterDxe/ConSplitter.c:3410-3430 | adding the consoles left in the list one after the other gives the table of exactly these consoles |
| TextOutSplitter.Splitter.QueryMode | HtcLeoPkg/Drivers/ConSplitterDxe/ConSplitter.c:4767-4805 | answers with a geometry iff the virtual mode exists and is supported by all |
| TextOutSplitter.Splitter.SetMode | HtcLeoPkg/Drivers/ConSplitterDxe/ConSplitter.c:4828-4880 | each console is put in its own mode for the row, which from virtual mode 2 on has the geometry the splitter reports; for the current mode the screens are only cleared; the status is that of the last console that failed |
| TextOutSplitter.WorstMet | HtcLeoPkg/Drivers/ConSplitterDxe/ConSplitter.c:4855-4880 | success iff all consoles succeed, otherwise the last failure |
| StdErrSync.SyncAgrees | HtcLeoPkg/Drivers/ConSplitterDxe/ConSplitter.c:2640-2730 | after the cross intersection ConOut and StdErr report the same geometries if and only if each reported beforehand what modes 0 and 1 of the other report, a cleared mode reporting none |
| StdErrSync.SyncSameSizes | HtcLeoPkg/Drivers/ConSplitterDxe/ConSplitter.c:2640-2730 | the same for the tables themselves, in which a cleared mode 1 has a geometry of its own |
| ConOutAndStdErr.SeenMeaning | HtcLeoPkg/Drivers/ConSplitterDxe/ConSplitter.c:4767-4805 | the geometries meant are those that QueryMode reports for some mode |
| StdErrSync.SharingRunDisagrees | HtcLeoPkg/Drivers/ConSplitterDxe/ConSplitter.c:3127-3210 | the failing side is reached: a run in which ConOut and StdErr share a console all along and end with one of them reporting a geometry that the other does not |
| StdErrSync.SyncAgreesOnMaxMode | HtcLeoPkg/Drivers/ConSplitterDxe/ConSplitter.c:2640-2730 | and then, with distinct geometries on both sides, they have the same number of modes |
| StdErrSync.RestrictMode | HtcLeoPkg/Drivers/ConSplitterDxe/ConSplitter.c:2703-2727 | a current mode in range stays in range: the same row if it stays, mode 0 otherwise |
| StdErrSync.RestrictConsistent | HtcLeoPkg/Drivers/ConSplitterDxe/ConSplitter.c:2640-2730 | the cross intersection keeps a table consistent |
| StdErrSync.RunBothConsistent | HtcLeoPkg/Drivers/ConSplitterDxe/ConSplitter.c:3127-3192 | both tables are consistent after any run of adds and deletes on ConOut and StdErr with cross intersections in between |
| StdErrSync.RunBothFromStart | HtcLeoPkg/Drivers/ConSplitterDxe/ConSplitter.c:3127-3192 | so they are from the initial state of both on |
| StdErrSync.HitMeaning | HtcLeoPkg/Drivers/ConSplitterDxe/ConSplitter.c:2661-2698 | a StdErr mode is marked iff it is the first match of some ConOut mode |
| StdErrSync.SyncShares | HtcLeoPkg/Drivers/ConSplitterDxe/ConSplitter.c:2640-2730 | after the cross intersection every geometry from mode 2 on is one that the other console has, both ways |
| StdErrSync.SyncKeeps | HtcLeoPkg/Drivers/ConSplitterDxe/ConSplitter.c:2640-2730 | it takes away no more than that: a geometry that both have stays in both, and so do those of modes 0 and 1 |
| StdErrSync.EventMeaning | HtcLeoPkg/Drivers/ConSplitterDxe/ConSplitter.c:3127-3210 | an add or delete changes its own console's list only; when the search for a shared console follows it and finds one, both consoles share their geometries from mode 2 on, and otherwise the other console is as it was |
| ConOutAndStdErr.RestrictModes | HtcLeoPkg/Drivers/ConSplitterDxe/ConSplitter.c:2703-2727 | compacting a splitter's map with a separate filter array is `Restrict` on its table, a lost current mode becoming 0 |
| ConOutAndStdErr.MarkCommonModes | HtcLeoPkg/Drivers/ConSplitterDxe/ConSplitter.c:2640-2698 | the two arrays of marks are exactly the two filter columns of the specification, and neither splitter changes |
| ConOutAndStdErr.GetIntersectionBetweenConOutAndStdErr | HtcLeoPkg/Drivers/ConSplitterDxe/ConSplitter.c:2640-2730 | both splitters end in the states `SyncConOut` and `SyncStdErr` of the two states before |
| ConOutAndStdErr.AddDevice | HtcLeoPkg/Drivers/ConSplitterDxe/ConSplitter.c:3127-3210 | one add on either console, with the cross intersection when a shared console is found, is one step of the run of both |
| ConOutAndStdErr.DeleteDevice | HtcLeoPkg/Drivers/ConSplitterDxe/ConSplitter.c:3319-3442 | one delete likewise; none happens when the console was not there or was the last one |
| KeyNotify.KeyNotifier.AddConsole | HtcLeoPkg/Drivers/ConSplitterDxe/ConSplitter.c:1960-2035 | succeeds iff there is no notification that the console refuses and has no match for; if it had no matching registrations of somebody else's, it then has exactly the notifications' registrations besides its own, its handles in the notifications' slots, and otherwise what it had |
| KeyNotify.KeyNotifier.RegisterAll | HtcLeoPkg/Drivers/ConSplitterDxe/ConSplitter.c:2013-2033 | the same for the registrations themselves, made one after the other and taken back when one is refused; that the handles are new follows from no notification matching a later one |
| KeyNotify.KeyNotifier.RegisterKeyNotify | HtcLeoPkg/Drivers/ConSplitterDxe/ConSplitter.c:3994-4073 | succeeds iff a matching notification is there already or no console refuses; one that is there is returned and nothing changes; a new one is registered on every console or on none, and the registry stays exact if and only if nobody else had a matching registration on a console |
| KeyNotify.KeyNotifier.RegisterOnAll | HtcLeoPkg/Drivers/ConSplitterDxe/ConSplitter.c:4040-4066 | succeeds iff no console refuses, and fails at the first one that does; then each console is as it was if and only if it is that one or a later one or had no matching registration: a handle that is shared is taken back from its owner, too |
| KeyNotify.KeyNotifier.RemoveAt | HtcLeoPkg/Drivers/ConSplitterDxe/ConSplitter.c:4108-4124 | taking a notification back from every console keeps the registry exact |
| KeyNotify.KeyNotifier.UnregisterKeyNotify | HtcLeoPkg/Drivers/ConSplitterDxe/ConSplitter.c:4094-4130 | removes exactly the notification's own registrations on every console; an unknown handle changes nothing |
| KeyNotify.InputConsole.RegisterKeyNotify | HtcLeoPkg/Drivers/KeypadDxe/KeypadTextIn.c:494-559 | a physical console gives the handle of a registration that matches, and otherwise a new one, unless it refuses that registration |
| KeyNotify.MatchMeaning | HtcLeoPkg/Drivers/ConSplitterDxe/ConSplitter.c:3694-3722 | a registration is found by the same key and function; its shift and toggle states must be those asked for unless they are zero in the registration |
| KeyNotify.StaysClear | HtcLeoPkg/Drivers/ConSplitterDxe/ConSplitter.c:4018-4027 | a console on which neither somebody else's registrations nor the notifications match has none that matches |
| KeyNotify.SharedHandle | HtcLeoPkg/Drivers/ConSplitterDxe/ConSplitter.c:4040-4066 | if somebody else's registration matches, the handle kept is his, and the registry is not exact |
| KeyNotify.SharedRegistration | HtcLeoPkg/Drivers/ConSplitterDxe/ConSplitter.c:4040-4066 | an input for it, with every call succeeding: the same key and function registered on a console before it is added |
| KeyNotify.ExactlyAdd | HtcLeoPkg/Drivers/ConSplitterDxe/ConSplitter.c:4040-4066 | a new registration and its handle keep the exact correspondence of handles and live registrations |
| KeyNotify.ExactlyRemove | HtcLeoPkg/Drivers/ConSplitterDxe/ConSplitter.c:4108-4124 | so does unregistering by handle, for the registrations that remain |
| KeyQueue.Conservation | HtcLeoPkg/Drivers/ConSplitterDxe/ConSplitter.c:3794-3899 | over any run of reads, console adds and removals and changes of the export flag: keys delivered followed by keys queued are the keys queued at first followed by those the rounds accepted |
| KeyQueue.NothingMeaning | HtcLeoPkg/Drivers/ConSplitterDxe/ConSplitter.c:3885-3899 | a read has nothing to give iff everything accepted so far has been delivered and no console of the round has a key, nor, with key states exported, a keystroke without one; it then gives no key and the state of the round |
| KeyQueue.ServedFirst | HtcLeoPkg/Drivers/ConSplitterDxe/ConSplitter.c:3820-3830 | queued keys are delivered one per call, in order, and no console is polled before they are used up |
| KeyQueue.Bounded | HtcLeoPkg/Drivers/ConSplitterDxe/ConSplitter.c:1988-2006 | the queue never holds more keys than there have been consoles at one time |
| KeyQueue.RoundEntry | HtcLeoPkg/Drivers/ConSplitterDxe/ConSplitter.c:3838-3884 | a keystroke that has a key, or any keystroke when key states are exported, is queued at its place in console order, with its own key and the state of the whole round |
| KeyQueue.RoundOrigin | HtcLeoPkg/Drivers/ConSplitterDxe/ConSplitter.c:3838-3884 | every queued key comes from such a keystroke of a console of the round |
| KeyQueue.ReportedMeaning | HtcLeoPkg/Drivers/ConSplitterDxe/ConSplitter.c:3849-3857 | a console adds a shift state with bit 31 set and a toggle state with bit 7 set, with a keystroke or without |
| KeyQueue.ConsolesPolled | HtcLeoPkg/Drivers/ConSplitterDxe/ConSplitter.c:1960-2100 | over any run the consoles polled are those at first, more by the adds and less by the removals |
| KeyQueue.ExportedMeaning | HtcLeoPkg/Drivers/ConSplitterDxe/ConSplitter.c:3963-3963 | key states are exported as the last change of the flag asked for |
| KeyQueue.NoBareKeys | HtcLeoPkg/Drivers/ConSplitterDxe/ConSplitter.c:3859-3876 | while key states are not exported, every keystroke delivered over a run has a key |
| KeyQueue.RoundShiftMeaning | HtcLeoPkg/Drivers/ConSplitterDxe/ConSplitter.c:3849-3857 | under any mask the shift state of a round shows a bit iff some console reported one with the valid bit set |
| KeyQueue.RoundToggleMeaning | HtcLeoPkg/Drivers/ConSplitterDxe/ConSplitter.c:3849-3857 | the same for the toggle state |
| KeyQueue.KeyRing.AddConsole | HtcLeoPkg/Drivers/ConSplitterDxe/ConSplitter.c:1977-2006 | the queue grows with the list and keeps its keys |
| KeyQueue.KeyRing.RemoveConsole | HtcLeoPkg/Drivers/ConSplitterDxe/ConSplitter.c:2061-2085 | removing a console leaves the queue as it is |
| KeyQueue.KeyRing.Expose | HtcLeoPkg/Drivers/ConSplitterDxe/ConSplitter.c:3963-3963 | whether bare key states are wanted does not touch the queue |
| KeyQueue.KeyRing.DequeueKey | HtcLeoPkg/Drivers/ConSplitterDxe/ConSplitter.c:3500-3519 | takes the first key and moves the others up |
| KeyQueue.KeyRing.Poll | HtcLeoPkg/Drivers/ConSplitterDxe/ConSplitter.c:3833-3878 | fills the empty queue in its array with the accepted keys, within its bounds, and joins the states |
| KeyQueue.KeyRing.ReadKeyStrokeEx | HtcLeoPkg/Drivers/ConSplitterDxe/ConSplitter.c:3794-3899 | a call is one `Read` step of the run, with its outcome |
| Terminal.RunConcat | HtcLeoPkg/Drivers/GraphicsConsoleDxe/GraphicsConsole.c:959-1144 | handling one character at a time, text can be cut anywhere |
| Terminal.PrintConcat | HtcLeoPkg/Drivers/GraphicsConsoleDxe/GraphicsConsole.c:950-1148 | printing s and then s' is printing s + s' for all s' if and only if the last width control in s, if it has one, is for the width in use before |
| Terminal.RunWidth | HtcLeoPkg/Drivers/GraphicsConsoleDxe/GraphicsConsole.c:1071-1079 | the width after a string is that of its last width control, whatever else it prints |
| Terminal.PrintConcatFails | HtcLeoPkg/Drivers/GraphicsConsoleDxe/GraphicsConsole.c:1071-1146 | an input for which it is not: a string that only turns wide characters on, since the width is restored after each call |
| Terminal.NarrowStays | HtcLeoPkg/Drivers/GraphicsConsoleDxe/GraphicsConsole.c:1071-1079 | without the wide control character the terminal stays narrow |
| Terminal.RunIsDrawn | HtcLeoPkg/Drivers/GraphicsConsoleDxe/GraphicsConsole.c:1095-1142 | a run of printable characters that fits in the line, drawn in one go, is what drawing them one at a time gives, wrap included |
| TerminalPage.RunOnPage | HtcLeoPkg/Drivers/GraphicsConsoleDxe/GraphicsConsole.c:959-1144 | whatever is printed, wide characters, erasing and scrolling included, row r of the screen is row `top` + r of an unbounded page on which characters are written in place; what has not been written is what the first screen showed or, below it, blank |
| TerminalPage.PlainText | HtcLeoPkg/Drivers/GraphicsConsoleDxe/GraphicsConsole.c:1081-1143 | in closed form: character k of a narrow text is in the cell that is k after the cursor's in reading order, unless its line has left the screen; everything above is as before, moved up with the page, and the cells after the text are blank where they are new |
| TerminalPage.PlainCursor | HtcLeoPkg/Drivers/GraphicsConsoleDxe/GraphicsConsole.c:1081-1143 | the cursor is that many cells further in reading order, and the screen has scrolled no more than the cursor needs |
| TerminalPage.LinefeedMeaning | HtcLeoPkg/Drivers/GraphicsConsoleDxe/GraphicsConsole.c:986-1059 | a linefeed goes down one line in the same column; in the last line all lines move up by one, and the last one is blank in the background color |
| TerminalPage.OtherControls | HtcLeoPkg/Drivers/GraphicsConsoleDxe/GraphicsConsole.c:1061-1079 | a carriage return goes to column 0, and the width controls change the width; nothing is written |
| TerminalPage.ErasedCells | HtcLeoPkg/Drivers/GraphicsConsoleDxe/GraphicsConsole.c:961-984 | a backspace goes one cell back, to the end of the line above at the beginning of a line, writes a space there and changes no other cell |
| TerminalPage.TypeErase | HtcLeoPkg/Drivers/GraphicsConsoleDxe/GraphicsConsole.c:959-1144 | a backspace takes a narrow character back, line end and scrolling included, unless the screen has one line and the character was its last; no other cell changes |
| TerminalPage.TypedCells | HtcLeoPkg/Drivers/GraphicsConsoleDxe/GraphicsConsole.c:1081-1143 | a narrow character changes the cell at the cursor only, and the cursor goes to the next cell in reading order |
| TerminalPage.WideMeaning | HtcLeoPkg/Drivers/GraphicsConsoleDxe/GraphicsConsole.c:1081-1143 | a wide character takes the two cells at the cursor |
| TerminalPage.WideAtTheEnd | HtcLeoPkg/Drivers/GraphicsConsoleDxe/GraphicsConsole.c:1116-1138 | in the last column it leaves a narrow space there and takes the first two cells of the next line |
| TerminalPage.ClearedMeaning | HtcLeoPkg/Drivers/GraphicsConsoleDxe/GraphicsConsole.c:1527-1590 | a cleared screen is all in the background color, which is in bits 4 to 6 of the attribute |
| GraphicsConsole.Console.OutputString | HtcLeoPkg/Drivers/GraphicsConsoleDxe/GraphicsConsole.c:894-1148 | the re-entrant routine, with its calls to itself for erased cells, line ends and wide characters that do not fit, leaves the cells, cursor and scroll count of the one-character-at-a-time terminal, whatever the overlay is; it terminates for two or more columns; and if the cursor showed at first, or the string begins by printing over it, the XOR overlay shows the cursor cell only |
| GraphicsConsole.Console.PrintRounds | HtcLeoPkg/Drivers/GraphicsConsoleDxe/GraphicsConsole.c:959-1144 | all rounds of the loop, on a string or on a line end behind the last cell of a line |
| GraphicsConsole.Console.PrintNext | HtcLeoPkg/Drivers/GraphicsConsoleDxe/GraphicsConsole.c:961-1143 | one round of the loop, a run or a control character, advances the terminal by the characters it uses up |
| GraphicsConsole.Console.Write | HtcLeoPkg/Drivers/GraphicsConsoleDxe/GraphicsConsole.c:894-1148 | the public call: `Print` of the string from any state between calls; the cursor is drawn exactly if it was, or if it had been erased and the string begins by printing over its cell; nothing happens without a mode |
| GraphicsConsole.Console.PrintRun | HtcLeoPkg/Drivers/GraphicsConsoleDxe/GraphicsConsole.c:1081-1143 | one run of printable characters, wide characters at the last column included, advances the terminal by its characters |
| GraphicsConsole.Console.Backspace | HtcLeoPkg/Drivers/GraphicsConsoleDxe/GraphicsConsole.c:961-984 | erasing, at the start of a line too, is the terminal's `Erase` and hides the cursor again |
| GraphicsConsole.Console.Control | HtcLeoPkg/Drivers/GraphicsConsoleDxe/GraphicsConsole.c:986-1079 | linefeed, carriage return and the width controls are the terminal's steps |
| GraphicsConsole.Console.FlushCursor | HtcLeoPkg/Drivers/GraphicsConsoleDxe/GraphicsConsole.c:1900-2004 | XORing the cursor turns a screen that shows it into one that does not, and back |
| GraphicsConsole.Console.SetAttribute | HtcLeoPkg/Drivers/GraphicsConsoleDxe/GraphicsConsole.c:1483-1506 | changing colors keeps the cursor drawn exactly once, in the new color; one that had been erased is left in the XOR of both colors |
| GraphicsConsole.Console.ClearScreen | HtcLeoPkg/Drivers/GraphicsConsoleDxe/GraphicsConsole.c:1527-1590 | the screen is cleared and only the cursor cell differs from it, whatever the overlay was before |
| GraphicsConsole.Console.SetCursorPosition | HtcLeoPkg/Drivers/GraphicsConsoleDxe/GraphicsConsole.c:1617-1660 | moving the cursor keeps exactly one cursor cell; positions outside the mode are refused; an erased cursor is left behind as a second cursor cell |
| GraphicsConsole.Console.EnableCursor | HtcLeoPkg/Drivers/GraphicsConsoleDxe/GraphicsConsole.c:1682-1705 | showing and hiding keeps the overlay exact; hiding an erased cursor leaves it on the screen |
| GraphicsConsole.Console.SetMode | HtcLeoPkg/Drivers/GraphicsConsoleDxe/GraphicsConsole.c:1287-1455 | from an exact overlay, it is exact afterwards if and only if the mode is not selectable, is the current one or is accepted, or no mode was set, or there is no visible cursor of a color other than black; otherwise the cursor has been erased, and the next call for any selectable mode, accepted or not, makes the overlay exact again |
| GraphicsConsole.XorTwice | HtcLeoPkg/Drivers/GraphicsConsoleDxe/GraphicsConsole.c:1946-2000 | drawing the cursor twice restores the screen |
| GraphicsConsole.UndercutSpot | HtcLeoPkg/Drivers/GraphicsConsoleDxe/GraphicsConsole.c:1749-1880 | drawing text over the cursor cell leaves no trace of the cursor |
| GraphicsConsole.RefusalErasesCursor | HtcLeoPkg/Drivers/GraphicsConsoleDxe/GraphicsConsole.c:1346-1400 | an input for it: a console in its first mode whose graphics device refuses the second one's resolution |
| GraphicsConsole.TwoSpots | HtcLeoPkg/Drivers/GraphicsConsoleDxe/GraphicsConsole.c:1946-2000 | cursors drawn in two places can be told from one |
| GraphicsConsole.ShownOrNot | HtcLeoPkg/Drivers/GraphicsConsoleDxe/GraphicsConsole.c:1946-2000 | a drawn cursor can be told from none unless it is black |
| GraphicsConsole.ForegroundMeaning | HtcLeoPkg/Drivers/GraphicsConsoleDxe/GraphicsConsole.c:67-88 | bits 0 to 3 of the attribute are for blue, green, red and bright, which gives 0x98 or 0xff for each color that is on; bright black is a dark gray |
| TetrisLaws.RunSound | HtcLeoPkg/Application/TetrisApp/Board.c:30-101 | in every state of every run: active piece inside the grid and apart from settled cells, hidden rows empty, no settled row full, and settled cells + 10 * lines = 4 * pieces placed |
| TetrisLaws.SettledSound | HtcLeoPkg/Application/TetrisApp/Board.c:229-238 | settling a piece, clearing lines and bringing the next piece keeps all that |
| TetrisLaws.DroppedSound | HtcLeoPkg/Application/TetrisApp/Board.c:94-101 | so does a drop |
| TetrisLaws.FallMeaning | HtcLeoPkg/Application/TetrisApp/Board.c:94-101 | a drop stops at the first height below which there is no room, with all cells on the way free |
| TetrisLaws.AtMostFourLines | HtcLeoPkg/Application/TetrisApp/Board.c:253-290 | at most four lines go at once |
| TetrisLaws.CollapsedRows | HtcLeoPkg/Application/TetrisApp/Board.c:253-290 | after clearing no row is full and the hidden rows are empty |
| TetrisLaws.CollapsedCells | HtcLeoPkg/Application/TetrisApp/Board.c:253-290 | clearing loses exactly the cells of the full rows |
| TetrisBoard.Board.constructor | HtcLeoPkg/Application/TetrisApp/Board.c:105-128 | a new board is sound and shows its state |
| TetrisBoard.Board.IsMovePossible | HtcLeoPkg/Application/TetrisApp/Board.c:140-157 | true iff every cell of the moved piece is on the board and empty |
| TetrisBoard.Board.LookAtRow | HtcLeoPkg/Application/TetrisApp/Board.c:260-282 | one round of the loop: a full row goes and the rows above move down onto it, another one stays |
| TetrisBoard.Board.CheckAndRemoveLines | HtcLeoPkg/Application/TetrisApp/Board.c:253-290 | terminates though a row is looked at again after each shift: the visible rows that are not full end at the bottom in order, below copies of the last hidden row, and lines and score grow by the full rows |
| TetrisBoard.LoopNeverEnds | HtcLeoPkg/Application/TetrisApp/Board.c:253-290 | the condition for it is exact: if the last hidden row and a visible row are full, the loop comes to a row that is full again after every shift, and never ends |
| TetrisBoard.ClearingForEver | HtcLeoPkg/Application/TetrisApp/Board.c:253-290 | when the rows of such a grid have all been looked at, the next one is full, and shifting changes nothing |
| TetrisBoard.FullGridGoesOn | HtcLeoPkg/Application/TetrisApp/Board.c:253-290 | an input for it: a grid of full rows |
| TetrisBoard.LoopLooks | HtcLeoPkg/Application/TetrisApp/Board.c:253-290 | after n steps the loop has looked at the last n visible rows and found the full ones among them |
| TetrisBoard.Board.PlacePiece | HtcLeoPkg/Application/TetrisApp/Board.c:229-238 | the game ends iff the piece sticks out; otherwise it settles |
| TetrisBoard.Board.MovePiece | HtcLeoPkg/Application/TetrisApp/Board.c:48-72 | a sideways move is `Moved`: done iff there is room, the shared grid unmarked and marked again |
| TetrisBoard.Board.RotatePiece | HtcLeoPkg/Application/TetrisApp/Board.c:30-44 | a rotation is `Rotated`, undone when there is no room |
| TetrisBoard.Board.MovePieceDown | HtcLeoPkg/Application/TetrisApp/Board.c:76-90 | a step down is `Fallen` |
| TetrisBoard.Board.DropPiece | HtcLeoPkg/Application/TetrisApp/Board.c:94-101 | a drop is `Dropped`, with two points for each row fallen |
| TetrisBoard.Board.LoadNextPiece | HtcLeoPkg/Application/TetrisApp/Board.c:294-303 | the next piece becomes the active one at the top and a new one is chosen |
| TetrisBoard.TablesAreGood | HtcLeoPkg/Application/TetrisApp/Piece.h:13-43 | every kind of piece has four rotations of four different cells in a 4 by 4 box, and unrotated fits in the hidden rows |
| TetrisBoard.Piece.Randomize | HtcLeoPkg/Application/TetrisApp/Piece.c:8-54 | becomes the unrotated piece of the kind drawn |
| TetrisBoard.Piece.RotateCCW | HtcLeoPkg/Application/TetrisApp/Piece.c:65-74 | undoes a clockwise turn |
| TetrisMeaning.QuarterTurn | HtcLeoPkg/Application/TetrisApp/Piece.c:58-61 | a rotation turns the cells of each of the seven kinds clockwise by a quarter: the cell (x, y) goes to (a - y, c + x), with a and c the same for all rotations of a kind |
| TetrisMeaning.PictureMeaning | HtcLeoPkg/Application/TetrisApp/Piece.h:5-43 | an unrotated piece of each kind covers the cells of its picture |
| TetrisMeaning.ColorsDiffer | HtcLeoPkg/Application/TetrisApp/Piece.h:14-58 | the seven colors are different, and none is black |
| TetrisMeaning.SidewaysMeaning | HtcLeoPkg/Application/TetrisApp/Board.c:48-72 | left and right are one column, done iff the four cells there are on the board and empty |
| TetrisMeaning.RotateMeaning | HtcLeoPkg/Application/TetrisApp/Board.c:30-44 | a piece turns iff the cells of its next rotation are on the board and empty |
| TetrisMeaning.DownMeaning | HtcLeoPkg/Application/TetrisApp/Board.c:76-90 | down is one row; without room the game ends iff a cell of the piece is above row 2, and otherwise the next piece comes at column 4 of row 0 |
| TetrisMeaning.DropMeaning | HtcLeoPkg/Application/TetrisApp/Board.c:94-101 | a drop is as many rows down as there is room, one more move down, and two points for each of these rows |
| TetrisMeaning.RunEnds | HtcLeoPkg/Application/TetrisApp/Board.c:229-249 | over any run the game is over iff a piece came to rest with a cell above row 2: it goes on whenever all four are visible |
| TetrisMeaning.RowsLand | HtcLeoPkg/Application/TetrisApp/Board.c:253-290 | when lines are cleared, a visible row that is not full moves down by as many rows as there are full ones below it |
| TetrisMeaning.TopRows | HtcLeoPkg/Application/TetrisApp/Board.c:253-290 | above these the rows are copies of the last hidden row |
| TetrisMeaning.FullCountMeaning | HtcLeoPkg/Application/TetrisApp/Board.c:260-282 | the lines cleared are the rows without an empty cell |
| TetrisMeaning.SettledMeaning | HtcLeoPkg/Application/TetrisApp/Board.c:229-303 | a piece that settles leaves its cells in its color, full rows go, and lines and score grow by their number |
| TetrisMeaning.StepScore | HtcLeoPkg/Application/TetrisApp/Board.h:19-21 | a move brings 0, 150, 250, 450 or 850 points for 0 to 4 lines, two for each row dropped, and nothing else |
| TetrisMeaning.RunScore | HtcLeoPkg/Application/TetrisApp/Board.c:286-289 | the score of any run is the sum of these |
| LinkedList.Initialize | HtcLeoPkg/Include/Library/list.h:42-45 | an initialized head is an empty list |
| LinkedList.AddHead | HtcLeoPkg/Include/Library/list.h:60-66 | inserting after any place of a list inserts in its sequence there, and all links agree in both directions |
| LinkedList.AddTail | HtcLeoPkg/Include/Library/list.h:70-76 | inserting before any place likewise |
| LinkedList.Delete | HtcLeoPkg/Include/Library/list.h:80-85 | removes exactly the node, whose links are cleared |
| LinkedList.RemoveHead | HtcLeoPkg/Include/Library/list.h:87-96 | takes the first node, or gives null for an empty list |
| LinkedList.RemoveTail | HtcLeoPkg/Include/Library/list.h:108-117 | takes the last node, or gives null |
| LinkedList.PeekMeaning | HtcLeoPkg/Include/Library/list.h:129-155 | peeking finds the first and last node |
| LinkedList.StepMeaning | HtcLeoPkg/Include/Library/list.h:167-211 | the next and previous node, null at the ends |
| LinkedList.WrapMeaning | HtcLeoPkg/Include/Library/list.h:185-231 | the wrapping steps move by one modulo the length, never to the head |
| LinkedList.WrapFromHead | HtcLeoPkg/Include/Library/list.h:185-231 | from the head they reach the first and last node, null in an empty list |
| LinkedList.EmptyMeaning | HtcLeoPkg/Include/Library/list.h:268-271 | the test for emptiness |
| LinkedList.Visit | HtcLeoPkg/Include/Library/list.h:249-252 | one round of the loop: the node is deleted or kept, and the nodes ahead stay linked |
| LinkedList.DeleteEvery | HtcLeoPkg/Include/Library/list.h:249-252 | a safe loop that deletes any set of nodes visits every node once, in order, and leaves the list of the other nodes in order; deleted nodes are cleared |
| FrameBuffer.GlyphMeaning | HtcLeoPkg/Library/FrameBufferSerialPortLib/FrameBufferSerialPortLib.c:187-314 | in the rows drawn for a glyph, each pixel of the scale-by-scale square of glyph pixel (y, x) has the foreground color iff the glyph's bit 5y + x is set, the background color otherwise, byte by byte |
| FrameBufferMeaning.ShownMeaning | HtcLeoPkg/Library/FrameBufferSerialPortLib/FrameBufferSerialPortLib.c:149-158 | what it means that character c shows at (x, y): byte k of pixel (12y + scale * gy + i, scale * (6x + gx) + j) of the screen is floor(color / 256^k) mod 256, of the foreground color iff bit 5 * (gy mod 6) + gx of its font word is set, which is word 2(c - 32) for the upper six rows and the next one for the lower six |
| FrameBufferMeaning.PutMeaning | HtcLeoPkg/Library/FrameBufferSerialPortLib/FrameBufferSerialPortLib.c:149-158 | so it is for every pixel of a character that has just been put |
| FrameBufferMeaning.PutShown | HtcLeoPkg/Library/FrameBufferSerialPortLib/FrameBufferSerialPortLib.c:140-165 | such a character shows at the position, every byte outside of its five by twelve cell is as it was, and the position goes on by one column or to the next line |
| FrameBufferMeaning.AgainMeaning | HtcLeoPkg/Library/FrameBufferSerialPortLib/FrameBufferSerialPortLib.c:119-183 | painting is repeated iff a newline or a character that fills its line comes in the last line there is room for; the screen is then black and the position at the top left |
| FrameBufferMeaning.BottomMeaning | HtcLeoPkg/Library/FrameBufferSerialPortLib/FrameBufferSerialPortLib.c:119-183 | what comes of it: a newline leaves a black screen and goes on in its second line, a space leaves a black screen, and any other character is the only one on it |
| FrameBufferMeaning.FlowMeaning | HtcLeoPkg/Library/FrameBufferSerialPortLib/FrameBufferSerialPortLib.c:160-162 | visible text fills line after line: after n columns' worth of characters times a number of lines, the position is that many lines down |
| FrameBufferMeaning.OtherPlaces | HtcLeoPkg/Library/FrameBufferSerialPortLib/FrameBufferSerialPortLib.c:121-144 | a newline goes to the next line, a return to the beginning of this one, and other control characters and a space at the beginning of a line go nowhere |
| FrameBuffer.Console.DrawGlyph | HtcLeoPkg/Library/FrameBufferSerialPortLib/FrameBufferSerialPortLib.c:187-314 | walking one pointer through the memory, twice for the background and twice for the foreground, draws exactly those rows into the screen; all other bytes are unchanged and no access is out of bounds |
| FrameBuffer.Console.ForegroundRow | HtcLeoPkg/Library/FrameBufferSerialPortLib/FrameBufferSerialPortLib.c:246-277 | shifting the word bit by bit draws the row of its low five bits over a background row |
| FrameBuffer.SplicedRow | HtcLeoPkg/Library/FrameBufferSerialPortLib/FrameBufferSerialPortLib.c:220-221 | bytes written from a place in the flat memory change one row of the screen from that column on |
| FrameBuffer.PlacedFits | HtcLeoPkg/Library/FrameBufferSerialPortLib/FrameBufferSerialPortLib.c:149-158 | at every position text can reach, the cell is inside the screen |
| FrameBuffer.PaintKeeps | HtcLeoPkg/Library/FrameBufferSerialPortLib/FrameBufferSerialPortLib.c:119-183 | painting keeps the position reachable, and is repeated only after a newline or a filled line near the bottom, with a black screen and the position at the top left |
| FrameBuffer.PaintAgain | HtcLeoPkg/Library/FrameBufferSerialPortLib/FrameBufferSerialPortLib.c:119-183 | putting a character ends if and only if there are more than two characters' worth of rows, or it is neither a newline nor one that is drawn and fills a line by itself: then a repeated painting is the last one, and otherwise it comes back to the same state for ever |
| FrameBuffer.NewLineEnds | HtcLeoPkg/Library/FrameBufferSerialPortLib/FrameBufferSerialPortLib.c:167-183 | an input for which it does not end: a newline at the top left of a screen of at most two characters' worth of rows |
| FrameBuffer.TextShown | HtcLeoPkg/Library/FrameBufferSerialPortLib/FrameBufferSerialPortLib.c:119-183 | text over any number of lines that does not reach the bottom, spaces and newlines included: every character that is drawn shows in its own cell in the end, the position is where the last one left it, and no row of the screen outside these lines changes |
| FrameBuffer.ScreenShown | HtcLeoPkg/Library/FrameBufferSerialPortLib/FrameBufferSerialPortLib.c:108-185 | after any string, carriage returns and clearings included, each character put since the last clearing shows in its own cell unless another was put there after it, and every other byte of the screen is as the clearing left it, black, or as it was if there was none |
| FrameBuffer.LineShown | HtcLeoPkg/Library/FrameBufferSerialPortLib/FrameBufferSerialPortLib.c:119-165 | visible text that fits in the rest of a line, filling it or not, ends up side by side in it, and no row outside that line changes |
| FrameBuffer.Console.PutChar | HtcLeoPkg/Library/FrameBufferSerialPortLib/FrameBufferSerialPortLib.c:108-185 | a character for which the jump back ends is put by painting it at most twice |
| FrameBuffer.Console.ResetFb | HtcLeoPkg/Library/FrameBufferSerialPortLib/FrameBufferSerialPortLib.c:70-91 | the whole memory becomes black |
| FrameBuffer.Console.Reset | HtcLeoPkg/Library/FrameBufferSerialPortLib/FrameBufferSerialPortLib.c:93-106 | the text starts at a reachable position for every scale that fits |
| FrameBuffer.Console.Write | HtcLeoPkg/Library/FrameBufferSerialPortLib/FrameBufferSerialPortLib.c:352-371 | text is put character by character |
| Keypad.PressOfKey | HtcLeoPkg/Include/Library/KeypadDeviceHelperLib.h:97-178 | a press of a key other than POWER gives one event, at its release, if it was never a long press; otherwise n events with n = 0 or 500 ms + (n - 1) * 200 ms at most the time since the press, and none at the release |
| Keypad.KeystrokeWhenDue | HtcLeoPkg/Include/Library/KeypadDeviceHelperLib.h:106-147 | while the key is down an event is given exactly when 200 ms have passed since the latest one, or 500 ms since the press outside a combination with POWER |
| Keypad.HeldState | HtcLeoPkg/Include/Library/KeypadDeviceHelperLib.h:106-165 | the clock is the time since the latest event, and repeating means an event has been given |
| Keypad.PressOfPower | HtcLeoPkg/Include/Library/KeypadDeviceHelperLib.h:115-133 | a press of POWER gives exactly one event, its own iff it was not a long press |
| Keypad.PowerLongPress | HtcLeoPkg/Include/Library/KeypadDeviceHelperLib.h:115-134 | a press of POWER that lasts gives exactly one event, at the first poll after 500 ms: the one for volume down if that is held then, else for volume up if that is, else the one for the long press |
| Keypad.KeyLongPress | HtcLeoPkg/Include/Library/KeypadDeviceHelperLib.h:136-146 | another key gives its first event at that poll, and none at all, however long it is held, if POWER is held then |
| Keypad.ShortPress | HtcLeoPkg/Include/Library/KeypadDeviceHelperLib.h:115-147 | before that no key gives an event |
| Keypad.ReleaseMeaning | HtcLeoPkg/Include/Library/KeypadDeviceHelperLib.h:150-175 | the release of a short press gives the key's own event, and the key counts as released after one more poll; that of a long press gives none, and counts when the clock shows 10 ms |
| Keypad.PowerRun | HtcLeoPkg/Include/Library/KeypadDeviceHelperLib.h:85-179 | over any run, wrapped clock or not, POWER gives one event for each press but one still undecided |
| Keypad.EveryPressStartsAfresh | HtcLeoPkg/Include/Library/KeypadDeviceHelperLib.h:97-104 | between presses there are no events, and every press starts from the same state |
| Keypad.KeyContext.UpdateKeyStatus | HtcLeoPkg/Include/Library/KeypadDeviceHelperLib.h:85-179 | the fields and the pushed events follow `Update` |
| KeyBuffer.HoldsLatest | HtcLeoPkg/Drivers/KeypadDxe/KeypadTextIn.c:41-73 | after any pushes and pops the ring holds the latest keys pushed, at most 255, and all others were popped or dropped |
| KeyBuffer.PushMeaning | HtcLeoPkg/Drivers/KeypadDxe/KeypadTextIn.c:63-73 | a push appends the key, and drops the oldest one iff 255 are held |
| KeyBuffer.FirstInFirstOut | HtcLeoPkg/Drivers/KeypadDxe/KeypadTextIn.c:41-73 | if nothing was dropped, keys popped followed by keys held are the keys pushed |
| KeyBuffer.PoppedInOrder | HtcLeoPkg/Drivers/KeypadDxe/KeypadTextIn.c:41-73 | with drops, too, the keys popped are found at increasing places among those pushed, before the ones held |
| KeyBuffer.Ring.Pop | HtcLeoPkg/Drivers/KeypadDxe/KeypadTextIn.c:41-55 | takes the oldest key from the array |
| KeyBuffer.Ring.Push | HtcLeoPkg/Drivers/KeypadDxe/KeypadTextIn.c:63-73 | appends a key, dropping only the oldest when 255 are held |
| KeyBuffer.Ring.WaitForKey | HtcLeoPkg/Drivers/KeypadDxe/KeypadTextIn.c:302-317 | removes the leading partial keys only, and signals iff a key is left |
| KeyBuffer.FromValueKeyMeaning | HtcLeoPkg/Drivers/KeypadDxe/KeypadTextIn.c:302-317 | what is left is the part from the first value key on, and is empty iff there was none |
| SdCard.UnstuffMeaning | HtcLeoPkg/Include/Library/Sdcard.h:391-403 | the extracted field is floor(N / 2^start) mod 2^size of the response as a 128-bit number N, for every field of 1 to 32 bits inside it, in one word or two |
| SdCard.FieldBits | HtcLeoPkg/Include/Library/Sdcard.h:391-403 | bit i of the result is bit start + i of the response for i < size, and clear above |
| SdCard.ResponseNumber | HtcLeoPkg/Include/Library/Sdcard.h:391-403 | that number is made of the four words, the first one highest |
| SdCard.BitsNumber | HtcLeoPkg/Include/Library/Sdcard.h:391-403 | the bits of a number stand for it, up to their count |

## Left out

General:

- Failing memory allocation, protocol opening and closing, events, task priority levels and cache
  maintenance.
- Widths of INT32 and UINTN counters, which are unbounded here. The 64-bit clock of the keypad and the
  32-bit words of the SD card response do wrap.
- Everything else in the repository: hardware registers, interrupts, the SD command loops, graphics
  forwarding, pointer devices, component names, the build.

Console splitter:

- A console's mode table is fixed. What a failing QueryMode leaves behind is a value of the console's own;
  mode 0 exists.
- The search for a console that ConOut and StdErr share (lines 2618-2634) is a given boolean: it does not
  rewind its inner pointer.
- ConsplitterSetConsoleOutMode, which chooses a preferred mode after an add, the graphics modes, and
  forwarding of strings, attributes and cursor to the consoles.
- TextOutSplitter.Splitter.TextOutDeleteDevice: the current mode is carried through the rebuild and
  renumbered as the code does; that it names the same geometry as before is not claimed, because the code
  does not renumber it against the old table.
- StdErrSync.SyncAgreesOnMaxMode: needs distinct geometries on both sides, without which the tables may
  have the same geometries in different numbers of modes.
- KeyNotify.KeyNotifier.AddConsole: a console is added only when it is not in the list yet. The driver opens
  the console exclusively (lines 1087-1097), so a second start on it fails before it gets here.
- TextOutSplitter.Splitter.SetMode: the cursor fields that go with a mode change.
- Removing a console from the key-notify registry: the code shifts the console list but not the handle
  lists, so handles and consoles no longer correspond.
- That the new handles of a physical console are not in use is taken for granted. Which
  registrations it refuses is a fact of the console, fixed during a call.
- KeyQueue.KeyRing.ReadKeyStrokeEx: the answers of the consoles are parameters of the call; the lazy
  connection of ConIn and the synchronization of toggle states are not modelled.
- The read calls without key state, which drop partial keys from the queue, and the reset that empties it.

Graphics console:

- The screen is character cells, not pixels: the font call is taken to draw every character of a run, in
  consecutive cells, two for a wide one, and not to fail.
- GraphicsConsole.Console.SetAttribute: before any mode has been set, a change of colors draws the cursor by
  the geometry at index -1 of the mode table; of such a call only the colors are modelled.
- GraphicsConsole.Console.SetMode: a first mode that the graphics device refuses leaves the line buffer
  allocated, so that the next call draws the cursor by the geometry at index -1 of the mode table before it
  goes on; that drawing, which an accepted mode clears from the screen, is not modelled.
- GraphicsConsole.Console.Write: with an erased cursor on the screen and a string that does not begin by
  printing over its cell, the text is modelled, but not where the stray cursor ends up.
- The bit for wide characters in the attribute is added and subtracted rather than set and cleared.
- The pixel arithmetic that centers the text, and the choice of a graphics mode.

Tetris:

- Drawing on the screen, the level (which stays 1), and overflow of the score. The random numbers are
  parameters.

Frame buffer and keypad:

- The font is any table of 192 words. The interrupt state, the initialized flag and scrolling, which is
  not called.
- FrameBuffer.Console.PutChar: a scale of which not even one column or one row fits; and it is called only
  when the jump back ends, by the exact condition of FrameBuffer.PaintAgain.
- FrameBuffer.TextShown: carriage returns and clearings, which FrameBuffer.ScreenShown covers.
- The bitmap of key states, which the code indexes by scan code for both kinds of key: what a key sees of
  the other keys is part of its sample.
- The notification of registered functions on each keystroke.
