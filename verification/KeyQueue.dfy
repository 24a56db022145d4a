/** The keystroke queue of the console splitter's input side: one poll of the physical consoles may
    bring several keys at once, and the calls that follow hand them out one by one. */
module KeyQueue {

  datatype KeyState = KeyState(shift: bv32, toggle: bv8)

  datatype Key = Key(scanCode: bv16, unicodeChar: bv16)

  datatype KeyData = KeyData(key: Key, state: KeyState)

  /** What a physical console gives back when it is asked for a keystroke. */
  datatype Answer =
    | Keystroke(data: KeyData)
    | NotReady(state: KeyState)
    | DeviceError

  const SHIFT_STATE_VALID: bv32 := 0x8000_0000
  const TOGGLE_STATE_VALID: bv8 := 0x80
  const NO_STATE := KeyState(0, 0)
  const NO_KEY := Key(0, 0)
  const ALLOC_UNIT := 32

  // ---------- one round over the consoles ----------

  predicate ShiftShows(shift: bv32, mask: bv32) {
    shift & mask != 0
  }

  predicate ToggleShows(toggle: bv8, mask: bv8) {
    toggle & mask != 0
  }

  function ShiftUnion(a: bv32, b: bv32): bv32 {
    a | b
  }

  function ToggleUnion(a: bv8, b: bv8): bv8 {
    a | b
  }

  lemma ShiftUnionMeaning(a: bv32, b: bv32, mask: bv32)
    ensures ShiftShows(ShiftUnion(a, b), mask) <==> ShiftShows(a, mask) || ShiftShows(b, mask)
  {
    assert (a | b) & mask == (a & mask) | (b & mask);
  }

  lemma ToggleUnionMeaning(a: bv8, b: bv8, mask: bv8)
    ensures ToggleShows(ToggleUnion(a, b), mask) <==> ToggleShows(a, mask) || ToggleShows(b, mask)
  {
    assert (a | b) & mask == (a & mask) | (b & mask);
  }

  lemma UnionWithNothing(shift: bv32, toggle: bv8)
    ensures ShiftUnion(shift, 0) == shift && ToggleUnion(toggle, 0) == toggle
  {
  }

  /** The state with the valid parts of another merged in, as the loop over the consoles does it. */
  function Merge(state: KeyState, reported: KeyState): KeyState {
    var merged := if ShiftShows(reported.shift, SHIFT_STATE_VALID)
                  then state.(shift := ShiftUnion(state.shift, reported.shift)) else state;
    if ToggleShows(reported.toggle, TOGGLE_STATE_VALID)
    then merged.(toggle := ToggleUnion(merged.toggle, reported.toggle)) else merged
  }

  /** The state an answer reports; a part without its valid bit reports nothing. */
  function Reported(a: Answer): KeyState {
    match a
    case DeviceError => NO_STATE
    case NotReady(state) => ValidParts(state)
    case Keystroke(data) => ValidParts(data.state)
  }

  function ValidParts(state: KeyState): KeyState {
    KeyState(
      if ShiftShows(state.shift, SHIFT_STATE_VALID) then state.shift else 0,
      if ToggleShows(state.toggle, TOGGLE_STATE_VALID) then state.toggle else 0)
  }

  function Union(a: KeyState, b: KeyState): KeyState {
    KeyState(ShiftUnion(a.shift, b.shift), ToggleUnion(a.toggle, b.toggle))
  }

  lemma MergeIsUnion(state: KeyState, reported: KeyState)
    ensures Merge(state, reported) == Union(state, ValidParts(reported))
  {
    UnionWithNothing(state.shift, state.toggle);
    hide ShiftShows, ToggleShows, ShiftUnion, ToggleUnion;
  }

  /** The state of a round: that of the first `n` consoles together. */
  function RoundState(answers: nat -> Answer, n: nat): KeyState {
    if n == 0 then NO_STATE else Union(RoundState(answers, n - 1), Reported(answers(n - 1)))
  }

  lemma RoundStep(answers: nat -> Answer, i: nat, exported: bool)
    ensures var a := answers(i);
            && RoundState(answers, i + 1)
               == (if a.DeviceError? then RoundState(answers, i)
                   else Merge(RoundState(answers, i), if a.Keystroke? then a.data.state else a.state))
            && Accepted(answers, i + 1, exported)
               == Accepted(answers, i, exported) + if Accepts(a, exported) then [a.data] else []
  {
    var was, a := RoundState(answers, i), answers(i);
    UnionWithNothing(was.shift, was.toggle);
    hide ShiftUnion, ToggleUnion, ValidParts, Merge;
    if !a.DeviceError? {
      MergeIsUnion(was, if a.Keystroke? then a.data.state else a.state);
    }
  }

  /** A keystroke without a key is kept only when the key state itself has been asked for. */
  predicate Accepts(a: Answer, exported: bool) {
    a.Keystroke? && (exported || a.data.key != NO_KEY)
  }

  function Accepted(answers: nat -> Answer, n: nat, exported: bool): seq<KeyData> {
    if n == 0 then []
    else Accepted(answers, n - 1, exported)
         + if Accepts(answers(n - 1), exported) then [answers(n - 1).data] else []
  }

  function Stamped(keys: seq<KeyData>, state: KeyState): seq<KeyData> {
    seq(|keys|, i requires 0 <= i < |keys| => keys[i].(state := state))
  }

  /** What a round over `n` consoles puts into the queue. */
  function Round(answers: nat -> Answer, n: nat, exported: bool): seq<KeyData> {
    Stamped(Accepted(answers, n, exported), RoundState(answers, n))
  }

  /** What an answer adds to the state of its round: a shift state with bit 31 set, and a toggle state with
      bit 7 set, whether or not a keystroke comes with it. */
  lemma ReportedMeaning(a: Answer, shift: bv32, toggle: bv8)
    ensures ShiftShows(Reported(a).shift, shift) <==>
              || (a.Keystroke? && ShiftShows(a.data.state.shift, 0x8000_0000) && ShiftShows(a.data.state.shift, shift))
              || (a.NotReady? && ShiftShows(a.state.shift, 0x8000_0000) && ShiftShows(a.state.shift, shift))
    ensures ToggleShows(Reported(a).toggle, toggle) <==>
              || (a.Keystroke? && ToggleShows(a.data.state.toggle, 0x80) && ToggleShows(a.data.state.toggle, toggle))
              || (a.NotReady? && ToggleShows(a.state.toggle, 0x80) && ToggleShows(a.state.toggle, toggle))
  {
    NothingShows(shift, toggle);
    hide ShiftShows, ToggleShows;
  }

  lemma NothingShows(shift: bv32, toggle: bv8)
    ensures !ShiftShows(0, shift) && !ToggleShows(0, toggle)
  {
  }

  /** Seen through any mask, the state of a round shows a bit exactly when some console of the round
      reported one with its valid bit set. */
  lemma {:induction false} RoundShiftMeaning(answers: nat -> Answer, n: nat, mask: bv32)
    ensures ShiftShows(RoundState(answers, n).shift, mask)
       <==> exists i: nat :: i < n && ShiftShows(Reported(answers(i)).shift, mask)
  {
    if n > 0 {
      RoundShiftMeaning(answers, n - 1, mask);
      ShiftUnionMeaning(RoundState(answers, n - 1).shift, Reported(answers(n - 1)).shift, mask);
      hide ShiftShows, ShiftUnion, ToggleUnion, Reported;
    }
  }

  lemma {:induction false} RoundToggleMeaning(answers: nat -> Answer, n: nat, mask: bv8)
    ensures ToggleShows(RoundState(answers, n).toggle, mask)
       <==> exists i: nat :: i < n && ToggleShows(Reported(answers(i)).toggle, mask)
  {
    if n > 0 {
      RoundToggleMeaning(answers, n - 1, mask);
      ToggleUnionMeaning(RoundState(answers, n - 1).toggle, Reported(answers(n - 1)).toggle, mask);
      hide ToggleShows, ShiftUnion, ToggleUnion, Reported;
    }
  }

  /** A round gives one entry to each console whose keystroke is accepted, in console order, with the
      keystroke's own key and the state of the whole round. */
  lemma {:induction false} RoundEntry(answers: nat -> Answer, n: nat, exported: bool, i: nat)
    requires i < n && answers(i).Keystroke? && (exported || answers(i).data.key != Key(0, 0))
    ensures var place := |Round(answers, i, exported)|;
            && place < |Round(answers, n, exported)|
            && Round(answers, n, exported)[place] == KeyData(answers(i).data.key, RoundState(answers, n))
  {
    if i < n - 1 {
      RoundEntry(answers, n - 1, exported, i);
    }
  }

  /** Every entry of a round comes from a console. */
  lemma {:induction false} RoundOrigin(answers: nat -> Answer, n: nat, exported: bool, place: nat)
    returns (i: nat)
    requires place < |Round(answers, n, exported)|
    ensures i < n && answers(i).Keystroke? && (exported || answers(i).data.key != Key(0, 0))
    ensures place == |Round(answers, i, exported)|
  {
    if place < |Round(answers, n - 1, exported)| {
      i := RoundOrigin(answers, n - 1, exported, place);
    } else {
      i := n - 1;
    }
  }

  lemma {:induction false} RoundFits(answers: nat -> Answer, n: nat, exported: bool)
    ensures |Accepted(answers, n, exported)| <= n
  {
    if n > 0 {
      RoundFits(answers, n - 1, exported);
    }
  }

  // ---------- runs ----------

  datatype Queue = Queue(keys: seq<KeyData>, consoles: nat, exported: bool)

  datatype Outcome = Delivered(data: KeyData) | Nothing(data: KeyData)

  datatype Event =
    | Read(answers: nat -> Answer)
    | Added
    | Removed
    | Exposed(on: bool)

  /** The keys that a call taking `answers` from the consoles brings in: none while keys are waiting. */
  function Polled(q: Queue, answers: nat -> Answer): seq<KeyData> {
    if q.keys != [] then [] else Round(answers, q.consoles, q.exported)
  }

  function Waiting(q: Queue, answers: nat -> Answer): seq<KeyData> {
    q.keys + Polled(q, answers)
  }

  function ReadOutcome(q: Queue, answers: nat -> Answer): Outcome {
    var keys := Waiting(q, answers);
    if keys != [] then Delivered(keys[0]) else Nothing(KeyData(NO_KEY, RoundState(answers, q.consoles)))
  }

  function Step(q: Queue, e: Event): Queue {
    match e
    case Read(answers) =>
      var keys := Waiting(q, answers);
      q.(keys := if keys != [] then keys[1..] else [])
    case Added => q.(consoles := q.consoles + 1)
    case Removed => q.(consoles := if q.consoles > 0 then q.consoles - 1 else 0)
    case Exposed(on) => q.(exported := on)
  }

  function Run(q: Queue, events: seq<Event>): Queue {
    if events == [] then q else Step(Run(q, events[..|events| - 1]), events[|events| - 1])
  }

  /** The keys that the calls of a run deliver, in order. */
  function DeliveredBy(q: Queue, events: seq<Event>): seq<KeyData> {
    if events == [] then []
    else
      var before := events[..|events| - 1];
      DeliveredBy(q, before) + DeliveredAt(Run(q, before), events[|events| - 1])
  }

  function DeliveredAt(q: Queue, e: Event): seq<KeyData> {
    if e.Read? && ReadOutcome(q, e.answers).Delivered? then [ReadOutcome(q, e.answers).data] else []
  }

  /** The keys that the rounds of a run accept, round by round. */
  function AcceptedBy(q: Queue, events: seq<Event>): seq<KeyData> {
    if events == [] then []
    else
      var before := events[..|events| - 1];
      var e := events[|events| - 1];
      AcceptedBy(q, before) + PolledAt(Run(q, before), e)
  }

  function PolledAt(q: Queue, e: Event): seq<KeyData> {
    if e.Read? then Polled(q, e.answers) else []
  }

  /** No key is lost, doubled or reordered: over any run, the keys delivered followed by those still
      queued are the keys queued at the start followed by those the rounds accepted. */
  lemma {:induction false} Conservation(q: Queue, events: seq<Event>)
    ensures DeliveredBy(q, events) + Run(q, events).keys == q.keys + AcceptedBy(q, events)
  {
    if events != [] {
      var before, e := events[..|events| - 1], events[|events| - 1];
      Conservation(q, before);
      StepConserves(Run(q, before), e);
      RunStep(q, events);
      hide *;
      Regroup(DeliveredBy(q, before), DeliveredAt(Run(q, before), e), Run(q, events).keys,
              Run(q, before).keys, PolledAt(Run(q, before), e), q.keys, AcceptedBy(q, before));
    }
  }

  lemma RunStep(q: Queue, events: seq<Event>)
    requires events != []
    ensures var before, e := events[..|events| - 1], events[|events| - 1];
            && Run(q, events) == Step(Run(q, before), e)
            && DeliveredBy(q, events) == DeliveredBy(q, before) + DeliveredAt(Run(q, before), e)
            && AcceptedBy(q, events) == AcceptedBy(q, before) + PolledAt(Run(q, before), e)
  {
  }

  lemma StepConserves(q: Queue, e: Event)
    ensures DeliveredAt(q, e) + Step(q, e).keys == q.keys + PolledAt(q, e)
  {
    hide Polled;
    if e.Read? {
      var keys := Waiting(q, e.answers);
      assert keys != [] ==> [keys[0]] + keys[1..] == keys;
    }
  }

  lemma Regroup<T>(a: seq<T>, b: seq<T>, c: seq<T>, d: seq<T>, e: seq<T>, f: seq<T>, g: seq<T>)
    requires b + c == d + e && a + d == f + g
    ensures (a + b) + c == f + (g + e)
  {
    assert (a + b) + c == a + (b + c);
    assert f + (g + e) == (f + g) + e;
  }

  /** A call has nothing to give exactly when every key accepted so far has been delivered and no console of
      the round has a key, nor, if key states are exported, a keystroke without one.  It then gives the state of
      the round with no key. */
  lemma NothingMeaning(events: seq<Event>, consoles: nat, exported: bool, answers: nat -> Answer)
    ensures var start := Queue([], consoles, exported);
            var q := Run(start, events);
            && (ReadOutcome(q, answers).Nothing? <==>
                && DeliveredBy(start, events) == AcceptedBy(start, events)
                && (forall i: nat :: i < q.consoles && answers(i).Keystroke? ==>
                      !q.exported && answers(i).data.key == Key(0, 0)))
            && (ReadOutcome(q, answers).Nothing? ==>
                ReadOutcome(q, answers).data == KeyData(Key(0, 0), RoundState(answers, q.consoles)))
  {
    var start := Queue([], consoles, exported);
    var q := Run(start, events);
    Conservation(start, events);
    assert start.keys + AcceptedBy(start, events) == AcceptedBy(start, events);
    if q.keys == [] {
      assert DeliveredBy(start, events) + q.keys == DeliveredBy(start, events);
      if Round(answers, q.consoles, q.exported) != [] {
        var i := RoundOrigin(answers, q.consoles, q.exported, 0);
      } else {
        forall i: nat | i < q.consoles && answers(i).Keystroke?
          ensures !q.exported && answers(i).data.key == Key(0, 0)
        {
          if q.exported || answers(i).data.key != Key(0, 0) {
            RoundEntry(answers, q.consoles, q.exported, i);
          }
        }
      }
    } else {
      assert |DeliveredBy(start, events)| < |AcceptedBy(start, events)|;
    }
  }

  function Reads(events: seq<Event>): nat {
    if events == [] then 0
    else Reads(events[..|events| - 1]) + if events[|events| - 1].Read? then 1 else 0
  }

  /** Queued keys are served first, one per call: until they are used up no console is polled,
      whatever is added, removed or asked for in between. */
  lemma {:induction false} ServedFirst(q: Queue, events: seq<Event>)
    requires Reads(events) <= |q.keys|
    ensures DeliveredBy(q, events) == q.keys[..Reads(events)]
    ensures Run(q, events).keys == q.keys[Reads(events)..]
    ensures AcceptedBy(q, events) == []
  {
    if events != [] {
      var before, e := events[..|events| - 1], events[|events| - 1];
      ServedFirst(q, before);
      RunStep(q, events);
      StepServes(Run(q, before), e);
      if e.Read? {
        NextKey(q.keys, Reads(before));
      }
      hide *;
    }
  }

  lemma NextKey(keys: seq<KeyData>, n: nat)
    requires n < |keys|
    ensures keys[n..] != [] && keys[n..][0] == keys[n] && keys[n..][1..] == keys[n + 1..]
    ensures keys[..n] + [keys[n]] == keys[..n + 1]
  {
  }

  /** A read while keys are waiting gives out the first one. */
  lemma StepServes(q: Queue, e: Event)
    ensures e.Read? && q.keys != [] ==>
              DeliveredAt(q, e) == [q.keys[0]] && Step(q, e).keys == q.keys[1..] && PolledAt(q, e) == []
    ensures !e.Read? ==> DeliveredAt(q, e) == [] && Step(q, e).keys == q.keys && PolledAt(q, e) == []
  {
  }

  /** The queue never holds more keys than there have been consoles at one time. */
  lemma {:induction false} Bounded(q: Queue, events: seq<Event>, most: nat)
    requires |q.keys| <= most
    requires forall k :: 0 <= k <= |events| ==> Run(q, events[..k]).consoles <= most
    ensures |Run(q, events).keys| <= most
  {
    if events != [] {
      var before := events[..|events| - 1];
      assert forall k :: 0 <= k <= |before| ==> before[..k] == events[..k];
      Bounded(q, before, most);
      var was := Run(q, before);
      assert was.consoles <= most by { assert events[..|before|] == before; }
      var e := events[|events| - 1];
      if e.Read? {
        RoundFits(e.answers, was.consoles, was.exported);
      }
    }
  }

  function Adds(events: seq<Event>): nat {
    if events == [] then 0
    else Adds(events[..|events| - 1]) + if events[|events| - 1].Added? then 1 else 0
  }

  function Removals(events: seq<Event>): nat {
    if events == [] then 0
    else Removals(events[..|events| - 1]) + if events[|events| - 1].Removed? then 1 else 0
  }

  /** The consoles polled are those there were, more by those added and less by those removed, if none is removed
      that is not there. */
  lemma {:induction false} ConsolesPolled(q: Queue, events: seq<Event>)
    requires forall k :: 0 <= k <= |events| ==> Removals(events[..k]) <= q.consoles + Adds(events[..k])
    ensures Run(q, events).consoles == q.consoles + Adds(events) - Removals(events)
  {
    if events != [] {
      var before := events[..|events| - 1];
      assert forall k :: 0 <= k <= |before| ==> before[..k] == events[..k];
      ConsolesPolled(q, before);
      assert events[..|events|] == events;
    }
  }

  /** From event `i` on the run does not change whether key states are exported. */
  ghost predicate NoneExposed(events: seq<Event>, i: nat) {
    forall k :: i <= k < |events| ==> !events[k].Exposed?
  }

  /** Key states are exported as was last asked for, or as they were if that was not at all. */
  lemma {:induction false} ExportedMeaning(q: Queue, events: seq<Event>, i: nat)
    requires i <= |events| && NoneExposed(events, i) && (i > 0 ==> events[i - 1].Exposed?)
    ensures Run(q, events).exported == if i > 0 then events[i - 1].on else q.exported
  {
    if events != [] {
      var before, e := events[..|events| - 1], events[|events| - 1];
      StepExports(Run(q, before), e);
      assert Run(q, events) == Step(Run(q, before), e);
      hide Run, Step;
      if i < |events| {
        ExportedMeaning(q, before, i);
      }
    }
  }

  lemma StepExports(q: Queue, e: Event)
    ensures Step(q, e).exported == if e.Exposed? then e.on else q.exported
  {
  }

  /** As long as key states are not exported, every keystroke delivered has a key. */
  lemma {:induction false} NoBareKeys(q: Queue, events: seq<Event>)
    requires !q.exported && forall k :: k in q.keys ==> k.key != Key(0, 0)
    requires forall e :: e in events && e.Exposed? ==> !e.on
    ensures !Run(q, events).exported
    ensures forall k :: k in DeliveredBy(q, events) + Run(q, events).keys ==> k.key != Key(0, 0)
  {
    if events != [] {
      var before, e := events[..|events| - 1], events[|events| - 1];
      assert e in events && forall d :: d in before ==> d in events;
      NoBareKeys(q, before);
      var was := Run(q, before);
      if e.Read? {
        forall k | k in Waiting(was, e.answers) ensures k.key != Key(0, 0) {
          if k in Polled(was, e.answers) {
            var place :| 0 <= place < |Polled(was, e.answers)| && Polled(was, e.answers)[place] == k;
            var i := RoundOrigin(e.answers, was.consoles, false, place);
            RoundEntry(e.answers, was.consoles, false, i);
          }
        }
      }
    }
  }

  // ---------- the queue in its array ----------

  class KeyRing {
    var queue: array<KeyData>
    var count: nat
    var consoles: nat
    var listCount: nat
    var exported: bool

    ghost predicate Valid()
      reads this
    {
      count <= listCount && consoles <= listCount && queue.Length == listCount
    }

    ghost function Value(): Queue
      reads this, queue
      requires Valid()
    {
      Queue(queue[..count], consoles, exported)
    }

    constructor ()
      ensures Valid() && fresh(queue) && Value() == Queue([], 0, false)
    {
      var zero := KeyData(NO_KEY, NO_STATE);
      queue := new KeyData[ALLOC_UNIT](_ => zero);
      count, consoles, listCount, exported := 0, 0, ALLOC_UNIT, false;
    }

    /** The console list and the queue grow together, before the list would overflow. */
    method AddConsole()
      requires Valid()
      modifies this
      ensures Valid() && (queue == old(queue) || fresh(queue))
      ensures Value() == Step(old(Value()), Added)
    {
      if consoles >= listCount {
        var zero, n, from := KeyData(NO_KEY, NO_STATE), listCount, queue;
        queue := new KeyData[n + ALLOC_UNIT](i requires 0 <= i < n + ALLOC_UNIT reads from =>
          if i < from.Length then from[i] else zero);
        listCount := listCount + ALLOC_UNIT;
        assert queue[..count] == old(queue[..count]);
      }
      consoles := consoles + 1;
    }

    method RemoveConsole(found: bool)
      requires Valid() && (found ==> consoles > 0)
      modifies this`consoles
      ensures Valid() && Value() == if found then Step(old(Value()), Removed) else old(Value())
    {
      if found {
        consoles := consoles - 1;
      }
    }

    method Expose(on: bool)
      requires Valid()
      modifies this`exported
      ensures Valid() && Value() == Step(old(Value()), Exposed(on))
    {
      exported := on;
    }

    method DequeueKey() returns (found: bool, data: KeyData)
      requires Valid()
      modifies this`count, queue
      ensures Valid() && queue == old(queue) && found == (old(count) > 0)
      ensures !found ==> count == 0
      ensures found ==> [data] + Value().keys == old(Value().keys)
    {
      data := KeyData(NO_KEY, NO_STATE);
      if count == 0 {
        return false, data;
      }
      data := queue[0];
      count := count - 1;
      forall i | 0 <= i < count {
        queue[i] := queue[i + 1];
      }
      found := true;
    }

    /** Asks every console; the queue must be empty, and has room for one key from each. */
    method Poll(answers: nat -> Answer) returns (state: KeyState)
      requires Valid() && count == 0
      modifies this`count, queue
      ensures Valid() && queue == old(queue)
      ensures state == RoundState(answers, consoles)
      ensures Value().keys == Accepted(answers, consoles, exported)
    {
      state := NO_STATE;
      var i := 0;
      while i < consoles
        invariant i <= consoles && count <= i
        invariant state == RoundState(answers, i)
        invariant queue[..count] == Accepted(answers, i, exported)
        modifies this`count, queue
      {
        hide RoundState, Accepted, Merge;
        var a := answers(i);
        RoundStep(answers, i, exported);
        if !a.DeviceError? {
          state := Merge(state, if a.Keystroke? then a.data.state else a.state);
          if a.Keystroke? && (exported || a.data.key.scanCode != 0 || a.data.key.unicodeChar != 0) {
            queue[count] := a.data;
            count := count + 1;
          }
        }
        i := i + 1;
      }
    }

    method Stamp(state: KeyState)
      requires Valid()
      modifies queue
      ensures Valid() && Value() == old(Value()).(keys := Stamped(old(Value().keys), state))
    {
      var i := 0;
      while i < count
        invariant i <= count
        invariant forall j :: 0 <= j < count ==>
                    queue[j] == if j < i then old(queue[j]).(state := state) else old(queue[j])
        modifies queue
      {
        queue[i] := queue[i].(state := state);
        i := i + 1;
      }
    }

    method ReadKeyStrokeEx(answers: nat -> Answer) returns (r: Outcome)
      requires Valid()
      modifies this`count, queue
      ensures Valid() && queue == old(queue)
      ensures r == ReadOutcome(old(Value()), answers)
      ensures Value() == Step(old(Value()), Read(answers))
    {
      hide RoundState, Accepted, Step, ReadOutcome, Stamped;
      ghost var was := Value();
      ReadMeaning(was, answers);
      var found, data := DequeueKey();
      if found {
        Taken(data, Value().keys, was.keys);
        return Delivered(data);
      }
      var state := Poll(answers);
      Stamp(state);
      ghost var keys := Value().keys;
      found, data := DequeueKey();
      if found {
        Taken(data, Value().keys, keys);
        return Delivered(data);
      }
      r := Nothing(KeyData(NO_KEY, state));
    }
  }

  lemma ReadMeaning(q: Queue, answers: nat -> Answer)
    ensures var keys := if q.keys != [] then q.keys
                        else Stamped(Accepted(answers, q.consoles, q.exported), RoundState(answers, q.consoles));
            && Step(q, Read(answers)) == q.(keys := if keys != [] then keys[1..] else [])
            && ReadOutcome(q, answers) == if keys != [] then Delivered(keys[0])
                                          else Nothing(KeyData(NO_KEY, RoundState(answers, q.consoles)))
  {
    hide RoundState, Accepted, Stamped;
    assert q.keys == [] ==> q.keys + Polled(q, answers) == Polled(q, answers);
  }

  lemma Taken(data: KeyData, rest: seq<KeyData>, keys: seq<KeyData>)
    requires [data] + rest == keys
    ensures keys != [] && keys[0] == data && keys[1..] == rest
  {
    assert keys[0] == ([data] + rest)[0];
  }
}
