/** The keypad's buffer of keystrokes: a ring in an array that drops its oldest entry when it is full. */
module KeyBuffer {
  import opened KeyQueue

  const MAX_COUNT := 256

  // ---------- the buffer as a sequence ----------

  datatype Op = Push(data: KeyData) | Pop

  function Apply(keys: seq<KeyData>, op: Op): seq<KeyData> {
    Kept(keys, op) + if op.Push? then [op.data] else []
  }

  /** The keys that an operation leaves where they are. */
  function Kept(keys: seq<KeyData>, op: Op): seq<KeyData> {
    match op
    case Push(_) => if |keys| >= MAX_COUNT - 1 then keys[1..] else keys
    case Pop => if keys == [] then keys else keys[1..]
  }

  lemma PopMeaning(keys: seq<KeyData>)
    ensures Apply(keys, Pop) == if keys == [] then keys else keys[1..]
  {
  }

  /** There is room for 255 keys; after that a push drops the oldest one. */
  lemma PushMeaning(keys: seq<KeyData>, data: KeyData)
    requires |keys| <= 255
    ensures |keys| < 255 ==> Apply(keys, Push(data)) == keys + [data]
    ensures |keys| == 255 ==> Apply(keys, Push(data)) == keys[1..] + [data]
  {
  }

  function Run(ops: seq<Op>): seq<KeyData> {
    if ops == [] then [] else Apply(Run(ops[..|ops| - 1]), ops[|ops| - 1])
  }

  function Pushed(ops: seq<Op>): seq<KeyData> {
    if ops == [] then []
    else Pushed(ops[..|ops| - 1]) + if ops[|ops| - 1].Push? then [ops[|ops| - 1].data] else []
  }

  /** The keys that pops have given out. */
  function Popped(ops: seq<Op>): seq<KeyData> {
    if ops == [] then []
    else
      var before := ops[..|ops| - 1];
      Popped(before) + if ops[|ops| - 1].Pop? && Run(before) != [] then [Run(before)[0]] else []
  }

  /** How many keys full pushes have dropped. */
  function Dropped(ops: seq<Op>): nat {
    if ops == [] then 0
    else
      var before := ops[..|ops| - 1];
      Dropped(before) + if ops[|ops| - 1].Push? && |Run(before)| == MAX_COUNT - 1 then 1 else 0
  }

  /** The buffer holds the latest keys pushed, at most 255, and every other key was given out or dropped:
      `Popped` and `Dropped` together are as many as the keys that came before those held. */
  lemma {:induction false} HoldsLatest(ops: seq<Op>)
    ensures |Run(ops)| <= 255
    ensures |Popped(ops)| + Dropped(ops) + |Run(ops)| == |Pushed(ops)|
    ensures Run(ops) == Pushed(ops)[|Pushed(ops)| - |Run(ops)|..]
  {
    hide Run, Pushed, Popped, Dropped, Apply;
    if ops == [] {
      NothingYet();
    } else {
      var before, op := ops[..|ops| - 1], ops[|ops| - 1];
      HoldsLatest(before);
      NextOp(ops);
      ApplySize(Run(before), op);
      LatestStep(Pushed(before), Run(before), op);
    }
  }

  lemma NothingYet()
    ensures Run([]) == [] && Pushed([]) == [] && Popped([]) == [] && Dropped([]) == 0
  {
  }

  /** What one more operation does. */
  lemma NextOp(ops: seq<Op>)
    requires ops != []
    ensures var before, op := ops[..|ops| - 1], ops[|ops| - 1];
            && Run(ops) == Apply(Run(before), op)
            && Pushed(ops) == Pushed(before) + (if op.Push? then [op.data] else [])
            && Popped(ops) == Popped(before) + (if op.Pop? && Run(before) != [] then [Run(before)[0]] else [])
            && Dropped(ops) == Dropped(before) + (if op.Push? && |Run(before)| == MAX_COUNT - 1 then 1 else 0)
  {
  }

  lemma ApplySize(keys: seq<KeyData>, op: Op)
    requires |keys| <= MAX_COUNT - 1
    ensures |Apply(keys, op)| == if op.Pop? then (if keys == [] then 0 else |keys| - 1)
                                 else if |keys| == MAX_COUNT - 1 then |keys| else |keys| + 1
  {
  }

  lemma LatestStep(pushed: seq<KeyData>, keys: seq<KeyData>, op: Op)
    requires |keys| <= |pushed| && keys == pushed[|pushed| - |keys|..]
    ensures var now := pushed + if op.Push? then [op.data] else [];
            && |Apply(keys, op)| <= |now|
            && Apply(keys, op) == now[|now| - |Apply(keys, op)|..]
  {
    var kept := Kept(keys, op);
    assert kept == pushed[|pushed| - |kept|..];
    hide Kept;
    if op.Push? {
      assert (pushed + [op.data])[|pushed| - |kept|..] == pushed[|pushed| - |kept|..] + [op.data];
    }
  }

  /** As long as nothing has been dropped, the keys come out in the order in which they were pushed. */
  lemma {:induction false} FirstInFirstOut(ops: seq<Op>)
    requires Dropped(ops) == 0
    ensures Popped(ops) + Run(ops) == Pushed(ops)
  {
    if ops == [] {
      return;
    }
    var before, op := ops[..|ops| - 1], ops[|ops| - 1];
    HoldsLatest(before);
    NextOp(ops);
    FirstInFirstOut(before);
    hide Run, Pushed, Popped, Dropped;
    OrderStep(Popped(before), Run(before), Pushed(before), op);
  }

  lemma OrderStep(popped: seq<KeyData>, keys: seq<KeyData>, pushed: seq<KeyData>, op: Op)
    requires popped + keys == pushed && (op.Push? ==> |keys| < MAX_COUNT - 1)
    ensures (popped + if op.Pop? && keys != [] then [keys[0]] else []) + Apply(keys, op)
         == pushed + if op.Push? then [op.data] else []
  {
    PopMeaning(keys);
    if op.Pop? {
      assert keys != [] ==> popped + [keys[0]] + keys[1..] == popped + keys;
    } else {
      assert popped + (keys + [op.data]) == (popped + keys) + [op.data];
    }
  }

  /** The keys are found at increasing places, below `limit`, among those of another sequence. */
  ghost predicate InOrder(places: seq<nat>, keys: seq<KeyData>, among: seq<KeyData>, limit: nat) {
    && |places| == |keys| && limit <= |among|
    && (forall k :: 0 <= k < |places| ==> places[k] < limit && keys[k] == among[places[k]])
    && (forall j, k :: 0 <= j < k < |places| ==> places[j] < places[k])
  }

  lemma InOrderMore(places: seq<nat>, keys: seq<KeyData>, among: seq<KeyData>, limit: nat,
                    more: seq<KeyData>, limit': nat)
    requires InOrder(places, keys, among, limit) && limit <= limit' <= |among + more|
    ensures InOrder(places, keys, among + more, limit')
  {
  }

  lemma InOrderNext(places: seq<nat>, keys: seq<KeyData>, among: seq<KeyData>, limit: nat)
    requires InOrder(places, keys, among, limit) && limit < |among|
    ensures InOrder(places + [limit], keys + [among[limit]], among, limit + 1)
  {
  }

  /** With full pushes in between, too, the keys come out in the order in which they were pushed: those that
      were given out are found at increasing places among those pushed, before the ones held. */
  lemma {:induction false} PoppedInOrder(ops: seq<Op>) returns (places: seq<nat>)
    ensures |Run(ops)| <= |Pushed(ops)|
    ensures InOrder(places, Popped(ops), Pushed(ops), |Pushed(ops)| - |Run(ops)|)
  {
    hide Run, Pushed, Popped, Dropped, Apply, InOrder;
    if ops == [] {
      places := NothingInOrder();
    } else {
      var before, op := ops[..|ops| - 1], ops[|ops| - 1];
      places := PoppedInOrder(before);
      HoldsLatest(before);
      NextOp(ops);
      ApplySize(Run(before), op);
      places := OrderGoesOn(places, Run(before), Popped(before), Pushed(before), op, |Run(ops)|);
    }
  }

  lemma NothingInOrder() returns (places: seq<nat>)
    ensures |Run([])| == |Pushed([])| == 0 && InOrder(places, Popped([]), Pushed([]), 0)
  {
    places := [];
    NothingYet();
  }

  lemma OrderGoesOn(places: seq<nat>, keys: seq<KeyData>, popped: seq<KeyData>, pushed: seq<KeyData>,
                    op: Op, left: nat)
    returns (after: seq<nat>)
    requires |keys| <= |pushed| && keys == pushed[|pushed| - |keys|..]
    requires InOrder(places, popped, pushed, |pushed| - |keys|)
    requires op.Push? ==> |keys| <= left <= |keys| + 1 || (left == |keys| > 0)
    requires op.Pop? ==> left == if keys == [] then 0 else |keys| - 1
    ensures var now := pushed + if op.Push? then [op.data] else [];
            && left <= |now|
            && InOrder(after, popped + (if op.Pop? && keys != [] then [keys[0]] else []), now, |now| - left)
  {
    hide InOrder;
    after := places;
    var limit := |pushed| - |keys|;
    if op.Push? {
      assert popped + [] == popped;
      InOrderMore(places, popped, pushed, limit, [op.data], |pushed| + 1 - left);
    } else {
      assert pushed + [] == pushed && popped + [] == popped;
      if keys != [] {
        InOrderNext(places, popped, pushed, limit);
        after := places + [limit];
      }
    }
  }

  /** The keys without the partial ones at the front. */
  function FromValueKey(keys: seq<KeyData>): seq<KeyData> {
    if keys != [] && keys[0].key == NO_KEY then FromValueKey(keys[1..]) else keys
  }

  lemma {:induction false} FromValueKeyMeaning(keys: seq<KeyData>)
    ensures var rest := FromValueKey(keys);
            && |rest| <= |keys| && rest == keys[|keys| - |rest|..]
            && (forall i :: 0 <= i < |keys| - |rest| ==> keys[i].key == Key(0, 0))
            && (rest != [] ==> rest[0].key != Key(0, 0))
            && (rest != [] <==> exists i :: 0 <= i < |keys| && keys[i].key != Key(0, 0))
  {
    if keys != [] && keys[0].key == NO_KEY {
      FromValueKeyMeaning(keys[1..]);
    }
  }

  // ---------- the ring ----------

  /** The part of the ring from `head` up to `tail`, around the end of the array if need be. */
  function Between<T>(cells: seq<T>, head: nat, tail: nat): seq<T>
    requires |cells| == MAX_COUNT && head < MAX_COUNT && tail < MAX_COUNT
  {
    if head <= tail then cells[head..tail] else cells[head..] + cells[..tail]
  }

  lemma BetweenPop<T>(cells: seq<T>, head: nat, tail: nat)
    requires |cells| == MAX_COUNT && head < MAX_COUNT && tail < MAX_COUNT && head != tail
    ensures Between(cells, head, tail) == [cells[head]] + Between(cells, (head + 1) % MAX_COUNT, tail)
  {
    var next := (head + 1) % MAX_COUNT;
    if head + 1 < MAX_COUNT {
      assert next == head + 1;
      BetweenNext(cells, head, tail);
    } else {
      assert next == 0;
      assert cells[head..] == [cells[head]];
      assert cells[..tail] == cells[0..tail];
    }
  }

  lemma BetweenNext<T>(cells: seq<T>, head: nat, tail: nat)
    requires |cells| == MAX_COUNT && head + 1 < MAX_COUNT && tail < MAX_COUNT && head != tail
    ensures Between(cells, head, tail) == [cells[head]] + Between(cells, head + 1, tail)
  {
    if head < tail {
      SliceHead(cells, head, tail);
    } else {
      SliceHead(cells, head, MAX_COUNT);
      assert cells[head..] == cells[head..MAX_COUNT] && cells[head + 1..] == cells[head + 1..MAX_COUNT];
      assert ([cells[head]] + cells[head + 1..]) + cells[..tail] == [cells[head]] + (cells[head + 1..] + cells[..tail]);
    }
  }

  lemma SliceHead<T>(s: seq<T>, i: nat, j: nat)
    requires i < j <= |s|
    ensures s[i..j] == [s[i]] + s[i + 1..j]
  {
  }

  lemma BetweenPush<T>(cells: seq<T>, head: nat, tail: nat, v: T)
    requires |cells| == MAX_COUNT && head < MAX_COUNT && tail < MAX_COUNT && (tail + 1) % MAX_COUNT != head
    ensures Between(cells[tail := v], head, (tail + 1) % MAX_COUNT) == Between(cells, head, tail) + [v]
  {
    var after := cells[tail := v];
    if tail + 1 == MAX_COUNT {
      assert after[head..] == cells[head..tail] + [v];
      assert Between(after, head, 0) == after[head..];
    } else {
      assert (tail + 1) % MAX_COUNT == tail + 1;
      if head <= tail {
        assert after[head..tail + 1] == cells[head..tail] + [v];
      } else {
        assert after[head..] == cells[head..] && after[..tail + 1] == cells[..tail] + [v];
        assert cells[head..] + (cells[..tail] + [v]) == (cells[head..] + cells[..tail]) + [v];
      }
    }
  }

  lemma BetweenSize<T>(cells: seq<T>, head: nat, tail: nat)
    requires |cells| == MAX_COUNT && head < MAX_COUNT && tail < MAX_COUNT
    ensures Between(cells, head, tail) == [] <==> head == tail
    ensures |Between(cells, head, tail)| == MAX_COUNT - 1 <==> (tail + 1) % MAX_COUNT == head
    ensures |Between(cells, head, tail)| < MAX_COUNT
  {
  }

  class Ring {
    const buffer: array<KeyData>
    var head: nat
    var tail: nat

    ghost predicate Valid()
      reads this
    {
      buffer.Length == MAX_COUNT && head < MAX_COUNT && tail < MAX_COUNT
    }

    ghost function Contents(): seq<KeyData>
      reads this, buffer
      requires Valid()
    {
      Between(buffer[..], head, tail)
    }

    constructor ()
      ensures Valid() && fresh(buffer) && Contents() == []
    {
      buffer := new KeyData[MAX_COUNT](_ => KeyData(NO_KEY, NO_STATE));
      head, tail := 0, 0;
    }

    predicate IsEmpty()
      reads this
    {
      head == tail
    }

    method Pop() returns (found: bool, data: KeyData)
      requires Valid()
      modifies this`head
      ensures Valid() && found == (old(Contents()) != [])
      ensures found ==> data == old(Contents())[0]
      ensures Contents() == Apply(old(Contents()), Op.Pop)
    {
      hide Between, Apply;
      ghost var was := Contents();
      PopMeaning(was);
      BetweenSize(buffer[..], head, tail);
      data := KeyData(NO_KEY, NO_STATE);
      if IsEmpty() {
        return false, data;
      }
      BetweenPop(buffer[..], head, tail);
      data := buffer[head];
      head := (head + 1) % MAX_COUNT;
      found := true;
      assert Contents() == was[1..];
    }

    method Push(data: KeyData)
      requires Valid()
      modifies this, buffer
      ensures Valid() && Contents() == Apply(old(Contents()), Op.Push(data))
    {
      hide Between;
      PopMeaning(Contents());
      BetweenSize(buffer[..], head, tail);
      if (tail + 1) % MAX_COUNT == head {
        var _, _ := Pop();
      }
      assert Contents() == Kept(old(Contents()), Op.Push(data));
      BetweenSize(buffer[..], head, tail);
      BetweenPush(buffer[..], head, tail, data);
      ghost var cells := buffer[..];
      buffer[tail] := data;
      assert buffer[..] == cells[tail := data];
      tail := (tail + 1) % MAX_COUNT;
    }

    /** Throws the partial keys at the front away and tells whether there is a key to wait for. */
    method WaitForKey() returns (signalled: bool)
      requires Valid()
      modifies this`head
      ensures Valid() && Contents() == FromValueKey(old(Contents()))
      ensures signalled == (Contents() != [])
    {
      hide Between, Apply;
      BetweenSize(buffer[..], head, tail);
      while !IsEmpty()
        invariant Valid() && FromValueKey(Contents()) == FromValueKey(old(Contents()))
        decreases |Contents()|
      {
        BetweenSize(buffer[..], head, tail);
        BetweenPop(buffer[..], head, tail);
        var data := buffer[head];
        assert data == Contents()[0];
        if data.key.scanCode == 0 && data.key.unicodeChar == 0 {
          PopMeaning(Contents());
          var _, _ := Pop();
          continue;
        }
        return true;
      }
      BetweenSize(buffer[..], head, tail);
      signalled := false;
    }
  }
}
