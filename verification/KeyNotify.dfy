/** The key-notify registry of the console splitter's input side: each notification is registered on
    every physical input console, and the registry keeps the handles. */
module KeyNotify {
  import opened KeyQueue

  /** A notification function is known by a number. */
  datatype Registration = Registration(key: KeyData, fn: nat)

  /** A shift or toggle state of zero in a registered key matches any. */
  predicate IsKeyRegistered(registered: KeyData, input: KeyData) {
    && registered.key == input.key
    && (registered.state.shift == 0 || registered.state.shift == input.state.shift)
    && (registered.state.toggle == 0 || registered.state.toggle == input.state.toggle)
  }

  /** The registration is found when this key and function are asked for. */
  predicate Matches(r: Registration, key: KeyData, fn: nat) {
    IsKeyRegistered(r.key, key) && r.fn == fn
  }

  /** What is found is the same key and function; a shift or toggle state that was registered must be the same too,
      while the states asked for stand for themselves even when they are zero. */
  lemma MatchMeaning(key: Key, registered: KeyState, key': Key, asked: KeyState, fn: nat, fn': nat)
    ensures Matches(Registration(KeyData(key, registered), fn), KeyData(key', asked), fn') <==>
              && key == key' && fn == fn'
              && (registered.shift != 0 ==> registered.shift == asked.shift)
              && (registered.toggle != 0 ==> registered.toggle == asked.toggle)
  {
  }

  /** None of the registrations is found when this key and function are asked for. */
  predicate Clear(live: map<nat, Registration>, key: KeyData, fn: nat) {
    forall h :: h in live ==> !Matches(live[h], key, fn)
  }

  /** A physical input console.  It gives the handle of a registration that matches, if there is one, and
      otherwise a new one, unless it is one of those that it refuses. */
  class InputConsole {
    var live: map<nat, Registration>
    var issued: nat
    /** The new registrations that it refuses at present. */
    var refuses: (KeyData, nat) -> bool

    ghost predicate Valid()
      reads this
    {
      forall h :: h in live ==> h < issued
    }

    constructor (refuses: (KeyData, nat) -> bool)
      ensures Valid() && live == map[] && this.refuses == refuses
    {
      live, issued, this.refuses := map[], 0, refuses;
    }

    /** Whether this registration fails. */
    ghost predicate Fails(key: KeyData, fn: nat)
      reads this
    {
      Clear(live, key, fn) && refuses(key, fn)
    }

    method RegisterKeyNotify(key: KeyData, fn: nat) returns (ok: bool, handle: nat)
      requires Valid()
      modifies this`live, this`issued
      ensures Valid() && ok == !old(Fails(key, fn))
      ensures Clear(old(live), key, fn) && ok ==>
                handle !in old(live) && live == old(live)[handle := Registration(key, fn)]
      ensures !Clear(old(live), key, fn) ==> ok && handle in old(live) && Matches(old(live)[handle], key, fn)
      ensures !Clear(old(live), key, fn) || !ok ==> live == old(live)
    {
      if h :| h in live && Matches(live[h], key, fn) {
        return true, h;
      }
      handle := issued;
      ok := !refuses(key, fn);
      if ok {
        live := live[handle := Registration(key, fn)];
        issued := issued + 1;
      }
    }

    method UnregisterKeyNotify(handle: nat)
      requires Valid()
      modifies this`live
      ensures Valid() && live == old(live) - {handle}
    {
      live := live - {handle};
    }
  }

  class Notify {
    const key: KeyData
    const fn: nat
    var handles: seq<nat>

    constructor (key: KeyData, fn: nat, size: nat)
      ensures this.key == key && this.fn == fn && |handles| == size
    {
      this.key, this.fn := key, fn;
      handles := seq(size, _ => 0);
    }
  }

  function Zeros(n: nat): (zeros: seq<nat>)
    ensures |zeros| == n
  {
    seq(n, _ => 0)
  }

  /** The registrations a console has: those it had when it was added, and those of the notifications. */
  ghost predicate Exactly(live: map<nat, Registration>, base: map<nat, Registration>,
                          handles: seq<nat>, regs: seq<Registration>)
  {
    && |handles| == |regs|
    && (forall h :: h in live <==> h in base || h in handles)
    && (forall h :: h in base ==> h in live && live[h] == base[h] && h !in handles)
    && (forall j :: 0 <= j < |handles| ==> handles[j] in live && live[handles[j]] == regs[j])
    && (forall j, k :: 0 <= j < k < |handles| ==> handles[j] != handles[k])
  }

  lemma ExactlyAdd(live: map<nat, Registration>, base: map<nat, Registration>, handles: seq<nat>,
                   regs: seq<Registration>, h: nat, reg: Registration)
    requires Exactly(live, base, handles, regs) && h !in live
    ensures Exactly(live[h := reg], base, handles + [h], regs + [reg])
  {
    assert forall g :: g in handles + [h] <==> g in handles || g == h;
  }

  lemma ExactlyNone(live: map<nat, Registration>, base: map<nat, Registration>)
    ensures Exactly(live, base, [], []) <==> live == base
  {
  }

  /** Registrations of which none matches, under handles of their own, leave a console clear that was. */
  lemma StaysClear(live: map<nat, Registration>, base: map<nat, Registration>, handles: seq<nat>,
                   regs: seq<Registration>, key: KeyData, fn: nat)
    requires Exactly(live, base, handles, regs) && Clear(base, key, fn)
    requires forall j :: 0 <= j < |regs| ==> !Matches(regs[j], key, fn)
    ensures Clear(live, key, fn)
  {
    forall h | h in live ensures !Matches(live[h], key, fn) {
      if h !in base {
        var j :| 0 <= j < |handles| && handles[j] == h;
        assert live[h] == regs[j];
      }
    }
  }

  /** A new registration that does not match changes nothing. */
  lemma AddedClear(live: map<nat, Registration>, h: nat, r: Registration, key: KeyData, fn: nat)
    requires h !in live && !Matches(r, key, fn)
    ensures Clear(live[h := r], key, fn) == Clear(live, key, fn)
  {
    hide Matches;
    if Clear(live[h := r], key, fn) {
      forall g | g in live ensures !Matches(live[g], key, fn) {
        assert live[h := r][g] == live[g];
      }
    }
  }

  /** When somebody else's registration matches, so does one on the console, and the handle given is his. */
  lemma SharedHandle(live: map<nat, Registration>, base: map<nat, Registration>, handles: seq<nat>,
                     regs: seq<Registration>, key: KeyData, fn: nat, h: nat)
    requires Exactly(live, base, handles, regs) && !Clear(base, key, fn)
    requires forall j :: 0 <= j < |regs| ==> !Matches(regs[j], key, fn)
    ensures !Clear(live, key, fn)
    ensures h in live && Matches(live[h], key, fn) ==>
              !Exactly(live, base, handles + [h], regs + [Registration(key, fn)])
  {
    var g :| g in base && Matches(base[g], key, fn);
    assert live[g] == base[g];
    if h in live && Matches(live[h], key, fn) {
      assert forall j :: 0 <= j < |handles| ==> !Matches(live[handles[j]], key, fn);
      assert h in base;
      assert (handles + [h])[|handles|] == h;
    }
  }

  function Without<T>(s: seq<T>, j: nat): (rest: seq<T>)
    requires j < |s|
    ensures |rest| == |s| - 1
    ensures forall k :: 0 <= k < |rest| ==> rest[k] == s[if k < j then k else k + 1]
  {
    s[..j] + s[j + 1..]
  }

  lemma WithoutIn(s: seq<nat>, j: nat, x: nat)
    requires j < |s| && forall i, k :: 0 <= i < k < |s| ==> s[i] != s[k]
    ensures x in Without(s, j) <==> x in s && x != s[j]
  {
    if x in s && x != s[j] {
      var k :| 0 <= k < |s| && s[k] == x;
      assert Without(s, j)[if k < j then k else k - 1] == x;
    }
  }

  lemma ExactlyRemove(live: map<nat, Registration>, base: map<nat, Registration>, handles: seq<nat>,
                      regs: seq<Registration>, j: nat)
    requires Exactly(live, base, handles, regs) && j < |handles|
    ensures Exactly(live - {handles[j]}, base, Without(handles, j), Without(regs, j))
  {
    forall x
      ensures x in Without(handles, j) <==> x in handles && x != handles[j]
    {
      WithoutIn(handles, j, x);
    }
  }

  /** No notification matches a later one. */
  ghost predicate Unrepeated(ns: seq<Notify>) {
    forall j, k :: 0 <= j < k < |ns| ==> !Matches(Registration(ns[j].key, ns[j].fn), ns[k].key, ns[k].fn)
  }

  lemma StillUnrepeated(ns: seq<Notify>, n: Notify)
    requires Unrepeated(ns)
    requires forall m :: m in ns ==> !Matches(Registration(m.key, m.fn), n.key, n.fn)
    ensures Unrepeated(ns + [n])
  {
  }

  lemma WithoutUnrepeated(ns: seq<Notify>, j: nat)
    requires Unrepeated(ns) && j < |ns|
    ensures Unrepeated(Without(ns, j))
  {
  }

  lemma MatchesItself(key: KeyData, fn: nat)
    ensures Matches(Registration(key, fn), key, fn)
  {
  }

  /** No notification is matched by an earlier one. */
  lemma EarlierUnmatched(ns: seq<Notify>, j: nat, regs: seq<Registration>)
    requires Unrepeated(ns) && j < |ns| == |regs|
    requires forall k :: 0 <= k < |ns| ==> regs[k] == Registration(ns[k].key, ns[k].fn)
    ensures forall k :: 0 <= k < |regs[..j]| ==> !Matches(regs[..j][k], ns[j].key, ns[j].fn)
  {
  }

  /** Taking a handle back removes a registration exactly if it was there before. */
  lemma TakenBack(was: map<nat, Registration>, h: nat, r: Registration)
    ensures h !in was ==> was[h := r] - {h} == was
    ensures h in was ==> was - {h} != was
  {
  }

  class KeyNotifier {
    /** The consoles, and the room there is for them. */
    var consoles: seq<InputConsole>
    var listCount: nat
    var notifies: seq<Notify>
    /** What each console had registered by others when it was added. */
    ghost var base: seq<map<nat, Registration>>

    constructor ()
      ensures Valid() && consoles == [] && notifies == []
    {
      consoles, listCount, notifies, base := [], ALLOC_UNIT, [], [];
    }

    ghost function Regs(): (regs: seq<Registration>)
      reads this
      ensures |regs| == |notifies|
    {
      seq(|notifies|, j requires 0 <= j < |notifies| reads this => Registration(notifies[j].key, notifies[j].fn))
    }

    /** The handles that the notifications have from console `i`. */
    ghost function HandlesOn(i: nat): (hs: seq<nat>)
      requires forall n :: n in notifies ==> i < |n.handles|
      reads this, notifies
      ensures |hs| == |notifies|
    {
      seq(|notifies|, j requires 0 <= j < |notifies| && i < |notifies[j].handles| reads this, notifies =>
        notifies[j].handles[i])
    }

    ghost predicate Shaped()
      reads this, notifies
    {
      && |consoles| <= listCount && |base| == |consoles|
      && (forall i, j :: 0 <= i < j < |consoles| ==> consoles[i] != consoles[j])
      && (forall j, k :: 0 <= j < k < |notifies| ==> notifies[j] != notifies[k])
      && (forall n :: n in notifies ==> |n.handles| == listCount)
    }

    /** On each console, the registrations are those of the notifications, under the handles kept, and
        no others than it had; and no notification repeats an earlier one. */
    ghost predicate Valid()
      reads this, notifies, consoles
    {
      && Shaped()
      && (forall i :: 0 <= i < |consoles| ==>
            consoles[i].Valid() && Exactly(consoles[i].live, base[i], HandlesOn(i), Regs()))
      && Unrepeated(notifies)
    }

    /** No console had a registration of somebody else's that matches. */
    ghost predicate ForeignClear(key: KeyData, fn: nat)
      reads this
    {
      forall i :: 0 <= i < |base| ==> Clear(base[i], key, fn)
    }

    /** These registrations match none of the notifications. */
    ghost predicate ClearOfAll(live: map<nat, Registration>)
      reads this
    {
      forall n :: n in notifies ==> Clear(live, n.key, n.fn)
    }

    // ----- adding a console -----

    /** Makes the lists of handles longer. */
    method GrowHandles()
      requires Shaped()
      modifies notifies
      ensures forall k :: 0 <= k < |notifies| ==>
                notifies[k].handles == old(notifies[k].handles) + Zeros(ALLOC_UNIT)
    {
      var j := 0;
      while j < |notifies|
        invariant j <= |notifies|
        invariant forall k :: 0 <= k < |notifies| ==>
                    notifies[k].handles == old(notifies[k].handles) + if k < j then Zeros(ALLOC_UNIT) else []
        modifies notifies
      {
        notifies[j].handles := notifies[j].handles + Zeros(ALLOC_UNIT);
        j := j + 1;
      }
    }

    /** Makes room for more consoles, in every notification's list of handles too. */
    method Grow()
      requires Valid()
      modifies this`listCount, notifies
      ensures Valid() && listCount == old(listCount) + ALLOC_UNIT
    {
      hide Exactly, Unrepeated;
      GrowHandles();
      listCount := listCount + ALLOC_UNIT;
      assert forall k :: 0 <= k < |notifies| ==> |notifies[k].handles| == listCount;
      assert Shaped() && Regs() == old(Regs());
      forall i | 0 <= i < |consoles|
        ensures HandlesOn(i) == old(HandlesOn(i))
      {
      }
    }

    /** Takes the first `n` registrations back from a console being added. */
    method UnregisterFirst(d: InputConsole, n: nat, ghost clear: bool, ghost was: map<nat, Registration>)
      requires Shaped() && |consoles| < listCount && d.Valid() && n <= |notifies|
      requires clear ==> Exactly(d.live, was, HandlesOn(|consoles|)[..n], Regs()[..n])
      modifies d`live, d`issued
      ensures d.Valid() && (clear ==> d.live == was)
    {
      hide Exactly;
      ghost var hs, regs := HandlesOn(|consoles|), Regs();
      var j := n;
      while j > 0
        invariant 0 <= j <= n && d.Valid() && (clear ==> Exactly(d.live, was, hs[..j], regs[..j]))
        modifies d`live, d`issued
      {
        j := j - 1;
        if clear {
          ExactlyRemove(d.live, was, hs[..j + 1], regs[..j + 1], j);
        }
        assert Without(hs[..j + 1], j) == hs[..j] && Without(regs[..j + 1], j) == regs[..j];
        d.UnregisterKeyNotify(notifies[j].handles[|consoles|]);
      }
      assert hs[..0] == [] && regs[..0] == [];
      ExactlyNone(d.live, was);
    }

    /** Keeps the handle that notification `j` has from console `at`. */
    method KeepHandle(j: nat, at: nat, handle: nat)
      requires Shaped() && j < |notifies| && at < listCount
      modifies notifies[j]
      ensures Shaped() && HandlesOn(at) == old(HandlesOn(at))[j := handle]
      ensures forall i :: 0 <= i < listCount && i != at ==> HandlesOn(i) == old(HandlesOn(i))
    {
      notifies[j].handles := notifies[j].handles[at := handle];
      forall i | 0 <= i < listCount && i != at
        ensures HandlesOn(i) == old(HandlesOn(i))
      {
      }
    }

    /** Registers notification `j` on a console being added, which has those before it. */
    method RegisterOne(d: InputConsole, j: nat, ghost clear: bool, ghost was: map<nat, Registration>)
      returns (ok: bool)
      requires Shaped() && |consoles| < listCount && j < |notifies| && d.Valid() && Unrepeated(notifies)
      requires clear ==> ClearOfAll(was)
      requires clear ==> Exactly(d.live, was, HandlesOn(|consoles|)[..j], Regs()[..j])
      modifies notifies[j], d`live, d`issued
      ensures Shaped() && d.Valid() && Regs() == old(Regs())
      ensures forall i :: 0 <= i < |consoles| ==> HandlesOn(i) == old(HandlesOn(i))
      ensures clear && ok ==> Exactly(d.live, was, HandlesOn(|consoles|)[..j + 1], Regs()[..j + 1])
      ensures !ok ==> HandlesOn(|consoles|) == old(HandlesOn(|consoles|)) && d.live == old(d.live)
      ensures ok == !old(d.Fails(notifies[j].key, notifies[j].fn))
      ensures forall k :: j < k < |notifies| ==>
                Clear(d.live, notifies[k].key, notifies[k].fn) == Clear(old(d.live), notifies[k].key, notifies[k].fn)
    {
      hide Exactly, Unrepeated, Clear, Matches;
      var at := |consoles|;
      ghost var before, hs, regs := d.live, HandlesOn(at), Regs();
      if clear {
        EarlierUnmatched(notifies, j, regs);
        StaysClear(before, was, hs[..j], regs[..j], notifies[j].key, notifies[j].fn);
      }
      var handle;
      ok, handle := d.RegisterKeyNotify(notifies[j].key, notifies[j].fn);
      assert HandlesOn(at) == hs;
      LaterStayClear(j, before, d.live, handle);
      if ok {
        if clear {
          ExactlyAdd(before, was, hs[..j], regs[..j], handle, regs[j]);
        }
        KeepHandle(j, at, handle);
        assert HandlesOn(at)[..j + 1] == hs[..j] + [handle];
        assert regs[..j + 1] == regs[..j] + [regs[j]];
      }
    }

    /** Registering notification `j` does not change whether there is a registration that matches a later one. */
    lemma LaterStayClear(j: nat, was: map<nat, Registration>, live: map<nat, Registration>, handle: nat)
      requires Unrepeated(notifies) && j < |notifies|
      requires live == was || (handle !in was && live == was[handle := Regs()[j]])
      ensures forall k :: j < k < |notifies| ==>
                Clear(live, notifies[k].key, notifies[k].fn) == Clear(was, notifies[k].key, notifies[k].fn)
    {
      forall k | j < k < |notifies|
        ensures Clear(live, notifies[k].key, notifies[k].fn) == Clear(was, notifies[k].key, notifies[k].fn)
      {
        assert !Matches(Regs()[j], notifies[k].key, notifies[k].fn);
        hide Matches;
        if live != was {
          AddedClear(was, handle, Regs()[j], notifies[k].key, notifies[k].fn);
        }
      }
    }

    /** Registers all notifications on a console being added; if it refuses one, it is left with none.  That
        is, if it had no registrations that match: the handle of one that does would be shared. */
    method RegisterAll(d: InputConsole) returns (ok: bool)
      requires Shaped() && |consoles| < listCount && d.Valid() && Unrepeated(notifies)
      modifies notifies, d`live, d`issued
      ensures Shaped() && d.Valid()
      ensures ok <==> forall n :: n in notifies ==> !old(d.Fails(n.key, n.fn))
      ensures old(ClearOfAll(d.live)) && ok ==> Exactly(d.live, old(d.live), HandlesOn(|consoles|), Regs())
      ensures notifies == [] ==> ok && d.live == old(d.live)
      ensures old(ClearOfAll(d.live)) && !ok ==> d.live == old(d.live)
      ensures forall i :: 0 <= i < |consoles| ==> HandlesOn(i) == old(HandlesOn(i))
    {
      hide Exactly, Unrepeated, Clear, Matches;
      ghost var was, regs := d.live, Regs();
      ghost var clear := ClearOfAll(was);
      var j := 0;
      ExactlyNone(was, was);
      while j < |notifies|
        invariant j <= |notifies| && Shaped() && d.Valid() && Regs() == regs
        invariant forall i :: 0 <= i < |consoles| ==> HandlesOn(i) == old(HandlesOn(i))
        invariant clear ==> Exactly(d.live, was, HandlesOn(|consoles|)[..j], regs[..j])
        invariant j == 0 ==> d.live == was
        invariant forall k :: 0 <= k < j ==> !old(d.Fails(notifies[k].key, notifies[k].fn))
        invariant forall k :: j <= k < |notifies| ==>
                    Clear(d.live, notifies[k].key, notifies[k].fn) == Clear(was, notifies[k].key, notifies[k].fn)
        modifies notifies, d`live, d`issued
      {
        ok := RegisterOne(d, j, clear, was);
        if !ok {
          UnregisterFirst(d, j, clear, was);
          return;
        }
        j := j + 1;
      }
      ok := true;
      assert HandlesOn(|consoles|)[..j] == HandlesOn(|consoles|) && regs[..j] == Regs();
    }

    /** Adds a console and registers all notifications on it; when it refuses one, it is left as it was and is
        not added.  The console must not have had registrations that match. */
    method AddConsole(d: InputConsole) returns (ok: bool)
      requires Valid() && d.Valid() && d !in consoles
      modifies this, notifies, d`live, d`issued
      ensures Shaped() && d.Valid() && notifies == old(notifies) && Unrepeated(notifies)
      ensures consoles == if ok then old(consoles) + [d] else old(consoles)
      ensures base == if ok then old(base) + [old(d.live)] else old(base)
      ensures !ok || old(ClearOfAll(d.live)) ==> Valid()
      ensures !ok && old(ClearOfAll(d.live)) ==> d.live == old(d.live)
      ensures ok <==> forall n :: n in notifies ==> !old(d.Fails(n.key, n.fn))
      ensures notifies == [] ==> d.live == old(d.live)
    {
      hide Exactly, Unrepeated, Clear, InputConsole.Fails;
      if |consoles| >= listCount {
        Grow();
      }
      ghost var was := d.live;
      ok := RegisterAll(d);
      if ok {
        Append(d, was);
      }
    }

    /** Enters a console that has been registered on; `was` is what it had before. */
    method Append(d: InputConsole, ghost was: map<nat, Registration>)
      requires Shaped() && Unrepeated(notifies) && |consoles| < listCount && d.Valid() && d !in consoles
      requires forall i :: 0 <= i < |consoles| ==>
                 consoles[i].Valid() && Exactly(consoles[i].live, base[i], HandlesOn(i), Regs())
      modifies this`consoles, this`base
      ensures Shaped() && consoles == old(consoles) + [d] && base == old(base) + [was]
      ensures Valid() <==> old(Exactly(d.live, was, HandlesOn(|consoles|), Regs()))
    {
      hide Exactly, Unrepeated;
      consoles := consoles + [d];
      base := base + [was];
      assert Regs() == old(Regs());
      forall i | 0 <= i < |consoles|
        ensures HandlesOn(i) == old(HandlesOn(i))
      {
      }
    }

    // ----- registering a notification -----

    /** A notification that is there already and that `key` and `fn` match. */
    method FindNotify(key: KeyData, fn: nat) returns (found: Notify?)
      requires Valid()
      ensures found != null ==> found in notifies && Matches(Registration(found.key, found.fn), key, fn)
      ensures found == null ==> forall n :: n in notifies ==> !Matches(Registration(n.key, n.fn), key, fn)
    {
      var j := 0;
      while j < |notifies|
        invariant j <= |notifies|
        invariant forall k :: 0 <= k < j ==> !Matches(Registration(notifies[k].key, notifies[k].fn), key, fn)
      {
        if IsKeyRegistered(notifies[j].key, key) && notifies[j].fn == fn {
          return notifies[j];
        }
        j := j + 1;
      }
      found := null;
    }

    /** Registers one notification on all consoles; if number `failed` refuses it, it is taken back from those
        before it.  Then each console is as it was exactly if it is not one of those or had no registration
        that matches: the handle of one that does is shared, and taking it back removes it. */
    method RegisterOnAll(n: Notify) returns (ok: bool, ghost failed: nat)
      requires Shaped() && (forall c :: c in consoles ==> c.Valid()) && |n.handles| == listCount
      modifies n, consoles`live, consoles`issued
      ensures |n.handles| == listCount && forall c :: c in consoles ==> c.Valid()
      ensures ok ==> forall i :: 0 <= i < |consoles| ==> RegisteredOn(n, i, old(consoles[i].live))
      ensures ok <==> forall i :: 0 <= i < |consoles| ==> !old(consoles[i].Fails(n.key, n.fn))
      ensures !ok ==> failed < |consoles| && old(consoles[failed].Fails(n.key, n.fn))
      ensures !ok ==> forall i :: 0 <= i < failed ==> !old(consoles[i].Fails(n.key, n.fn))
      ensures !ok ==> forall i :: 0 <= i < |consoles| ==>
                (consoles[i].live == old(consoles[i].live)
                 <==> failed <= i || Clear(old(consoles[i].live), n.key, n.fn))
    {
      hide Matches, Clear;
      ghost var lives := Lives();
      failed := 0;
      var i := 0;
      while i < |consoles|
        invariant i <= |consoles| && |n.handles| == listCount
        invariant forall c :: c in consoles ==> c.Valid()
        invariant forall k :: 0 <= k < i ==> RegisteredOn(n, k, lives[k])
        invariant forall k :: i <= k < |consoles| ==> consoles[k].live == lives[k]
        invariant forall k :: 0 <= k < i ==> !old(consoles[k].Fails(n.key, n.fn))
        modifies n, consoles`live, consoles`issued
      {
        var handle;
        ok, handle := consoles[i].RegisterKeyNotify(n.key, n.fn);
        if !ok {
          failed := i;
          forall k | 0 <= k < i
            ensures consoles[k].live - {n.handles[k]} == lives[k] <==> Clear(lives[k], n.key, n.fn)
          {
            assert RegisteredOn(n, k, lives[k]);
            TakenBack(lives[k], n.handles[k], Registration(n.key, n.fn));
          }
          UnregisterBefore(n, i);
          return;
        }
        n.handles := n.handles[i := handle];
        assert RegisteredOn(n, i, lives[i]);
        i := i + 1;
      }
      ok := true;
    }

    ghost function Lives(): (lives: seq<map<nat, Registration>>)
      reads this, consoles
      ensures |lives| == |consoles| && forall i :: 0 <= i < |consoles| ==> lives[i] == consoles[i].live
    {
      seq(|consoles|, i requires 0 <= i < |consoles| reads this, consoles => consoles[i].live)
    }

    /** What registering a notification on console `i` has done: a new registration, or none when the console
        had one that matches. */
    ghost predicate RegisteredOn(n: Notify, i: nat, was: map<nat, Registration>)
      requires i < |consoles| && i < |n.handles|
      reads this, n, consoles
    {
      if Clear(was, n.key, n.fn) then
        n.handles[i] !in was && consoles[i].live == was[n.handles[i] := Registration(n.key, n.fn)]
      else
        n.handles[i] in was && Matches(was[n.handles[i]], n.key, n.fn) && consoles[i].live == was
    }

    /** Takes a notification back from the consoles before number `n`. */
    method UnregisterBefore(notify: Notify, n: nat)
      requires Shaped() && (forall c :: c in consoles ==> c.Valid())
      requires n <= |consoles| && |notify.handles| == listCount
      modifies consoles`live, consoles`issued
      ensures forall c :: c in consoles ==> c.Valid()
      ensures forall k :: 0 <= k < |consoles| ==>
                consoles[k].live ==
                if k < n then old(consoles[k].live) - {notify.handles[k]} else old(consoles[k].live)
    {
      var i := n;
      while i != 0
        invariant 0 <= i <= n && forall c :: c in consoles ==> c.Valid()
        invariant forall k :: 0 <= k < |consoles| ==>
                    consoles[k].live ==
                    if i <= k < n then old(consoles[k].live) - {notify.handles[k]} else old(consoles[k].live)
        modifies consoles`live, consoles`issued
      {
        i := i - 1;
        consoles[i].UnregisterKeyNotify(notify.handles[i]);
      }
    }

    /** Registers a new notification on all consoles; on failure they are as they were, if nobody else had a
        registration that matches. */
    method RegisterNew(n: Notify) returns (ok: bool)
      requires Valid() && n !in notifies && |n.handles| == listCount
      requires forall m :: m in notifies ==> !Matches(Registration(m.key, m.fn), n.key, n.fn)
      modifies n, consoles`live, consoles`issued
      ensures |n.handles| == listCount && (forall c :: c in consoles ==> c.Valid()) && Shaped()
      ensures Unrepeated(notifies) && ForeignClear(n.key, n.fn) == old(ForeignClear(n.key, n.fn))
      ensures ok <==> forall i :: 0 <= i < |consoles| ==> !old(consoles[i].Fails(n.key, n.fn))
      ensures ok ==> (ForeignClear(n.key, n.fn) <==> forall i :: 0 <= i < |consoles| ==> ExactlyWith(n, i))
      ensures ForeignClear(n.key, n.fn) && !ok ==>
                Valid() && forall i :: 0 <= i < |consoles| ==> consoles[i].live == old(consoles[i].live)
    {
      hide Exactly, Unrepeated, Clear, Matches;
      ghost var reg := Registration(n.key, n.fn);
      if ForeignClear(n.key, n.fn) {
        forall i | 0 <= i < |consoles| ensures Clear(consoles[i].live, n.key, n.fn) {
          StaysClear(consoles[i].live, base[i], HandlesOn(i), Regs(), n.key, n.fn);
        }
      }
      ghost var lives, failed := Lives(), 0;
      ok, failed := RegisterOnAll(n);
      assert Regs() == old(Regs());
      forall i | 0 <= i < |consoles|
        ensures HandlesOn(i) == old(HandlesOn(i))
      {
      }
      if ok {
        forall i | 0 <= i < |consoles|
          ensures ExactlyWith(n, i) <==> Clear(base[i], n.key, n.fn)
        {
          assert RegisteredOn(n, i, lives[i]);
          OneMore(n, i, lives[i]);
        }
      }
    }

    /** On console `i` the registrations are those of the notifications and of `n`, and no others than it had. */
    ghost predicate ExactlyWith(n: Notify, i: nat)
      requires Shaped() && i < |consoles| && |n.handles| == listCount
      reads this, notifies, n, consoles
    {
      Exactly(consoles[i].live, base[i], HandlesOn(i) + [n.handles[i]], Regs() + [Registration(n.key, n.fn)])
    }

    lemma OneMore(n: Notify, i: nat, was: map<nat, Registration>)
      requires Shaped() && i < |consoles| && |n.handles| == listCount && RegisteredOn(n, i, was)
      requires Exactly(was, base[i], HandlesOn(i), Regs())
      requires forall j :: 0 <= j < |Regs()| ==> !Matches(Regs()[j], n.key, n.fn)
      ensures ExactlyWith(n, i) <==> Clear(base[i], n.key, n.fn)
    {
      hide Exactly, Clear, Matches;
      var reg := Registration(n.key, n.fn);
      if Clear(base[i], n.key, n.fn) {
        StaysClear(was, base[i], HandlesOn(i), Regs(), n.key, n.fn);
        ExactlyAdd(was, base[i], HandlesOn(i), Regs(), n.handles[i], reg);
      } else {
        SharedHandle(was, base[i], HandlesOn(i), Regs(), n.key, n.fn, n.handles[i]);
      }
    }

    /** Enters a notification that all consoles have accepted. */
    method Insert(n: Notify)
      requires Shaped() && n !in notifies && |n.handles| == listCount
      requires forall c :: c in consoles ==> c.Valid()
      requires Unrepeated(notifies + [n])
      modifies this`notifies
      ensures notifies == old(notifies) + [n]
      ensures Valid() <==> old(forall i :: 0 <= i < |consoles| ==> ExactlyWith(n, i))
    {
      hide Exactly, IsKeyRegistered, Unrepeated;
      notifies := notifies + [n];
      assert Regs() == old(Regs()) + [Registration(n.key, n.fn)];
      forall i | 0 <= i < |consoles|
        ensures HandlesOn(i) == old(HandlesOn(i)) + [n.handles[i]]
        ensures Exactly(consoles[i].live, base[i], HandlesOn(i), Regs()) == old(ExactlyWith(n, i))
      {
      }
    }

    /** Registers a notification, unless one that matches is there already; when a console refuses it,
        everything is left as it was.  Nobody else may have a registration that matches on a console. */
    method RegisterKeyNotify(key: KeyData, fn: nat) returns (ok: bool, handle: Notify?)
      requires Valid()
      modifies this`notifies, consoles`live, consoles`issued
      ensures ok <==> (exists n :: n in old(notifies) && Matches(Registration(n.key, n.fn), key, fn))
                      || forall i :: 0 <= i < |consoles| ==> !old(consoles[i].Fails(key, fn))
      ensures old(ForeignClear(key, fn)) ==> Valid()
      ensures ok && handle !in old(notifies) ==> (Valid() <==> old(ForeignClear(key, fn)))
      ensures ok ==> handle != null && handle in notifies && Matches(Registration(handle.key, handle.fn), key, fn)
      ensures ok && handle !in old(notifies) ==>
                fresh(handle) && handle.key == key && notifies == old(notifies) + [handle]
      ensures !ok || handle in old(notifies) ==> notifies == old(notifies)
      ensures (if ok then handle in old(notifies) else old(ForeignClear(key, fn))) ==>
                forall i :: 0 <= i < |consoles| ==> consoles[i].live == old(consoles[i].live)
      ensures (exists n :: n in old(notifies) && Matches(Registration(n.key, n.fn), key, fn)) ==>
                handle in old(notifies) && Valid()
    {
      hide Exactly, Matches, Unrepeated, Clear;
      var found := FindNotify(key, fn);
      if found != null {
        return true, found;
      }
      var n := new Notify(key, fn, listCount);
      ok := RegisterNew(n);
      handle := n;
      MatchesItself(key, fn);
      if ok {
        StillUnrepeated(notifies, n);
        Insert(n);
      }
    }

    // ----- removing a notification -----

    /** Takes a notification back from all consoles. */
    method UnregisterOnAll(n: Notify)
      requires Shaped() && (forall c :: c in consoles ==> c.Valid()) && |n.handles| == listCount
      modifies consoles`live, consoles`issued
      ensures forall c :: c in consoles ==> c.Valid()
      ensures forall i :: 0 <= i < |consoles| ==> consoles[i].live == old(consoles[i].live) - {n.handles[i]}
    {
      var i := 0;
      while i < |consoles|
        invariant i <= |consoles| && forall c :: c in consoles ==> c.Valid()
        invariant forall k :: 0 <= k < |consoles| ==>
                    consoles[k].live ==
                    if k < i then old(consoles[k].live) - {n.handles[k]} else old(consoles[k].live)
        modifies consoles`live, consoles`issued
      {
        consoles[i].UnregisterKeyNotify(n.handles[i]);
        i := i + 1;
      }
    }

    /** Removes notification `j` from all consoles and from the registry. */
    method RemoveAt(j: nat)
      requires Valid() && j < |notifies|
      modifies this`notifies, consoles`live, consoles`issued
      ensures Valid() && notifies == Without(old(notifies), j)
    {
      hide Exactly, Unrepeated;
      ghost var regs := Regs();
      UnregisterOnAll(notifies[j]);
      forall i | 0 <= i < |consoles|
        ensures Exactly(consoles[i].live, base[i], Without(HandlesOn(i), j), Without(regs, j))
      {
        assert HandlesOn(i) == old(HandlesOn(i)) && regs == old(Regs());
        ExactlyRemove(old(consoles[i].live), base[i], HandlesOn(i), regs, j);
      }
      WithoutUnrepeated(notifies, j);
      TakeOut(j);
    }

    /** Takes notification `j` out of the list. */
    method TakeOut(j: nat)
      requires Shaped() && j < |notifies|
      modifies this`notifies
      ensures notifies == Without(old(notifies), j) && Shaped() && Regs() == Without(old(Regs()), j)
      ensures forall i :: 0 <= i < |consoles| ==> HandlesOn(i) == Without(old(HandlesOn(i)), j)
    {
      notifies := Without(notifies, j);
      assert Regs() == Without(old(Regs()), j);
      forall i | 0 <= i < |consoles|
        ensures HandlesOn(i) == Without(old(HandlesOn(i)), j)
      {
      }
    }

    /** Removes a notification from all consoles and from the registry, if it is there. */
    method UnregisterKeyNotify(handle: Notify?) returns (ok: bool)
      requires Valid()
      modifies this`notifies, consoles`live, consoles`issued
      ensures Valid() && ok == (handle in old(notifies))
      ensures !ok ==> notifies == old(notifies)
                      && forall i :: 0 <= i < |consoles| ==> consoles[i].live == old(consoles[i].live)
      ensures ok ==> exists j :: 0 <= j < |old(notifies)| && old(notifies)[j] == handle
                                 && notifies == Without(old(notifies), j)
    {
      hide Exactly, Unrepeated;
      var j := 0;
      while j < |notifies|
        invariant j <= |notifies| && handle !in notifies[..j]
      {
        if notifies[j] == handle {
          RemoveAt(j);
          return true;
        }
        j := j + 1;
      }
      ok := false;
    }
  }

  /** An input for which the registry does not stay exact: somebody else has registered the same function for
      the same key on a console before it is added. */
  method SharedRegistration(key: KeyData, fn: nat) returns (r: KeyNotifier)
    ensures !r.Valid()
  {
    hide Exactly, Unrepeated, IsKeyRegistered;
    var d := new InputConsole((k, f) => false);
    var ok, h := d.RegisterKeyNotify(key, fn);
    r := new KeyNotifier();
    ok := r.AddConsole(d);
    MatchesItself(key, fn);
    assert r.base[0] == d.live && Matches(d.live[h], key, fn);
    assert !r.ForeignClear(key, fn);
    var handle;
    ok, handle := r.RegisterKeyNotify(key, fn);
  }
}
