/** A key of the keypad: its press is turned into keystrokes by how long it is held. */
module Keypad {

  /** What is put into the keystroke buffer: the key's own data, or one of the power key's combinations. */
  datatype Keystroke = Own | PowerDown | PowerUp | PowerLongpress

  datatype Phase = Released | Pressed | LongpressRelease

  /** What is seen at one poll: the key, the time since the last poll in nanoseconds, and whether the
      volume keys and the power key are held. */
  datatype Sample = Sample(pressed: bool, delta: nat, down: bool, up: bool, power: bool)

  const WRAP := 0x1_0000_0000_0000_0000
  const REPEAT_TIME := 200 * 1_000_000
  const LONGPRESS_TIME := 500 * 1_000_000
  const RELEASE_TIME := 10 * 1_000_000

  datatype Context = Context(isPower: bool, time: nat, phase: Phase, repeat: bool, longpress: bool)

  function Start(isPower: bool): Context {
    Context(isPower, 0, Released, false, false)
  }

  function Combination(s: Sample): Keystroke {
    if s.down then PowerDown else if s.up then PowerUp else PowerLongpress
  }

  /** The state after a sample, and the keystrokes it gives: none or one. */
  function Update(c: Context, s: Sample): (Context, seq<Keystroke>) {
    var time := (c.time + s.delta) % WRAP;
    match c.phase
    case Released =>
      if s.pressed then (c.(time := 0, phase := Pressed), []) else (c.(time := time), [])
    case Pressed =>
      if s.pressed then
        if c.repeat && time >= REPEAT_TIME then (c.(time := 0), [Own])
        else if !c.longpress && time >= LONGPRESS_TIME then
          if c.isPower then (c.(time := time, longpress := true), [Combination(s)])
          else if !s.power then (c.(time := 0, repeat := true, longpress := true), [Own])
          else (c.(time := time, longpress := true), [])
        else (c.(time := time), [])
      else if !c.longpress then (c.(time := time, phase := LongpressRelease), [Own])
      else if time >= RELEASE_TIME then (Start(c.isPower), [])
      else (c.(time := time), [])
    case LongpressRelease => (Start(c.isPower), [])
  }

  function Run(c: Context, samples: seq<Sample>): Context {
    if samples == [] then c else Update(Run(c, samples[..|samples| - 1]), samples[|samples| - 1]).0
  }

  function Keystrokes(c: Context, samples: seq<Sample>): seq<Keystroke> {
    if samples == [] then []
    else
      Keystrokes(c, samples[..|samples| - 1])
      + Update(Run(c, samples[..|samples| - 1]), samples[|samples| - 1]).1
  }

  // ---------- one press ----------

  /** The time that passes over the samples. */
  function Elapsed(samples: seq<Sample>): nat {
    if samples == [] then 0 else Elapsed(samples[..|samples| - 1]) + samples[|samples| - 1].delta
  }

  /** The samples that follow the one at which a press was seen, up to any point before the key counts as
      released again, with a clock that does not wrap. */
  ghost predicate Held(c: Context, samples: seq<Sample>) {
    && c.phase == Pressed && c.time == 0 && !c.repeat && !c.longpress
    && (forall k :: 0 <= k < |samples| ==> Run(c, samples[..k]).phase == Pressed)
    && Elapsed(samples) < WRAP
  }

  lemma HeldPrefix(c: Context, samples: seq<Sample>)
    requires Held(c, samples) && samples != []
    ensures Held(c, samples[..|samples| - 1])
    ensures Run(c, samples[..|samples| - 1]).phase == Pressed
  {
    var before := samples[..|samples| - 1];
    assert forall k :: 0 <= k < |before| ==> before[..k] == samples[..k];
  }

  /** One more sample of a run. */
  lemma RunNext(c: Context, samples: seq<Sample>)
    requires samples != []
    ensures var before, s := samples[..|samples| - 1], samples[|samples| - 1];
            && Run(c, samples) == Update(Run(c, before), s).0
            && Keystrokes(c, samples) == Keystrokes(c, before) + Update(Run(c, before), s).1
            && Elapsed(samples) == Elapsed(before) + s.delta
            && Since(c, samples) == if Update(Run(c, before), s).1 != [] then 0 else Since(c, before) + s.delta
  {
  }

  /** The time since the key's latest keystroke, or since the press if there was none. */
  function Since(c: Context, samples: seq<Sample>): nat {
    if samples == [] then 0
    else
      var before, s := samples[..|samples| - 1], samples[|samples| - 1];
      if Update(Run(c, before), s).1 != [] then 0 else Since(c, before) + s.delta
  }

  function Count(n: nat): nat {
    if n == 0 then 0 else 500_000_000 + (n - 1) * 200_000_000
  }

  /** The clock is the time since the latest keystroke, repeating means there has been one, and the
      keystrokes are all the key's own and no denser than one after the long-press time and one for each
      repeat time. */
  ghost predicate OnTime(r: Context, ks: seq<Keystroke>, since: nat, elapsed: nat) {
    && !r.isPower
    && r.time == since <= elapsed
    && (r.repeat <==> |ks| > 0) && (r.repeat ==> r.longpress)
    && Count(|ks|) + r.time <= elapsed
    && (forall k :: 0 <= k < |ks| ==> ks[k] == Own)
  }

  lemma OnTimeStep(r: Context, s: Sample, ks: seq<Keystroke>, since: nat, elapsed: nat)
    requires OnTime(r, ks, since, elapsed) && elapsed + s.delta < WRAP
    requires r.phase == Pressed && Update(r, s).0.phase == Pressed
    ensures var (r', k) := Update(r, s);
            OnTime(r', ks + k, if k != [] then 0 else since + s.delta, elapsed + s.delta)
  {
    assert (r.time + s.delta) % WRAP == r.time + s.delta;
  }

  /** The state while another key than the power key is held. */
  lemma {:induction false} HeldState(c: Context, samples: seq<Sample>)
    requires Held(c, samples) && !c.isPower && Run(c, samples).phase == Pressed
    ensures OnTime(Run(c, samples), Keystrokes(c, samples), Since(c, samples), Elapsed(samples))
  {
    if samples != [] {
      var before, s := samples[..|samples| - 1], samples[|samples| - 1];
      HeldPrefix(c, samples);
      HeldState(c, before);
      RunNext(c, samples);
      OnTimeStep(Run(c, before), s, Keystrokes(c, before), Since(c, before), Elapsed(before));
    }
  }

  /** While the key is held down, a keystroke is given exactly when it is due: the repeat time after the
      latest one, or the long-press time after the press unless it was decided already that the press is
      part of a combination with the power key. */
  lemma KeystrokeWhenDue(c: Context, samples: seq<Sample>)
    requires Held(c, samples) && !c.isPower && samples != []
    requires samples[|samples| - 1].pressed
    ensures var before, s := samples[..|samples| - 1], samples[|samples| - 1];
            |Keystrokes(c, samples)| > |Keystrokes(c, before)| <==>
              if Keystrokes(c, before) != [] then Since(c, before) + s.delta >= 200_000_000
              else !Run(c, before).longpress && !s.power && Since(c, before) + s.delta >= 500_000_000
  {
    HeldPrefix(c, samples);
    HeldState(c, samples[..|samples| - 1]);
    assert Run(c, samples[..|samples| - 1]).time + samples[|samples| - 1].delta < WRAP;
  }

  /** A whole press of another key than the power key: exactly one keystroke, at the release, if it was
      never a long press, and otherwise a keystroke for the long press and each repeat, none at the
      release, or none at all when it was part of a combination. */
  lemma PressOfKey(c: Context, samples: seq<Sample>)
    requires Held(c, samples) && !c.isPower && samples != []
    requires Run(c, samples).phase != Pressed
    ensures var before := samples[..|samples| - 1];
            var n := |Keystrokes(c, samples)|;
            && !samples[|samples| - 1].pressed
            && (!Run(c, before).longpress ==>
                  Keystrokes(c, before) == [] && Keystrokes(c, samples) == [Own]
                  && Run(c, samples).phase == LongpressRelease)
            && (Run(c, before).longpress ==>
                  Keystrokes(c, samples) == Keystrokes(c, before)
                  && (forall k :: 0 <= k < n ==> Keystrokes(c, samples)[k] == Own)
                  && (n == 0 || 500_000_000 + (n - 1) * 200_000_000 <= Elapsed(samples))
                  && Run(c, samples) == Start(false))
  {
    HeldPrefix(c, samples);
    HeldState(c, samples[..|samples| - 1]);
  }

  lemma {:induction false} HeldPower(c: Context, samples: seq<Sample>)
    requires Held(c, samples) && c.isPower && Run(c, samples).phase == Pressed
    ensures var r := Run(c, samples);
            && r.isPower && !r.repeat && r.time == Elapsed(samples)
            && |Keystrokes(c, samples)| == (if r.longpress then 1 else 0)
  {
    if samples != [] {
      HeldPrefix(c, samples);
      HeldPower(c, samples[..|samples| - 1]);
      RunNext(c, samples);
      assert Elapsed(samples) < WRAP;
      hide Run, Keystrokes, Elapsed, Since, Held;
    }
  }

  /** A whole press of the power key gives exactly one keystroke. */
  lemma PressOfPower(c: Context, samples: seq<Sample>)
    requires Held(c, samples) && c.isPower && samples != []
    requires Run(c, samples).phase != Pressed
    ensures |Keystrokes(c, samples)| == 1
    ensures Keystrokes(c, samples)[0] == Own <==> !Run(c, samples[..|samples| - 1]).longpress
  {
    var before := samples[..|samples| - 1];
    HeldPrefix(c, samples);
    HeldPower(c, before);
    PowerOwn(c, before);
    RunNext(c, samples);
    hide Run, Keystrokes, Elapsed, Since, Held;
    var was, s := Run(c, before), samples[|samples| - 1];
    if was.longpress {
      assert Update(was, s).1 == [];
      assert Keystrokes(c, samples) == Keystrokes(c, before);
      assert Keystrokes(c, before)[0] in Keystrokes(c, before);
    } else {
      assert Update(was, s).1 == [Own];
    }
  }

  /** While it is held the power key only gives a combination. */
  lemma {:induction false} PowerOwn(c: Context, samples: seq<Sample>)
    requires Held(c, samples) && c.isPower && Run(c, samples).phase == Pressed
    ensures Own !in Keystrokes(c, samples)
  {
    if samples != [] {
      HeldPrefix(c, samples);
      HeldPower(c, samples[..|samples| - 1]);
      PowerOwn(c, samples[..|samples| - 1]);
    }
  }

  // ---------- long presses ----------

  ghost predicate AllPressed(samples: seq<Sample>) {
    forall k :: 0 <= k < |samples| ==> samples[k].pressed
  }

  /** The press has lasted for half a second at sample `n`, and not before. */
  ghost predicate LongAt(samples: seq<Sample>, n: nat) {
    && AllPressed(samples) && n < |samples|
    && Elapsed(samples[..n]) < 500_000_000 <= Elapsed(samples[..n + 1]) < 0x1_0000_0000_0000_0000
  }

  /** For half a second a press gives nothing. */
  lemma {:induction false} ShortPress(isPower: bool, samples: seq<Sample>)
    requires AllPressed(samples) && Elapsed(samples) < 500_000_000
    ensures var c := Context(isPower, 0, Pressed, false, false);
            && Keystrokes(c, samples) == []
            && Run(c, samples) == Context(isPower, Elapsed(samples), Pressed, false, false)
  {
    if samples != [] {
      ShortPress(isPower, samples[..|samples| - 1]);
    }
  }

  /** What the sample gives at which the press has become long. */
  lemma LongPress(isPower: bool, samples: seq<Sample>, n: nat)
    requires LongAt(samples, n)
    ensures var c, s := Context(isPower, 0, Pressed, false, false), samples[n];
            && Keystrokes(c, samples[..n + 1]) == Update(Run(c, samples[..n]), s).1
            && Run(c, samples[..n + 1]) == Update(Run(c, samples[..n]), s).0
            && Run(c, samples[..n]) == Context(isPower, Elapsed(samples[..n]), Pressed, false, false)
            && Elapsed(samples[..n]) + s.delta == Elapsed(samples[..n + 1])
  {
    ShortPress(isPower, samples[..n]);
    RunNext(Context(isPower, 0, Pressed, false, false), samples[..n + 1]);
    assert samples[..n + 1][..n] == samples[..n];
    hide Run, Keystrokes, Update, Elapsed, Since;
  }

  /** A long press of the power key gives one keystroke and no more: which one depends on the volume keys at the
      sample at which the press has lasted for half a second, and volume down counts first. */
  lemma {:induction false} PowerLongPress(samples: seq<Sample>, n: nat)
    requires LongAt(samples, n)
    ensures var c, s := Context(true, 0, Pressed, false, false), samples[n];
            && Keystrokes(c, samples) == [if s.down then PowerDown else if s.up then PowerUp else PowerLongpress]
            && Run(c, samples).phase == Pressed && Run(c, samples).longpress && !Run(c, samples).repeat
  {
    hide Run, Keystrokes, Elapsed, Since;
    var c := Context(true, 0, Pressed, false, false);
    if |samples| == n + 1 {
      LongPress(true, samples, n);
      assert samples[..n + 1] == samples;
    } else {
      OneLess(samples, n);
      PowerLongPress(samples[..|samples| - 1], n);
      RunNext(c, samples);
    }
  }

  /** A long press of another key gives its own keystroke at that sample, unless the power key is held then: the
      press is part of a combination, and gives nothing however long it lasts. */
  lemma {:induction false} KeyLongPress(samples: seq<Sample>, n: nat)
    requires LongAt(samples, n)
    ensures var c, s := Context(false, 0, Pressed, false, false), samples[n];
            if s.power then
              && Keystrokes(c, samples) == []
              && Run(c, samples).phase == Pressed && Run(c, samples).longpress && !Run(c, samples).repeat
            else Keystrokes(c, samples[..n + 1]) == [Own]
  {
    hide Run, Keystrokes, Elapsed, Since;
    var c := Context(false, 0, Pressed, false, false);
    if |samples| == n + 1 || !samples[n].power {
      LongPress(false, samples, n);
      assert |samples| == n + 1 ==> samples[..n + 1] == samples;
    } else {
      OneLess(samples, n);
      KeyLongPress(samples[..|samples| - 1], n);
      RunNext(c, samples);
    }
  }

  lemma OneLess(samples: seq<Sample>, n: nat)
    requires LongAt(samples, n) && n + 1 < |samples|
    ensures LongAt(samples[..|samples| - 1], n)
    ensures samples[..|samples| - 1][n] == samples[n] && samples[|samples| - 1].pressed
  {
    assert samples[..|samples| - 1][..n] == samples[..n];
    assert samples[..|samples| - 1][..n + 1] == samples[..n + 1];
  }

  /** The release gives the key's own keystroke if the press was not long, and takes one more poll.  After a long
      press it gives nothing, and counts when the clock shows ten milliseconds. */
  lemma ReleaseMeaning(r: Context, s: Sample, s': Sample)
    requires r.phase == Pressed && !s.pressed && r.time + s.delta < 0x1_0000_0000_0000_0000
    ensures var (after, keys) := Update(r, s);
            if !r.longpress then
              keys == [Own] && after.phase == LongpressRelease
              && Update(after, s') == (Context(r.isPower, 0, Released, false, false), [])
            else if r.time + s.delta >= 10_000_000 then
              keys == [] && after == Context(r.isPower, 0, Released, false, false)
            else keys == [] && after == r.(time := r.time + s.delta)
  {
  }

  // ---------- whole runs ----------

  /** How often a press of the key was seen. */
  function Presses(c: Context, samples: seq<Sample>): nat {
    if samples == [] then 0
    else
      var before, s := samples[..|samples| - 1], samples[|samples| - 1];
      Presses(c, before) + if Run(c, before).phase == Released && s.pressed then 1 else 0
  }

  /** Over any run of the power key, wrapped clock or not, there is one keystroke for each press, except
      for a press that is still undecided. */
  lemma {:induction false} PowerRun(samples: seq<Sample>)
    ensures var r := Run(Start(true), samples);
            && r.isPower && !r.repeat
            && (r.phase != Pressed ==> !r.longpress)
            && |Keystrokes(Start(true), samples)| + (if r.phase == Pressed && !r.longpress then 1 else 0)
               == Presses(Start(true), samples)
  {
    if samples != [] {
      PowerRun(samples[..|samples| - 1]);
    }
  }

  /** Between presses no key gives keystrokes, and every press starts afresh. */
  lemma {:induction false} EveryPressStartsAfresh(isPower: bool, samples: seq<Sample>)
    ensures var r := Run(Start(isPower), samples);
            && r.isPower == isPower
            && (r.phase == Released ==> !r.repeat && !r.longpress)
            && (forall s :: r.phase != Pressed ==> Update(r, s).1 == [])
            && (forall s: Sample :: r.phase == Released && s.pressed ==>
                  Held(Update(r, s).0, []) && Update(r, s).0.phase == Pressed)
  {
    if samples != [] {
      EveryPressStartsAfresh(isPower, samples[..|samples| - 1]);
    }
  }

  // ---------- the context as it is updated ----------

  class KeyContext {
    const isPower: bool
    var time: nat
    var phase: Phase
    var repeat: bool
    var longpress: bool
    var pushed: seq<Keystroke>

    ghost function Value(): Context
      reads this
    {
      Context(isPower, time, phase, repeat, longpress)
    }

    constructor (isPower: bool)
      ensures Value() == Start(isPower) && pushed == []
    {
      this.isPower := isPower;
      time, phase, repeat, longpress, pushed := 0, Released, false, false, [];
    }

    method UpdateKeyStatus(s: Sample)
      modifies this
      ensures (Value(), pushed) == (Update(old(Value()), s).0, old(pushed) + Update(old(Value()), s).1)
    {
      assert pushed + [] == pushed;
      time := (time + s.delta) % WRAP;
      match phase
      case Released =>
        if s.pressed {
          time, phase := 0, Pressed;
        }
      case Pressed =>
        if s.pressed {
          if repeat && time >= REPEAT_TIME {
            pushed := pushed + [Own];
            time, repeat := 0, true;
          } else if !longpress && time >= LONGPRESS_TIME {
            if isPower {
              if s.down {
                pushed := pushed + [PowerDown];
              } else if s.up {
                pushed := pushed + [PowerUp];
              } else {
                pushed := pushed + [PowerLongpress];
              }
            } else if !s.power {
              pushed := pushed + [Own];
              time, repeat := 0, true;
            }
            longpress := true;
          }
        } else {
          if !longpress {
            pushed := pushed + [Own];
            phase := LongpressRelease;
          } else if time >= RELEASE_TIME {
            time, repeat, longpress, phase := 0, false, false, Released;
          }
        }
      case LongpressRelease =>
        time, repeat, longpress, phase := 0, false, false, Released;
    }
  }
}
