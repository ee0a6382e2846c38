/** The radar-detection poll: a timer queues a poll command, the command looks for radar, ends the
    channel availability check (CAC) when its time is over, and sets the timer again. */
module DfsPoll {

  /** `ch` is the supervised channel, 0 for none; CAC times are clock values, 0 for "stopped";
      `polls` counts poll commands queued and not yet run. */
  datatype Radar = Radar(enabled: bool, byOthers: bool, detected: bool, ch: nat,
                         cacStart: nat, cacEnd: nat, armed: bool, polls: nat)

  const INITIAL := Radar(false, false, false, 0, 0, 0, false, 0)

  /** `far`: the requested range has a part in a DFS range outside the supervised one. `wait` and `cac`
      are the non-occupancy time left and the length of the check. */
  datatype Decision =
    | Enable(ch: nat, bypass: bool, far: bool, now: nat, wait: nat, cac: nat)
    | Disable(ch: nat, byOthers: bool)

  /** What a poll finds: nothing, at a time, with or without a request to stop the CAC; or radar,
      followed by the decisions of the channel switch it triggers. */
  datatype Finding = Quiet(now: nat, force: bool) | Found(then_: seq<Decision>)

  /** `Lose`: the dispatcher frees a queued poll without running it. */
  datatype Event = Decide(d: Decision) | Fire(queued: bool) | Poll(f: Finding) | Lose

  // ------------------------------------------------------------ the clock, modulo 2 * half

  function Plus(half: nat, a: nat, d: nat): nat {
    if a + d < 2 * half then a + d else a + d - 2 * half
  }

  function Minus(half: nat, a: nat, b: nat): int {
    if a >= b then a - b else a - b + 2 * half
  }

  /** `a` is after `b`: the difference `b - a`, read as a signed number, is negative. */
  predicate After(half: nat, a: nat, b: nat) { Minus(half, b, a) >= half }

  /** The check has not been stopped and its end lies ahead. */
  predicate Waiting(half: nat, s: Radar, now: nat) { s.cacEnd != 0 && After(half, s.cacEnd, now) }

  predicate UnderCac(half: nat, s: Radar, now: nat) { Waiting(half, s, now) && After(half, now, s.cacStart) }

  /** Start of a check; 0 is skipped, since it means "stopped". */
  function ResetCac(half: nat, s: Radar, now: nat, wait: nat, cac: nat): Radar {
    var start := Plus(half, now, wait);
    var end := Plus(half, start, cac);
    var end' := if start == 0 then Plus(half, end, 1) else end;
    s.(cacStart := if start == 0 then 1 else start, cacEnd := if end' == 0 then 1 else end')
  }

  /** The check starts and lasts its time, across the wrap of the clock and but for the reserved value, and is
      over two ticks later at most. */
  lemma CacLasts(half: nat, s: Radar, now: nat, wait: nat, cac: nat, t: nat)
    requires now < 2 * half && wait + cac + 2 <= half && half >= 2
    ensures var r := ResetCac(half, s, now, wait, cac);
            && r.cacStart != 0 && r.cacEnd != 0
            && (r.cacStart == Plus(half, now, wait) || (Plus(half, now, wait) == 0 && r.cacStart == 1))
            && Minus(half, r.cacEnd, r.cacStart) == (if Plus(half, r.cacStart, cac) == 0 then cac + 1 else cac)
            && (t < wait + cac ==> Waiting(half, r, Plus(half, now, t)))
            && (wait + cac + 2 <= t < half ==> !Waiting(half, r, Plus(half, now, t)))
            && (wait + 1 < t < wait + cac ==> UnderCac(half, r, Plus(half, now, t)))
            && (t < wait ==> !UnderCac(half, r, Plus(half, now, t)))
  {
  }

  // ------------------------------------------------------------ the steps

  predicate NeedsCac(s: Radar, far: bool) { s.detected || s.ch == 0 || far }

  function Decided(half: nat, s: Radar, d: Decision): Radar {
    match d
    case Enable(ch, bypass, far, now, wait, cac) =>
      var c := if bypass then s.(cacStart := 0, cacEnd := 0)
               else if NeedsCac(s, far) then ResetCac(half, s, now, wait, cac)
               else s;
      c.(byOthers := false, ch := ch, detected := false, enabled := true, armed := s.armed || !s.enabled)
    case Disable(ch, byOthers) =>
      var c := if s.enabled then
                 s.(enabled := false, detected := false, ch := 0, cacStart := 0, cacEnd := 0, armed := false)
               else s;
      c.(byOthers := byOthers, ch := if byOthers then ch else c.ch)
  }

  function AllDecided(half: nat, s: Radar, ds: seq<Decision>): Radar {
    if ds == [] then s else Decided(half, AllDecided(half, s, ds[..|ds| - 1]), ds[|ds| - 1])
  }

  function Polled(half: nat, s: Radar, f: Finding): Radar {
    if !s.enabled then s
    else
      match f
      case Found(ds) =>
        var r := AllDecided(half, s.(detected := true), ds);
        r.(armed := r.armed || r.enabled)
      case Quiet(now, force) =>
        var over := s.cacEnd != 0 && ((UnderCac(half, s, now) && force) || !Waiting(half, s, now));
        (if over then s.(cacStart := 0, cacEnd := 0) else s).(armed := true)
  }

  /** The timer must be armed to fire, and a poll queued to run. */
  predicate Possible(s: Radar, e: Event) {
    match e
    case Decide(_) => true
    case Fire(_) => s.armed
    case Poll(_) => s.polls > 0
    case Lose => s.polls > 0
  }

  function Next(half: nat, s: Radar, e: Event): Radar
    requires Possible(s, e)
  {
    match e
    case Decide(d) => Decided(half, s, d)
    case Fire(queued) => s.(armed := false, polls := s.polls + if queued then 1 else 0)
    case Poll(f) => Polled(half, s.(polls := s.polls - 1), f)
    case Lose => s.(polls := s.polls - 1)
  }

  predicate IsRun(half: nat, s: Radar, es: seq<Event>)
    decreases |es|, 0
  {
    es == [] || (IsRun(half, s, es[..|es| - 1]) && Possible(State(half, s, es[..|es| - 1]), es[|es| - 1]))
  }

  function State(half: nat, s: Radar, es: seq<Event>): Radar
    requires IsRun(half, s, es)
    decreases |es|, 1
  {
    if es == [] then s else Next(half, State(half, s, es[..|es| - 1]), es[|es| - 1])
  }

  // ------------------------------------------------------------ what the steps amount to

  /** Enabling starts a check, which then lasts its time, exactly if it is not bypassed and radar was pending,
      no channel was on record, or the range is new. A bypass stops a check; otherwise one goes on as it was. */
  lemma EnableStartsCacIff(half: nat, s: Radar, d: Decision, t: nat)
    requires d.Enable? && d.now < 2 * half && d.wait + d.cac + 2 <= half && half >= 2
    ensures var r := Decided(half, s, d);
            && (!d.bypass && (s.detected || s.ch == 0 || d.far) ==>
                  && (t < d.wait + d.cac ==> Waiting(half, r, Plus(half, d.now, t)))
                  && (d.wait + 1 < t < d.wait + d.cac ==> UnderCac(half, r, Plus(half, d.now, t)))
                  && (d.wait + d.cac + 2 <= t < half ==> !Waiting(half, r, Plus(half, d.now, t))))
            && (!d.bypass && !s.detected && s.ch != 0 && !d.far ==> r.cacStart == s.cacStart && r.cacEnd == s.cacEnd)
            && (d.bypass ==> !Waiting(half, r, t) && r.cacStart == 0 && r.cacEnd == 0)
            && r.enabled && !r.byOthers && !r.detected && r.ch == d.ch && r.polls == s.polls
            && (r.armed <==> s.armed || !s.enabled)
  {
    CacLasts(half, s, d.now, d.wait, d.cac, t);
  }

  /** Disabling leaves nothing running; the channel on record is the one the others have, none if detection was
      on, and else the one it was. */
  lemma DisableStopsAll(half: nat, s: Radar, d: Decision)
    requires d.Disable? && Consistent(s)
    ensures var r := Decided(half, s, d);
            && !r.enabled && !r.armed && !r.detected && r.cacStart == 0 && r.cacEnd == 0 && r.polls == s.polls
            && r.byOthers == d.byOthers
            && r.ch == if d.byOthers then d.ch else if s.enabled then 0 else s.ch
  {
  }

  /** Radar found by a poll: the check is done again on whatever channel comes next, unless bypassed; with no
      decision yet, radar stays pending and polling goes on. */
  lemma RadarRestartsCac(half: nat, s: Radar, d: Decision, t: nat)
    requires s.enabled && d.Enable? && !d.bypass && d.now < 2 * half && d.wait + d.cac + 2 <= half && half >= 2
    ensures Polled(half, s, Found([])) == s.(detected := true, armed := true)
    ensures var r := Polled(half, s, Found([d]));
            && r.enabled && r.armed && !r.detected && r.ch == d.ch
            && (t < d.wait + d.cac ==> Waiting(half, r, Plus(half, d.now, t)))
  {
    assert [d][..0] == [];
    assert AllDecided(half, s.(detected := true), []) == s.(detected := true);
    assert AllDecided(half, s.(detected := true), [d]) == Decided(half, s.(detected := true), d);
    EnableStartsCacIff(half, s.(detected := true), d, t);
  }

  /** Any number of polls. */
  function PolledAll(half: nat, s: Radar, fs: seq<Finding>): Radar {
    if fs == [] then s else Polled(half, PolledAll(half, s, fs[..|fs| - 1]), fs[|fs| - 1])
  }

  /** A poll before the end of the check, and not one that is told to stop it once it has begun. */
  predicate Leaves(half: nat, s: Radar, f: Finding)
    requires f.Quiet?
  {
    Waiting(half, s, f.now) && !(f.force && After(half, f.now, s.cacStart))
  }

  /** Polls that find nothing leave the check as it is until the first one past its end, or the first that is
      told to stop it inside; then it is stopped, and they change nothing else but the timer. */
  lemma {:induction false} CheckEndsAtFirstPoll(half: nat, s: Radar, fs: seq<Finding>)
    requires s.enabled && s.cacEnd != 0 && forall i | 0 <= i < |fs| :: fs[i].Quiet?
    ensures var r := PolledAll(half, s, fs);
            && (r.cacEnd != 0 <==> forall i | 0 <= i < |fs| :: Leaves(half, s, fs[i]))
            && (r.cacEnd != 0 ==> r.cacStart == s.cacStart && r.cacEnd == s.cacEnd)
            && (r.cacEnd == 0 ==> r.cacStart == 0)
            && r == s.(cacStart := r.cacStart, cacEnd := r.cacEnd, armed := s.armed || fs != [])
  {
    if fs != [] {
      var n := |fs| - 1;
      var prev := fs[..n];
      assert forall i | 0 <= i < n :: prev[i] == fs[i];
      CheckEndsAtFirstPoll(half, s, prev);
    }
  }

  // ------------------------------------------------------------ what every run keeps

  /** Enabled detection is never left without a poll to come. */
  predicate Alive(s: Radar) { s.enabled ==> s.armed || s.polls > 0 }

  /** Enabled excludes supervision by others; disabled means no timer, no CAC and no radar pending. */
  predicate Consistent(s: Radar) {
    && (s.enabled ==> !s.byOthers)
    && (!s.enabled ==> !s.armed && s.cacEnd == 0 && s.cacStart == 0 && !s.detected)
    && (s.cacEnd == 0 <==> s.cacStart == 0)
  }

  lemma ResetIsConsistent(half: nat, s: Radar, now: nat, wait: nat, cac: nat)
    ensures var r := ResetCac(half, s, now, wait, cac); r.cacStart != 0 && r.cacEnd != 0
  {
  }

  lemma DecisionKeeps(half: nat, s: Radar, d: Decision)
    requires Consistent(s)
    ensures Consistent(Decided(half, s, d))
    ensures Decided(half, s, d).polls == s.polls
    ensures Decided(half, s, d).enabled && !Decided(half, s, d).armed ==> s.enabled && !s.armed
  {
    if d.Enable? {
      ResetIsConsistent(half, s, d.now, d.wait, d.cac);
    }
  }

  lemma {:induction false} DecisionsKeep(half: nat, s: Radar, ds: seq<Decision>)
    requires Consistent(s)
    ensures Consistent(AllDecided(half, s, ds))
    ensures AllDecided(half, s, ds).polls == s.polls
  {
    if ds != [] {
      DecisionsKeep(half, s, ds[..|ds| - 1]);
      DecisionKeeps(half, AllDecided(half, s, ds[..|ds| - 1]), ds[|ds| - 1]);
    }
  }

  /** The steps that lose the poll while detection is on: the timer fires, the command cannot be queued
      and no other poll waits; or the last poll waiting is dropped with no timer armed. */
  predicate Fatal(s: Radar, e: Event) {
    && s.enabled
    && ((e == Fire(false) && s.polls == 0) || (e == Lose && s.polls == 1 && !s.armed))
  }

  lemma StepKeeps(half: nat, s: Radar, e: Event)
    requires Consistent(s) && Possible(s, e)
    ensures Consistent(Next(half, s, e))
    ensures Alive(s) ==> (Alive(Next(half, s, e)) <==> !Fatal(s, e))
  {
    match e {
      case Decide(d) => DecisionKeeps(half, s, d);
      case Fire(_) =>
      case Lose =>
      case Poll(f) =>
        if f.Found? && s.enabled {
          DecisionsKeep(half, s.(polls := s.polls - 1, detected := true), f.then_);
        }
    }
  }

  lemma {:induction false} RunIsConsistent(half: nat, es: seq<Event>)
    requires IsRun(half, INITIAL, es)
    ensures Consistent(State(half, INITIAL, es))
  {
    if es != [] {
      RunIsConsistent(half, es[..|es| - 1]);
      StepKeeps(half, State(half, INITIAL, es[..|es| - 1]), es[|es| - 1]);
    }
  }

  ghost predicate NoFatalStep(half: nat, es: seq<Event>)
    requires IsRun(half, INITIAL, es)
  {
    forall n | 0 <= n < |es| && IsRun(half, INITIAL, es[..n]) :: !Fatal(State(half, INITIAL, es[..n]), es[n])
  }

  ghost predicate AliveThroughout(half: nat, es: seq<Event>)
    requires IsRun(half, INITIAL, es)
  {
    forall n | 0 <= n <= |es| && IsRun(half, INITIAL, es[..n]) :: Alive(State(half, INITIAL, es[..n]))
  }

  lemma {:induction false} PrefixIsRun(half: nat, s: Radar, es: seq<Event>, n: nat)
    requires IsRun(half, s, es) && n <= |es|
    ensures IsRun(half, s, es[..n])
  {
    if n < |es| {
      PrefixIsRun(half, s, es[..|es| - 1], n);
      assert es[..|es| - 1][..n] == es[..n];
    } else {
      assert es[..n] == es;
    }
  }

  lemma StateStep(half: nat, es: seq<Event>, n: nat)
    requires IsRun(half, INITIAL, es) && n < |es|
    ensures IsRun(half, INITIAL, es[..n]) && IsRun(half, INITIAL, es[..n + 1])
    ensures Possible(State(half, INITIAL, es[..n]), es[n])
    ensures State(half, INITIAL, es[..n + 1]) == Next(half, State(half, INITIAL, es[..n]), es[n])
  {
    PrefixIsRun(half, INITIAL, es, n + 1);
    assert es[..n + 1][..n] == es[..n];
  }

  lemma {:induction false} AliveUpTo(half: nat, es: seq<Event>, n: nat)
    requires IsRun(half, INITIAL, es) && NoFatalStep(half, es) && n <= |es|
    ensures IsRun(half, INITIAL, es[..n]) && Alive(State(half, INITIAL, es[..n]))
  {
    if n > 0 {
      AliveUpTo(half, es, n - 1);
      StateStep(half, es, n - 1);
      RunIsConsistent(half, es[..n - 1]);
      StepKeeps(half, State(half, INITIAL, es[..n - 1]), es[n - 1]);
    }
  }

  /** Radar polling survives a run if and only if no step of it is fatal. */
  lemma PollingNeverDiesIff(half: nat, es: seq<Event>)
    requires IsRun(half, INITIAL, es)
    ensures AliveThroughout(half, es) <==> NoFatalStep(half, es)
  {
    if NoFatalStep(half, es) {
      forall n | 0 <= n <= |es|
        ensures IsRun(half, INITIAL, es[..n]) ==> Alive(State(half, INITIAL, es[..n]))
      {
        AliveUpTo(half, es, n);
      }
    }
    if AliveThroughout(half, es) {
      forall n | 0 <= n < |es|
        ensures IsRun(half, INITIAL, es[..n]) ==> !Fatal(State(half, INITIAL, es[..n]), es[n])
      {
        StateStep(half, es, n);
        RunIsConsistent(half, es[..n]);
        StepKeeps(half, State(half, INITIAL, es[..n]), es[n]);
      }
    }
  }

  /** A run that ends with detection on and no poll to come: one queued poll is dropped. */
  lemma DroppedPollIsFatal(half: nat, d: Decision)
    requires d.Enable?
    ensures var es := [Decide(d), Fire(true), Lose];
            && IsRun(half, INITIAL, es)
            && State(half, INITIAL, es).enabled
            && !Alive(State(half, INITIAL, es))
  {
    var es := [Decide(d), Fire(true), Lose];
    assert es[..2] == [Decide(d), Fire(true)];
    assert es[..2][..1] == [Decide(d)];
    assert [Decide(d)][..0] == [];
    assert IsRun(half, INITIAL, []);
    assert IsRun(half, INITIAL, [Decide(d)]);
    assert State(half, INITIAL, [Decide(d)]) == Decided(half, INITIAL, d);
    assert IsRun(half, INITIAL, es[..2]);
  }

  /** A lost poll stays lost, however often detection is enabled, until it is disabled. */
  lemma {:induction false} LostUntilDisabled(half: nat, s: Radar, es: seq<Event>)
    requires s.enabled && !s.armed && s.polls == 0 && IsRun(half, s, es)
    requires forall i | 0 <= i < |es| :: !(es[i].Decide? && es[i].d.Disable?)
    ensures State(half, s, es).enabled && !State(half, s, es).armed && State(half, s, es).polls == 0
  {
    if es != [] {
      LostUntilDisabled(half, s, es[..|es| - 1]);
    }
  }

  /** Disabling takes the channel off the record only if detection was on: a channel recorded for
      others survives, and enabling on it later starts no check. */
  lemma StaleChannelSkipsCac(half: nat, ch: nat, now: nat, wait: nat, cac: nat)
    requires ch != 0
    ensures var es := [Decide(Disable(ch, true)), Decide(Disable(0, false)),
                       Decide(Enable(ch, false, false, now, wait, cac))];
            && IsRun(half, INITIAL, es)
            && State(half, INITIAL, es).enabled
            && State(half, INITIAL, es).cacEnd == 0
  {
    var a, b := Decide(Disable(ch, true)), Decide(Disable(0, false));
    var c := Decide(Enable(ch, false, false, now, wait, cac));
    assert [a, b, c][..2] == [a, b];
    assert [a, b][..1] == [a];
    assert [a][..0] == [];
    assert IsRun(half, INITIAL, []);
    assert IsRun(half, INITIAL, [a]);
    assert IsRun(half, INITIAL, [a, b]);
    assert State(half, INITIAL, [a]) == Decided(half, INITIAL, a.d);
    assert State(half, INITIAL, [a, b]) == Decided(half, Decided(half, INITIAL, a.d), b.d);
  }

  // ------------------------------------------------------------ the driver's fields

  class Rfctl {
    const half: nat
    var enabled: bool
    var byOthers: bool
    var detected: bool
    var ch: nat
    var cacStart: nat
    var cacEnd: nat
    var armed: bool
    var polls: nat

    function View(): Radar
      reads this
    {
      Radar(enabled, byOthers, detected, ch, cacStart, cacEnd, armed, polls)
    }

    constructor (half: nat)
      ensures View() == INITIAL && this.half == half
    {
      this.half := half;
      enabled, byOthers, detected := false, false, false;
      ch, cacStart, cacEnd := 0, 0, 0;
      armed, polls := false, 0;
    }

    method StartCac(now: nat, wait: nat, cac: nat)
      modifies this`cacStart, this`cacEnd
      ensures View() == ResetCac(half, old(View()), now, wait, cac)
    {
      cacStart := Plus(half, now, wait);
      cacEnd := Plus(half, cacStart, cac);
      if cacStart == 0 {
        cacStart := cacStart + 1;
        cacEnd := Plus(half, cacEnd, 1);
      }
      if cacEnd == 0 {
        cacEnd := cacEnd + 1;
      }
    }

    method RdEnable(d: Decision)
      requires d.Enable?
      modifies this
      ensures View() == Decided(half, old(View()), d)
    {
      if d.bypass {
        cacStart, cacEnd := 0, 0;
      } else if detected || ch == 0 || d.far {
        StartCac(d.now, d.wait, d.cac);
      }
      byOthers := false;
      ch := d.ch;
      detected := false;
      if !enabled {
        enabled := true;
        armed := true;
      }
    }

    method RdDisable(d: Decision)
      requires d.Disable?
      modifies this
      ensures View() == Decided(half, old(View()), d)
    {
      byOthers := d.byOthers;
      if enabled {
        enabled := false;
        detected := false;
        ch := 0;
        cacStart, cacEnd := 0, 0;
        armed := false;
      }
      if d.byOthers {
        ch := d.ch;
      }
    }

    method DecideAll(ds: seq<Decision>)
      modifies this
      ensures View() == AllDecided(half, old(View()), ds)
    {
      for i := 0 to |ds|
        invariant View() == AllDecided(half, old(View()), ds[..i])
      {
        assert ds[..i + 1][..i] == ds[..i];
        if ds[i].Enable? {
          RdEnable(ds[i]);
        } else {
          RdDisable(ds[i]);
        }
      }
      assert ds[..|ds|] == ds;
    }

    /** The timer handler queues a poll, if it can. */
    method TimerHandler(queued: bool)
      requires armed
      modifies this
      ensures View() == Next(half, old(View()), Fire(queued))
    {
      armed := false;
      if queued {
        polls := polls + 1;
      }
    }

    /** The dispatcher drops a poll: the object is freed, and nothing sets the timer. */
    method DropPoll()
      requires polls > 0
      modifies this`polls
      ensures View() == Next(half, old(View()), Lose)
    {
      polls := polls - 1;
    }

    /** The poll command. */
    method RdHandler(f: Finding)
      requires polls > 0
      modifies this
      ensures View() == Next(half, old(View()), Poll(f))
    {
      polls := polls - 1;
      if !enabled {
        return;
      }
      match f {
        case Found(ds) =>
          detected := true;
          DecideAll(ds);
          if enabled {
            armed := true;
          }
        case Quiet(now, force) =>
          if cacEnd != 0 && ((UnderCac(half, View(), now) && force) || !Waiting(half, View(), now)) {
            cacStart, cacEnd := 0, 0;
          }
          armed := true;
      }
    }
  }
}
