/** What each event does to the timer, said by flags, positions, crossings and recorded laps. */
module LapLaws {
  import opened Bytes
  import opened Reals
  import opened FinishLine
  import opened LapTimer

  // --- positions ---

  /** A competition is on and the clock has been read, the last crossing is not too recent, and the
      position is closer to the finish line than the tolerance. */
  ghost predicate Counts(cfg: Config, s: Timer, x: real, y: real) {
    s.active && s.now.Some? &&
    (s.lastCrossing.None? || s.now.value - s.lastCrossing.value >= cfg.minInterval) &&
    Reaches(cfg.line, Point(x, y))
  }

  lemma {:induction false} CrossesIff(cfg: Config, s: Timer, x: real, y: real)
    ensures s.active && s.now.Some? && Crosses(cfg, s, x, y) <==> Counts(cfg, s, x, y)
  {
    NearIff(cfg.line, Point(x, y));
  }

  lemma {:induction false} CrossChanges(cfg: Config, s: Timer)
    requires s.now.Some? && !s.raised
    ensures Cross(cfg, s) != s
  {
  }

  /** A position changes the timer exactly when it counts as a crossing. */
  lemma {:induction false} GpsChangesIff(cfg: Config, s: Timer, x: real, y: real)
    requires !s.raised
    ensures Step(cfg, s, Gps(x, y)) != s <==> Counts(cfg, s, x, y)
  {
    CrossesIff(cfg, s, x, y);
    if Counts(cfg, s, x, y) {
      CrossChanges(cfg, s);
    }
  }

  /** What reaching a number of recorded laps does to the end time and the flags. */
  function AtTarget(cfg: Config, s: Timer, now: real): Timer {
    if |s.laps| >= cfg.targetLaps then s.(end := Some(now), param := Black, flag := Black) else s
  }

  /** A position that counts, in any run: the first one only starts the timing; without a start time the
      next one raises; otherwise it records one lap, such that all laps add up to the time since the
      start, and recording the target number of laps sets the end time and the black flag. */
  lemma {:induction false} CrossingLaw(cfg: Config, s: Timer, x: real, y: real)
    requires !s.raised && Telescopes(cfg, s) && Counts(cfg, s, x, y)
    ensures var t, now := Step(cfg, s, Gps(x, y)), s.now.value;
            if s.lastCrossing.None? then t == s.(currentLap := 1, lastCrossing := Some(now))
            else if s.start.None? then t == s.(raised := true)
            else |t.laps| == |s.laps| + 1 && s.laps <= t.laps && Sum(t.laps) == now - s.start.value &&
                 t == AtTarget(cfg, s.(laps := t.laps, currentLap := |t.laps| + 1, lastCrossing := Some(now)), now)
  {
    CrossesIff(cfg, s, x, y);
    CrossLaw(cfg, s);
  }

  lemma {:induction false} CrossLaw(cfg: Config, s: Timer)
    requires !s.raised && Telescopes(cfg, s) && s.now.Some?
    ensures var t, now := Cross(cfg, s), s.now.value;
            if s.lastCrossing.None? then t == s.(currentLap := 1, lastCrossing := Some(now))
            else if s.start.None? then t == s.(raised := true)
            else |t.laps| == |s.laps| + 1 && s.laps <= t.laps && Sum(t.laps) == now - s.start.value &&
                 t == AtTarget(cfg, s.(laps := t.laps, currentLap := |t.laps| + 1, lastCrossing := Some(now)), now)
  {
    CrossTelescopes(cfg, s);
  }

  /** Over all runs: a position that completes the target number of laps sets the flag and its parameter
      to black, and the next tick ends the race with one save of those laps, whose total is their sum. */
  lemma {:induction false} TargetEndsRace(cfg: Config, param: Flag, events: seq<Event>, x: real, y: real)
    ensures var s, t := Run(cfg, param, events), Run(cfg, param, events + [Gps(x, y)]);
            var u := Run(cfg, param, events + [Gps(x, y)] + [FlagTick]);
            |t.laps| > |s.laps| && |t.laps| >= cfg.targetLaps ==>
              t.param == Black && t.flag == Black && t.active && !u.active && !u.raised && s.start.Some? &&
              t.end == s.now && s.now.Some? && Sum(t.laps) == s.now.value - s.start.value &&
              u == t.(active := false, saves := s.saves + [SaveCall(s.start, s.now, t.laps)])
  {
    var s, t := Run(cfg, param, events), Run(cfg, param, events + [Gps(x, y)]);
    RunNext(cfg, param, events, Gps(x, y));
    RunNext(cfg, param, events + [Gps(x, y)], FlagTick);
    LapsTelescope(cfg, param, events);
    if t != s && !s.raised {
      GpsChangesIff(cfg, s, x, y);
      CrossingLaw(cfg, s, x, y);
    }
  }

  /** And no other position changes the flag or its parameter. */
  lemma {:induction false} OnlyTargetSetsFlag(cfg: Config, param: Flag, events: seq<Event>, x: real, y: real)
    ensures var s, t := Run(cfg, param, events), Run(cfg, param, events + [Gps(x, y)]);
            !(|t.laps| > |s.laps| && |t.laps| >= cfg.targetLaps) ==>
              t.param == s.param && t.flag == s.flag && t.end == s.end
  {
    var s, t := Run(cfg, param, events), Run(cfg, param, events + [Gps(x, y)]);
    RunNext(cfg, param, events, Gps(x, y));
    LapsTelescope(cfg, param, events);
    if t != s && !s.raised {
      GpsChangesIff(cfg, s, x, y);
      CrossingLaw(cfg, s, x, y);
    }
  }

  lemma {:induction false} RunNext(cfg: Config, param: Flag, events: seq<Event>, e: Event)
    ensures Run(cfg, param, events + [e]) == Step(cfg, Run(cfg, param, events), e)
  {
    assert (events + [e])[..|events|] == events;
  }

  // --- flags ---

  /** A tick while no competition is on: exactly the green and speed-limit flags start one, from the time
      of the clock and with nothing recorded; red and black are only published. */
  lemma {:induction false} StartLaw(cfg: Config, s: Timer)
    requires !s.raised && !s.active
    ensures var t := Step(cfg, s, FlagTick);
            (t.active <==> s.param in {Green, G10, G20, G40, G60, G80, G100}) &&
            (s.param in {Red, Black} ==> t == s.(flag := s.param)) &&
            (t.active ==> t == s.(flag := s.param, active := true, start := s.now, lastCrossing := None,
                               laps := [], currentLap := 0))
  {
  }

  /** A tick during a competition: any flag but black is only published. Black ends the competition, and
      saves if and only if the finish line was crossed more often than there are laps to do. */
  lemma {:induction false} EndLaw(cfg: Config, s: Timer)
    requires !s.raised && s.active && Telescopes(cfg, s)
    ensures var t := Step(cfg, s, FlagTick);
            var crossings := if s.lastCrossing.None? then 0 else |s.laps| + 1;
            var call := SaveCall(s.start, s.end, s.laps);
            if s.param in {Green, Red, G10, G20, G40, G60, G80, G100} then t == s.(flag := s.param)
            else if crossings <= cfg.targetLaps then t == s.(flag := Black, active := false)
            else t == s.(flag := Black, active := false, saves := s.saves + [call],
                      raised := s.start.Some? && s.start.value != 0.0 && s.end.None?)
  {
  }

  /** The flag parameter and the clock are stored; after an exception nothing happens any more. */
  lemma {:induction false} StoreLaw(cfg: Config, s: Timer, e: Event)
    ensures s.raised ==> Step(cfg, s, e) == s
    ensures !s.raised && e.SetParam? ==> Step(cfg, s, e) == s.(param := e.flag)
    ensures !s.raised && e.Clock? ==> Step(cfg, s, e) == s.(now := Some(e.time))
  {
  }

  /** Before any event nothing is recorded; the first tick publishes the parameter, saves nothing, and
      starts a competition under the same flags. */
  lemma {:induction false} FirstTick(cfg: Config, param: Flag)
    ensures var s := Run(cfg, param, []);
            s.flag == s.param == param && !s.active && !s.raised && s.now.None? && s.start.None? && s.end.None? &&
            s.lastCrossing.None? && s.laps == [] && s.saves == []
    ensures var t := Run(cfg, param, [FlagTick]);
            t.flag == t.param == param && t.saves == [] && t.laps == [] && t.end.None? && !t.raised &&
            (t.active <==> param in {Green, G10, G20, G40, G60, G80, G100})
  {
    RunNext(cfg, param, [], FlagTick);
    assert [] + [FlagTick] == [FlagTick];
    StartLaw(cfg, Run(cfg, param, []));
  }

  // --- saves ---

  /** A whole race: the target was reached, and the total is the sum of the laps. */
  predicate Complete(cfg: Config, c: SaveCall) {
    |c.laps| >= cfg.targetLaps && c.start.Some? && c.end.Some? && c.end.value - c.start.value == Sum(c.laps)
  }

  /** With a target of at least one lap, only whole races are ever saved. */
  lemma {:induction false} SavesAreComplete(cfg: Config, param: Flag, events: seq<Event>)
    requires cfg.targetLaps >= 1
    ensures forall i :: 0 <= i < |Run(cfg, param, events).saves| ==> Complete(cfg, Run(cfg, param, events).saves[i])
  {
    if events != [] {
      var init, e := events[..|events| - 1], events[|events| - 1];
      var s := Run(cfg, param, init);
      SavesAreComplete(cfg, param, init);
      LapsTelescope(cfg, param, init);
      SaveStep(cfg, s, e);
    }
  }

  lemma {:induction false} SaveStep(cfg: Config, s: Timer, e: Event)
    requires cfg.targetLaps >= 1 && Telescopes(cfg, s)
    ensures var t := Step(cfg, s, e);
            t.saves == s.saves ||
            (t.saves == s.saves + [SaveCall(s.start, s.end, s.laps)] && Complete(cfg, SaveCall(s.start, s.end, s.laps)))
  {
    if !s.raised && e.FlagTick? && s.active {
      EndLaw(cfg, s);
    }
  }
}
