/** Which runs of the competition timer can end in an exception. */
module LapExceptions {
  import opened Bytes
  import opened Reals
  import opened FinishLine
  import opened LapTimer

  /** Some position is near the finish line. */
  predicate Crossable(line: Line) {
    line.a != line.b && line.tolerance > 0.0
  }

  lemma {:induction false} CrossableIff(line: Line)
    ensures Crossable(line) <==> exists p :: Near(line, p)
  {
    if Crossable(line) {
      NearEnd(line);
    }
    forall p
      ensures Near(line, p) ==> Crossable(line)
    {
      NearNeedsCrossable(line, p);
    }
  }

  lemma {:induction false} NearEnd(line: Line)
    requires Crossable(line)
    ensures Near(line, line.a)
  {
    AtStart(line);
    SameSigns(line.tolerance, line.tolerance);
    ReachesAt(line, line.a, 0.0);
    NearIff(line, line.a);
  }

  lemma {:induction false} AtStart(line: Line)
    ensures SquareAt(line, line.a, 0.0) == 0.0
  {
    SameSigns(0.0, 0.0);
    assert line.a.x - (line.a.x + 0.0 * (line.b.x - line.a.x)) == 0.0;
    assert line.a.y - (line.a.y + 0.0 * (line.b.y - line.a.y)) == 0.0;
  }

  lemma {:induction false} ReachesAt(line: Line, p: Point, u: real)
    requires Crossable(line) && 0.0 <= u <= 1.0 && SquareAt(line, p, u) < Times(line.tolerance, line.tolerance)
    ensures Reaches(line, p)
  {
  }

  // --- runs in parts ---

  lemma {:induction false} RunInParts(cfg: Config, param: Flag, before: seq<Event>, events: seq<Event>)
    ensures Run(cfg, param, before + events) == RunFrom(cfg, Run(cfg, param, before), events)
    decreases |events|
  {
    if events == [] {
      assert before + events == before;
    } else {
      var next := before + [events[0]];
      assert next[..|before|] == before;
      assert next + events[1..] == before + events;
      RunInParts(cfg, param, next, events[1..]);
    }
  }

  lemma {:induction false} RunFromTwo(cfg: Config, s: Timer, a: Event, b: Event, rest: seq<Event>)
    ensures RunFrom(cfg, s, [a, b] + rest) == RunFrom(cfg, Step(cfg, Step(cfg, s, a), b), rest)
  {
    var all := [a, b] + rest;
    assert all[1..] == [b] + rest && all[1..][1..] == rest;
    assert RunFrom(cfg, Step(cfg, s, a), all[1..]) == RunFrom(cfg, Step(cfg, Step(cfg, s, a), b), all[1..][1..]);
  }

  lemma {:induction false} RunFromParts(cfg: Config, s: Timer, es: seq<Event>, fs: seq<Event>)
    ensures RunFrom(cfg, s, es + fs) == RunFrom(cfg, RunFrom(cfg, s, es), fs)
    decreases |es|
  {
    if es == [] {
      assert es + fs == fs;
    } else {
      assert (es + fs)[0] == es[0] && (es + fs)[1..] == es[1..] + fs;
      RunFromParts(cfg, Step(cfg, s, es[0]), es[1..], fs);
    }
  }

  // --- no exception ---

  /** No crossing can meet a missing start time. */
  predicate Safe(cfg: Config, s: Timer) {
    !Crossable(cfg.line) || (s.now.Some? && (s.active ==> s.start.Some?))
  }

  lemma {:induction false} SafeStep(cfg: Config, s: Timer, e: Event)
    requires cfg.targetLaps >= 1 && Telescopes(cfg, s) && !s.raised && Safe(cfg, s)
    ensures !Step(cfg, s, e).raised && Safe(cfg, Step(cfg, s, e))
  {
    if e.Gps? {
      NearNeedsCrossable(cfg.line, Point(e.x, e.y));
    }
  }

  lemma {:induction false} NearNeedsCrossable(line: Line, p: Point)
    ensures Near(line, p) ==> Crossable(line)
  {
    NearIff(line, p);
  }

  lemma {:induction false} SafeRun(cfg: Config, s: Timer, events: seq<Event>)
    requires cfg.targetLaps >= 1 && Telescopes(cfg, s) && !s.raised && Safe(cfg, s)
    ensures !RunFrom(cfg, s, events).raised
    decreases |events|
  {
    if events != [] {
      SafeStep(cfg, s, events[0]);
      StepTelescopes(cfg, s, events[0]);
      SafeRun(cfg, Step(cfg, s, events[0]), events[1..]);
    }
  }

  /** With a target of at least one lap, a competition after the first clock reading has a start time
      and no run raises. */
  lemma {:induction false} NoExceptionWithClock(cfg: Config, s: Timer, events: seq<Event>)
    requires cfg.targetLaps >= 1 && Telescopes(cfg, s) && !s.raised && s.now.Some? && (s.active ==> s.start.Some?)
    ensures var t := RunFrom(cfg, s, events);
            !t.raised && t.now.Some? && (t.active ==> t.start.Some?)
    decreases |events|
  {
    if events != [] {
      SafeStep(cfg, s, events[0]);
      StepTelescopes(cfg, s, events[0]);
      NoExceptionWithClock(cfg, Step(cfg, s, events[0]), events[1..]);
    }
  }

  /** Without a crossing there is no lap, and without a lap nothing is saved. */
  lemma {:induction false} NeverCrossed(cfg: Config, param: Flag, events: seq<Event>)
    requires cfg.targetLaps >= 0 && !Crossable(cfg.line)
    ensures var s := Run(cfg, param, events); !s.raised && s.currentLap == 0
  {
    if events != [] {
      NeverCrossed(cfg, param, events[..|events| - 1]);
      var e := events[|events| - 1];
      if e.Gps? {
        NearNeedsCrossable(cfg.line, Point(e.x, e.y));
      }
    }
  }

  // --- exceptions ---

  lemma {:induction false} TimesNeedClock(cfg: Config, param: Flag, events: seq<Event>)
    ensures var s := Run(cfg, param, events); s.now.None? ==> s.start.None? && s.lastCrossing.None?
  {
    if events != [] {
      TimesNeedClock(cfg, param, events[..|events| - 1]);
    }
  }

  /** A clock reading late enough, and a position on the finish line. */
  lemma {:induction false} CrossAt(cfg: Config, s: Timer, t: real)
    requires !s.raised && s.active && Crossable(cfg.line)
    requires s.lastCrossing.Some? ==> t - s.lastCrossing.value >= cfg.minInterval
    ensures Step(cfg, Step(cfg, s, Clock(t)), Gps(cfg.line.a.x, cfg.line.a.y)) == Cross(cfg, s.(now := Some(t)))
  {
    var read := Step(cfg, s, Clock(t));
    assert read == s.(now := Some(t));
    CrossHere(cfg, read, cfg.line.a);
  }

  lemma {:induction false} CrossHere(cfg: Config, s: Timer, p: Point)
    requires !s.raised && s.active && s.now.Some? && Crossable(cfg.line) && p == cfg.line.a
    requires s.lastCrossing.Some? ==> s.now.value - s.lastCrossing.value >= cfg.minInterval
    ensures Step(cfg, s, Gps(p.x, p.y)) == Cross(cfg, s)
  {
    NearEnd(cfg.line);
    GpsNear(cfg, s, p);
  }

  lemma {:induction false} GpsNear(cfg: Config, s: Timer, p: Point)
    requires !s.raised && s.active && s.now.Some? && Near(cfg.line, p)
    requires s.lastCrossing.Some? ==> s.now.value - s.lastCrossing.value >= cfg.minInterval
    ensures Step(cfg, s, Gps(p.x, p.y)) == Cross(cfg, s)
  {
    assert Point(p.x, p.y) == p;
  }

  /** When a competition started without a clock reading, its second crossing raises. */
  lemma {:induction false} SecondCrossRaises(cfg: Config, s: Timer, t: real, u: real)
    requires Telescopes(cfg, s) && !s.raised && s.start.None?
    ensures var once := Cross(cfg, s.(now := Some(t)));
            once.raised || (once.(raised := false) == once && once.active == s.active && once.lastCrossing == Some(t) &&
                            Cross(cfg, once.(now := Some(u))).raised)
  {
  }

  function TwoCrossings(p: Point, t: real, u: real): seq<Event> {
    [Clock(t), Gps(p.x, p.y), Clock(u), Gps(p.x, p.y)]
  }

  lemma {:induction false} RaisesAfterTwo(cfg: Config, s: Timer, t: real, u: real)
    requires Crossable(cfg.line) && Telescopes(cfg, s) && !s.raised && s.active && s.start.None?
    requires s.lastCrossing.Some? ==> t - s.lastCrossing.value >= cfg.minInterval
    requires u - t >= cfg.minInterval
    ensures RunFrom(cfg, s, TwoCrossings(cfg.line.a, t, u)).raised
  {
    var p := cfg.line.a;
    var once := Cross(cfg, s.(now := Some(t)));
    SecondCrossRaises(cfg, s, t, u);
    CrossAt(cfg, s, t);
    var more := [Clock(u), Gps(p.x, p.y)];
    assert TwoCrossings(p, t, u) == [Clock(t), Gps(p.x, p.y)] + more;
    RunFromTwo(cfg, s, Clock(t), Gps(p.x, p.y), more);
    if once.raised {
      RaisedStays(cfg, once, more);
    } else {
      CrossAt(cfg, once, u);
      assert more == more + [];
      RunFromTwo(cfg, once, Clock(u), Gps(p.x, p.y), []);
    }
  }

  function LateEnough(last: Option<real>, interval: real): (t: real)
    ensures last.Some? ==> t - last.value >= interval
  {
    if last.Some? then last.value + interval else 0.0
  }

  lemma {:induction false} RaisesWithoutStart(cfg: Config, s: Timer) returns (events: seq<Event>)
    requires Crossable(cfg.line) && Telescopes(cfg, s) && !s.raised && s.active && s.start.None?
    ensures RunFrom(cfg, s, events).raised
  {
    var t := LateEnough(s.lastCrossing, cfg.minInterval);
    var u := LateEnough(Some(t), cfg.minInterval);
    RaisesAfterTwo(cfg, s, t, u);
    events := TwoCrossings(cfg.line.a, t, u);
  }

  lemma {:induction false} RaisedStays(cfg: Config, s: Timer, events: seq<Event>)
    requires s.raised
    ensures RunFrom(cfg, s, events).raised
    decreases |events|
  {
    if events != [] {
      RaisedStays(cfg, Step(cfg, s, events[0]), events[1..]);
    }
  }

  /** From a state that is not safe the green flag starts a competition without a start time, or
      continues one. */
  lemma {:induction false} StartsUnread(cfg: Config, s: Timer)
    requires Telescopes(cfg, s) && !s.raised && !Safe(cfg, s)
    requires s.now.None? ==> s.start.None? && s.lastCrossing.None?
    ensures var t := Step(cfg, Step(cfg, s, SetParam(Green)), FlagTick);
            Telescopes(cfg, t) && !t.raised && t.active && t.start.None?
  {
    var green := Step(cfg, s, SetParam(Green));
    StepTelescopes(cfg, s, SetParam(Green));
    StepTelescopes(cfg, green, FlagTick);
  }

  /** A state that is not safe has a continuation that raises. */
  lemma {:induction false} RaisesUnlessSafe(cfg: Config, s: Timer) returns (events: seq<Event>)
    requires Telescopes(cfg, s) && !s.raised && !Safe(cfg, s)
    requires s.now.None? ==> s.start.None? && s.lastCrossing.None?
    ensures RunFrom(cfg, s, events).raised
  {
    StartsUnread(cfg, s);
    var crossings := RaisesWithoutStart(cfg, Step(cfg, Step(cfg, s, SetParam(Green)), FlagTick));
    events := [SetParam(Green), FlagTick] + crossings;
    RunFromTwo(cfg, s, SetParam(Green), FlagTick, crossings);
  }

  lemma {:induction false} Started(cfg: Config, s: Timer, t: real)
    requires !s.raised && !s.active
    ensures RunFrom(cfg, s, [SetParam(Green), Clock(t), FlagTick])
         == s.(param := Green, flag := Green, active := true, start := Some(t), now := Some(t), lastCrossing := None,
            laps := [], currentLap := 0)
  {
    RunFromTwo(cfg, s, SetParam(Green), Clock(t), [FlagTick]);
    assert [FlagTick][1..] == [];
    assert [SetParam(Green), Clock(t)] + [FlagTick] == [SetParam(Green), Clock(t), FlagTick];
  }

  lemma {:induction false} BlackSaves(cfg: Config, s: Timer)
    requires !s.raised && s.active && s.currentLap > cfg.targetLaps
    requires s.start.Some? && s.start.value != 0.0 && s.end.None?
    ensures RunFrom(cfg, s, [SetParam(Black), FlagTick]).raised
  {
    RunFromTwo(cfg, s, SetParam(Black), FlagTick, []);
    assert [SetParam(Black), FlagTick] + [] == [SetParam(Black), FlagTick];
  }

  /** Without laps to reach, the black flag saves before there is an end time. */
  lemma {:induction false} RaisesWithoutTarget(cfg: Config, s: Timer) returns (events: seq<Event>)
    requires cfg.targetLaps < 0 || (cfg.targetLaps == 0 && Crossable(cfg.line))
    requires !s.raised && !s.active && s.end.None?
    ensures RunFrom(cfg, s, events).raised
  {
    var start, end := [SetParam(Green), Clock(1.0), FlagTick], [SetParam(Black), FlagTick];
    var started := RunFrom(cfg, s, start);
    Started(cfg, s, 1.0);
    if cfg.targetLaps < 0 {
      events := start + end;
      RunFromParts(cfg, s, start, end);
      BlackSaves(cfg, started);
    } else {
      var cross := [Clock(1.0), Gps(cfg.line.a.x, cfg.line.a.y)];
      CrossAt(cfg, started, 1.0);
      RunFromTwo(cfg, started, Clock(1.0), Gps(cfg.line.a.x, cfg.line.a.y), end);
      BlackSaves(cfg, Cross(cfg, started.(now := Some(1.0))));
      events := start + (cross + end);
      RunFromParts(cfg, s, start, cross + end);
    }
  }

  // --- main results ---

  /** After a first clock reading, no run raises if and only if the target is at least one lap, or no
      laps on a line that cannot be crossed. */
  lemma {:induction false} NoExceptionAfterClockIff(cfg: Config, param: Flag, time: real)
    ensures (forall events :: !Run(cfg, param, [Clock(time)] + events).raised) <==>
            cfg.targetLaps >= 1 || (cfg.targetLaps == 0 && !Crossable(cfg.line))
  {
    var s := Initial(param).(now := Some(time));
    assert [Clock(time)][..0] == [];
    assert Run(cfg, param, []) == Initial(param);
    assert Run(cfg, param, [Clock(time)]) == s;
    forall events | cfg.targetLaps >= 1 || (cfg.targetLaps == 0 && !Crossable(cfg.line))
      ensures !Run(cfg, param, [Clock(time)] + events).raised
    {
      if cfg.targetLaps >= 1 {
        RunInParts(cfg, param, [Clock(time)], events);
        NoExceptionWithClock(cfg, s, events);
      } else {
        NeverCrossed(cfg, param, [Clock(time)] + events);
      }
    }
    if cfg.targetLaps < 0 || (cfg.targetLaps == 0 && Crossable(cfg.line)) {
      var events := RaisesWithoutTarget(cfg, s);
      RunInParts(cfg, param, [Clock(time)], events);
    }
  }

  /** With a target of at least one lap, at every moment of every run: nothing that may follow raises if
      and only if the line cannot be crossed, or the clock has been read and the competition, if there
      is one, has a start time. */
  lemma {:induction false} NoExceptionFromHereIff(cfg: Config, param: Flag, before: seq<Event>)
    requires cfg.targetLaps >= 1 && !Run(cfg, param, before).raised
    ensures (forall events :: !Run(cfg, param, before + events).raised) <==> Safe(cfg, Run(cfg, param, before))
  {
    var s := Run(cfg, param, before);
    LapsTelescope(cfg, param, before);
    if Safe(cfg, s) {
      forall events
        ensures !Run(cfg, param, before + events).raised
      {
        RunInParts(cfg, param, before, events);
        SafeRun(cfg, s, events);
      }
    } else {
      TimesNeedClock(cfg, param, before);
      var events := RaisesUnlessSafe(cfg, s);
      RunInParts(cfg, param, before, events);
    }
  }

  /** So the timer is free of exceptions in all runs only if the line cannot be crossed: any other can
      be crossed twice by a competition that started before the first clock reading. */
  lemma {:induction false} NoExceptionIff(cfg: Config, param: Flag)
    ensures (forall events :: !Run(cfg, param, events).raised) <==> cfg.targetLaps >= 0 && !Crossable(cfg.line)
  {
    forall events | cfg.targetLaps >= 0 && !Crossable(cfg.line)
      ensures !Run(cfg, param, events).raised
    {
      NeverCrossed(cfg, param, events);
    }
    if cfg.targetLaps < 0 || Crossable(cfg.line) {
      var events;
      if cfg.targetLaps < 1 {
        events := RaisesWithoutTarget(cfg, Initial(param));
      } else {
        events := RaisesUnlessSafe(cfg, Initial(param));
      }
      assert [] + events == events;
      RunInParts(cfg, param, [], events);
    }
  }
}
