/** The competition timer: flags, clock and GPS positions drive the counting of laps. Times are
    positions on a real line; rounding is not modelled. */
module LapTimer {
  import opened Bytes
  import opened Reals
  import opened FinishLine

  datatype Flag = Green | Red | Black | G10 | G20 | G40 | G60 | G80 | G100

  /** The flags under which the competition runs. */
  predicate Racing(f: Flag) {
    f != Red && f != Black
  }

  datatype Config = Config(targetLaps: int, minInterval: real, line: Line)

  /** What `save_results` finds when it is called. */
  datatype SaveCall = SaveCall(start: Option<real>, end: Option<real>, laps: seq<real>)

  /** What comes of it: a start time that is missing or zero counts as "not started", a missing end
      time raises, and otherwise the total is logged and written if there are laps. */
  datatype SaveResult = NotStarted | Raises | NoLaps(total: real) | Written(total: real, report: Report)

  /** The file: a row for each lap, and a summary. */
  datatype Report = Report(laps: seq<real>, totalLaps: nat, totalTime: real, average: real, best: real)

  function ReportOf(laps: seq<real>): Report
    requires laps != []
  {
    Report(laps, |laps|, Sum(laps), Sum(laps) / |laps| as real, Best(laps))
  }

  function Sum(ts: seq<real>): real {
    if ts == [] then 0.0 else Sum(ts[..|ts| - 1]) + ts[|ts| - 1]
  }

  function Best(ts: seq<real>): real
    requires ts != []
  {
    var last := ts[|ts| - 1];
    if |ts| == 1 then last
    else
      var best := Best(ts[..|ts| - 1]);
      if last < best then last else best
  }

  function Saved(c: SaveCall): SaveResult {
    if c.start.None? || c.start.value == 0.0 then NotStarted
    else if c.end.None? then Raises
    else if c.laps == [] then NoLaps(c.end.value - c.start.value)
    else Written(c.end.value - c.start.value, ReportOf(c.laps))
  }

  /** `param` is the flag parameter, which the user can set; `flag` the flag last published;
      `raised` means an exception has ended the node. */
  datatype Timer = Timer(
    param: Flag, flag: Flag, active: bool,
    start: Option<real>, end: Option<real>, now: Option<real>, lastCrossing: Option<real>,
    laps: seq<real>, currentLap: nat, saves: seq<SaveCall>, raised: bool)

  function Initial(param: Flag): Timer {
    Timer(param, param, false, None, None, None, None, [], 0, [], false)
  }

  datatype Event = SetParam(flag: Flag) | FlagTick | Clock(time: real) | Gps(x: real, y: real)

  function Save(s: Timer): Timer {
    var call := SaveCall(s.start, s.end, s.laps);
    s.(saves := s.saves + [call], raised := s.raised || Saved(call).Raises?)
  }

  /** A tick publishes the flag; the first racing flag starts a competition, a black one ends it. Any
      other flag only pauses it: laps keep being counted. */
  function Tick(cfg: Config, s: Timer): Timer {
    var t := s.(flag := s.param);
    if Racing(t.flag) && !t.active then
      t.(active := true, start := t.now, lastCrossing := None, laps := [], currentLap := 0)
    else if t.flag == Black && t.active then
      var u := t.(active := false);
      if u.currentLap <= cfg.targetLaps then u else Save(u)
    else t
  }

  predicate Crosses(cfg: Config, s: Timer, x: real, y: real)
    requires s.now.Some?
  {
    !(s.lastCrossing.Some? && s.now.value - s.lastCrossing.value < cfg.minInterval) && Near(cfg.line, Point(x, y))
  }

  /** The first crossing begins lap 1; each later one ends a lap. Lap 1 is timed from the start of the
      competition, the others from the crossing before. */
  function Cross(cfg: Config, s: Timer): Timer
    requires s.now.Some?
  {
    var t := s.now.value;
    if s.lastCrossing.None? then s.(currentLap := s.currentLap + 1, lastCrossing := Some(t))
    else if s.currentLap == 1 && s.start.None? then s.(raised := true)
    else
      var lap := if s.currentLap == 1 then t - s.start.value else t - s.lastCrossing.value;
      var u := s.(laps := s.laps + [lap], currentLap := s.currentLap + 1, lastCrossing := Some(t));
      if s.currentLap >= cfg.targetLaps then u.(end := Some(t), param := Black, flag := Black) else u
  }

  function Step(cfg: Config, s: Timer, e: Event): Timer {
    if s.raised then s
    else
      match e
      case SetParam(f) => s.(param := f)
      case FlagTick => Tick(cfg, s)
      case Clock(t) => s.(now := Some(t))
      case Gps(x, y) => if s.active && s.now.Some? && Crosses(cfg, s, x, y) then Cross(cfg, s) else s
  }

  function Run(cfg: Config, param: Flag, events: seq<Event>): Timer {
    if events == [] then Initial(param)
    else Step(cfg, Run(cfg, param, events[..|events| - 1]), events[|events| - 1])
  }

  // --- the timer as the node keeps it ---

  class CompetitionTimer {
    const config: Config
    var param: Flag
    var vehicleFlag: Flag
    var competitionActive: bool
    var startTime: Option<real>
    var endTime: Option<real>
    var currentTime: Option<real>
    var lastCrossingTime: Option<real>
    var lapTimes: seq<real>
    var currentLap: nat
    ghost var saves: seq<SaveCall>
    ghost var raised: bool

    ghost function State(): Timer
      reads this
    {
      Timer(param, vehicleFlag, competitionActive, startTime, endTime, currentTime, lastCrossingTime,
            lapTimes, currentLap, saves, raised)
    }

    constructor (config: Config, param: Flag)
      ensures State() == Initial(param) && this.config == config && vehicleFlag == param && !competitionActive
    {
      this.config, this.param, vehicleFlag := config, param, param;
      competitionActive, startTime, endTime, currentTime, lastCrossingTime := false, None, None, None, None;
      lapTimes, currentLap, saves, raised := [], 0, [], false;
    }

    method PublishVehicleFlag()
      requires !raised
      modifies this
      ensures State() == Step(config, old(State()), FlagTick)
    {
      vehicleFlag := param;
      var racing := Racing(vehicleFlag);
      if racing && !competitionActive {
        competitionActive := true;
        startTime := currentTime;
        lastCrossingTime := None;
        lapTimes := [];
        currentLap := 0;
      } else if !racing && competitionActive {
        if vehicleFlag == Black {
          competitionActive := false;
          if currentLap > config.targetLaps {
            var _ := SaveResults();
          }
        }
      }
    }

    method ClockCallback(time: real)
      requires !raised
      modifies this`currentTime
      ensures State() == Step(config, old(State()), Clock(time))
    {
      currentTime := Some(time);
    }

    method GpsCallback(x: real, y: real)
      requires !raised
      modifies this
      ensures State() == Step(config, old(State()), Gps(x, y))
    {
      if !competitionActive || currentTime.None? {
        return;
      }
      var crossed := CheckFinishLineCrossing(x, y);
      if crossed {
        var crossingTime := currentTime.value;
        if lastCrossingTime.Some? {
          var lapTime: real;
          if currentLap == 1 {
            if startTime.None? {
              raised := true;
              return;
            }
            lapTime := crossingTime - startTime.value;
          } else {
            lapTime := crossingTime - lastCrossingTime.value;
          }
          lapTimes := lapTimes + [lapTime];
          if currentLap >= config.targetLaps {
            endTime := Some(crossingTime);
            param := Black;
            vehicleFlag := Black;
          }
        }
        currentLap := currentLap + 1;
        lastCrossingTime := Some(crossingTime);
      }
    }

    method CheckFinishLineCrossing(x: real, y: real) returns (crossed: bool)
      requires currentTime.Some?
      ensures crossed <==> Crosses(config, State(), x, y)
      ensures crossed <==>
              (lastCrossingTime.None? || currentTime.value - lastCrossingTime.value >= config.minInterval) &&
              Reaches(config.line, Point(x, y))
    {
      NearIff(config.line, Point(x, y));
      if lastCrossingTime.Some? {
        if currentTime.value - lastCrossingTime.value < config.minInterval {
          return false;
        }
      }
      crossed := Near(config.line, Point(x, y));
    }

    method SaveResults() returns (result: SaveResult)
      modifies this`saves, this`raised
      ensures State() == Save(old(State())) && result == Saved(SaveCall(startTime, endTime, lapTimes))
    {
      saves := saves + [SaveCall(startTime, endTime, lapTimes)];
      if startTime.None? || startTime.value == 0.0 {
        return NotStarted;
      }
      if endTime.None? {
        raised := true;
        return Raises;
      }
      var total := endTime.value - startTime.value;
      result := if lapTimes == [] then NoLaps(total) else Written(total, ReportOf(lapTimes));
    }
  }

  // --- what every run keeps ---

  /** Laps are counted one behind the crossings, their times telescope, and once the target is reached
      the end time is the last crossing's. */
  ghost predicate Telescopes(cfg: Config, s: Timer) {
    |s.laps| == (if s.currentLap == 0 then 0 else s.currentLap - 1) &&
    (s.lastCrossing.None? <==> s.currentLap == 0) &&
    (s.laps != [] ==> s.start.Some? && Sum(s.laps) == s.lastCrossing.value - s.start.value) &&
    (s.laps != [] && s.currentLap > cfg.targetLaps ==> s.end == s.lastCrossing)
  }

  lemma {:induction false} CrossTelescopes(cfg: Config, s: Timer)
    requires Telescopes(cfg, s) && s.now.Some?
    ensures Telescopes(cfg, Cross(cfg, s))
  {
    var now := s.now.value;
    if s.lastCrossing.Some? && s.start.Some? {
      var lap := if s.currentLap == 1 then now - s.start.value else now - s.lastCrossing.value;
      LapSum(s.laps, lap, s.start.value, s.lastCrossing.value, now);
    }
  }

  lemma {:induction false} LapSum(laps: seq<real>, lap: real, start: real, last: real, now: real)
    requires if laps == [] then lap == now - start else Sum(laps) == last - start && lap == now - last
    ensures Sum(laps + [lap]) == now - start
  {
    SumAppend(laps, lap);
  }

  lemma {:induction false} SumAppend(laps: seq<real>, lap: real)
    ensures Sum(laps + [lap]) == Sum(laps) + lap
  {
    assert (laps + [lap])[..|laps|] == laps;
  }

  lemma {:induction false} TickTelescopes(cfg: Config, s: Timer)
    requires Telescopes(cfg, s)
    ensures Telescopes(cfg, Tick(cfg, s))
  {
  }

  lemma {:induction false} StepTelescopes(cfg: Config, s: Timer, e: Event)
    requires Telescopes(cfg, s)
    ensures Telescopes(cfg, Step(cfg, s, e))
  {
    if e.FlagTick? {
      TickTelescopes(cfg, s);
    } else if e.Gps? && s.now.Some? {
      CrossTelescopes(cfg, s);
    }
  }

  /** Over every run, paused or not and whatever came before: one lap less than crossings, and the
      recorded laps sum to the last crossing's time less the start time. */
  lemma {:induction false} LapsTelescope(cfg: Config, param: Flag, events: seq<Event>)
    ensures Telescopes(cfg, Run(cfg, param, events))
  {
    if events != [] {
      LapsTelescope(cfg, param, events[..|events| - 1]);
      StepTelescopes(cfg, Run(cfg, param, events[..|events| - 1]), events[|events| - 1]);
    }
  }

  /** The tick that ends a competition with a black flag saves exactly when at least the target number
      of laps was recorded since it started. Then the total it logs is the sum of the laps, also when
      an earlier race had left an end time, and the laps are written unless the race started at time 0. */
  lemma {:induction false} BlackTickSavesIffCompleted(cfg: Config, param: Flag, events: seq<Event>)
    requires cfg.targetLaps >= 1
    ensures var s, t := Run(cfg, param, events), Run(cfg, param, events + [FlagTick]);
            !s.raised && s.active && s.param == Black ==>
              !t.active && !t.raised &&
              (if |s.laps| < cfg.targetLaps then t.saves == s.saves
               else s.start.Some? && s.end.Some? && s.end.value - s.start.value == Sum(s.laps) &&
                    t.saves == s.saves + [SaveCall(s.start, s.end, s.laps)] &&
                    s.laps != [] &&
                    (Saved(SaveCall(s.start, s.end, s.laps)) == Written(Sum(s.laps), ReportOf(s.laps)) <==>
                     s.start.value != 0.0))
  {
    assert (events + [FlagTick])[..|events|] == events;
    LapsTelescope(cfg, param, events);
  }

  // --- the file ---

  /** The summary is about the rows: the average is the total shared among the laps, and the best lap is
      one of them, no longer than any and than the average. */
  lemma {:induction false} ReportSound(laps: seq<real>)
    requires laps != []
    ensures var r := ReportOf(laps);
            r.laps == laps && r.totalLaps == |laps| && r.totalTime == Sum(laps) &&
            Times(r.average, |laps| as real) == r.totalTime && r.best <= r.average &&
            r.best in laps && forall lap :: lap in laps ==> r.best <= lap
  {
    var n, best, average := |laps| as real, Best(laps), ReportOf(laps).average;
    BestIsLeast(laps);
    forall i | 0 <= i < |laps|
      ensures best <= laps[i]
    {
      assert laps[i] in laps;
    }
    SumAtLeast(laps, best);
    assert Sum(laps) / n * n == Sum(laps);
    TimesCommutes(average, n);
    TimesOrdered(n, average, best);
  }

  /** When the results are not saved, and what is saved otherwise. */
  lemma {:induction false} SaveOutcomes(c: SaveCall)
    ensures Saved(c).NotStarted? <==> c.start == None || c.start == Some(0.0)
    ensures Saved(c).Raises? <==> c.start.Some? && c.start.value != 0.0 && c.end.None?
    ensures c.start.Some? && c.start.value != 0.0 && c.end.Some? ==>
              Saved(c) == if c.laps == [] then NoLaps(c.end.value - c.start.value)
              else Written(c.end.value - c.start.value, ReportOf(c.laps))
  {
  }

  lemma {:induction false} BestIsLeast(laps: seq<real>)
    requires laps != []
    ensures Best(laps) in laps && forall lap :: lap in laps ==> Best(laps) <= lap
  {
    var n := |laps| - 1;
    if n > 0 {
      BestIsLeast(laps[..n]);
      forall lap | lap in laps
        ensures Best(laps) <= lap
      {
        assert lap in laps[..n] || lap == laps[n];
      }
    }
  }

  lemma {:induction false} SumAtLeast(laps: seq<real>, least: real)
    requires forall i :: 0 <= i < |laps| ==> least <= laps[i]
    ensures Sum(laps) >= Times(|laps| as real, least)
  {
    if laps != [] {
      var n: nat := |laps| - 1;
      SumAtLeast(laps[..n], least);
      assert |laps| as real == n as real + 1.0;
      OneMore(n as real, least);
    }
  }

  lemma {:induction false} OneMore(n: real, x: real)
    ensures Times(n + 1.0, x) == Times(n, x) + x
  {
  }

  // --- a pause does not stop the timer ---

  function RunFrom(cfg: Config, s: Timer, events: seq<Event>): Timer
    decreases |events|
  {
    if events == [] then s else RunFrom(cfg, Step(cfg, s, events[0]), events[1..])
  }

  /** The competition is active before each of the events. */
  predicate ActiveThroughout(cfg: Config, s: Timer, events: seq<Event>)
    decreases |events|
  {
    events == [] || (s.active && ActiveThroughout(cfg, Step(cfg, s, events[0]), events[1..]))
  }

  /** The same in everything but the flags, except that black is told from the others. */
  predicate SameTiming(s: Timer, t: Timer) {
    s == t.(param := s.param, flag := s.flag) && (s.param == Black <==> t.param == Black)
  }

  predicate SameButFlag(e: Event, f: Event) {
    e == f || (e.SetParam? && f.SetParam? && e.flag != Black && f.flag != Black)
  }

  /** Whatever red or green flags are set during a competition, the laps, crossings and times are the
      same: a red flag stops no clock. */
  lemma {:induction false} FlagsDoNotPause(cfg: Config, s: Timer, t: Timer, es: seq<Event>, fs: seq<Event>)
    requires SameTiming(s, t) && ActiveThroughout(cfg, s, es)
    requires |es| == |fs| && forall i :: 0 <= i < |es| ==> SameButFlag(es[i], fs[i])
    ensures SameTiming(RunFrom(cfg, s, es), RunFrom(cfg, t, fs))
    decreases |es|
  {
    if es != [] {
      assert SameButFlag(es[0], fs[0]);
      StepSameTiming(cfg, s, t, es[0], fs[0]);
      forall i | 0 <= i < |es[1..]|
        ensures SameButFlag(es[1..][i], fs[1..][i])
      {
        assert SameButFlag(es[i + 1], fs[i + 1]);
      }
      FlagsDoNotPause(cfg, Step(cfg, s, es[0]), Step(cfg, t, fs[0]), es[1..], fs[1..]);
    }
  }

  lemma {:induction false} StepSameTiming(cfg: Config, s: Timer, t: Timer, e: Event, f: Event)
    requires SameTiming(s, t) && s.active && SameButFlag(e, f)
    ensures SameTiming(Step(cfg, s, e), Step(cfg, t, f))
  {
  }

  // --- a clock that does not go back ---

  predicate ClockMonotone(cfg: Config, param: Flag, events: seq<Event>) {
    events == [] ||
    (ClockMonotone(cfg, param, events[..|events| - 1]) &&
     var s, e := Run(cfg, param, events[..|events| - 1]), events[|events| - 1];
     (e.Clock? && s.now.Some? ==> s.now.value <= e.time))
  }

  /** The start, the last crossing and now are in order, and every recorded lap is long enough. */
  ghost predicate Spaced(cfg: Config, s: Timer) {
    (s.start.Some? ==> s.now.Some? && s.start.value <= s.now.value) &&
    (s.lastCrossing.Some? ==> s.now.Some? && s.lastCrossing.value <= s.now.value) &&
    (s.start.Some? && s.lastCrossing.Some? ==> s.start.value <= s.lastCrossing.value) &&
    (forall i :: 0 <= i < |s.laps| ==> s.laps[i] >= cfg.minInterval)
  }

  /** With a clock that never goes back, every recorded lap lasts at least the minimum interval. */
  lemma {:induction false} LapsSpaced(cfg: Config, param: Flag, events: seq<Event>)
    requires ClockMonotone(cfg, param, events)
    ensures Spaced(cfg, Run(cfg, param, events))
  {
    if events != [] {
      LapsSpaced(cfg, param, events[..|events| - 1]);
      StepSpaced(cfg, Run(cfg, param, events[..|events| - 1]), events[|events| - 1]);
    }
  }

  lemma {:induction false} StepSpaced(cfg: Config, s: Timer, e: Event)
    requires Spaced(cfg, s) && (e.Clock? && s.now.Some? ==> s.now.value <= e.time)
    ensures Spaced(cfg, Step(cfg, s, e))
  {
    if e.Gps? && s.active && s.now.Some? && Crosses(cfg, s, e.x, e.y) {
      CrossSpaced(cfg, s);
    }
  }

  lemma {:induction false} CrossSpaced(cfg: Config, s: Timer)
    requires Spaced(cfg, s) && s.now.Some?
    requires s.lastCrossing.Some? ==> s.now.value - s.lastCrossing.value >= cfg.minInterval
    ensures Spaced(cfg, Cross(cfg, s))
  {
  }
}
