/** One sense -> decide -> act cycle of `main_loop`, and the startup gate in front of the loop. */
module Control {
  import opened Wrappers
  import opened Curve
  import opened Sensors
  import opened Validation
  import opened Ipmi

  /** The controller's configuration tables: sensor mapping, fan table and speed curve, each in
      the iteration order of the source's literals. */
  datatype Config = Config(mapping: seq<SensorEntry>, fans: seq<FanEntry>, curve: seq<ControlPoint>)

  /** The failure of `get_sensor_data` (a failed `sensors -j` or output that is not JSON),
      kept opaque. */
  datatype ReadError = ReadError(detail: string)

  /** One `ipmitool` invocation: the fan, its percentage and the argument vector run. */
  datatype Command = Command(fan: int, pct: int, argv: seq<string>)

  /** What ends a cycle early; the loop's catch-all reports it and waits for the next cycle. */
  datatype CycleError =
    | SensorReadFailed(read: ReadError)
    | Extraction(config: ConfigError)
    | MissingReading(fan: int, sensor: string)
    | NoSensors(fan: int)
    | EmptyCurve
    | SpeedRejected(fan: int, rejected: ValueError)

  /** The commands a cycle issued, in order, and the error that cut it short, if any. */
  datatype CycleResult = CycleResult(commands: seq<Command>, error: Option<CycleError>)

  /** Why the controller stops before entering its loop. */
  datatype StartupError = StartupReadFailed(read: ReadError) | InvalidConfig(config: ConfigError)

  /** A run: stopped at startup, or the finite sequence of cycles observed. */
  datatype Run = Halted(reason: StartupError) | Ran(cycles: seq<CycleResult>)

  /** `max` of a non-empty list of readings. */
  function MaxOf(xs: seq<real>): (m: real)
    requires |xs| > 0
    ensures m in xs
    ensures forall i :: 0 <= i < |xs| ==> xs[i] <= m
  {
    if |xs| == 1 then xs[0]
    else
      var rest := MaxOf(xs[1..]);
      if xs[0] >= rest then xs[0] else rest
  }

  /** Fan `fan` can be driven from `temps`: it tracks at least one sensor and each has a
      reading. */
  predicate FanReady(temps: Sample, fan: FanEntry) {
    |fan.sensors| > 0 && forall s :: s in fan.sensors ==> s in temps
  }

  /** The hottest current reading among a fan's sensors (main.py:174-175). */
  function Hottest(temps: Sample, fan: FanEntry): (t: real)
    requires FanReady(temps, fan)
    ensures exists s :: s in fan.sensors && t == temps[s]
    ensures forall s :: s in fan.sensors ==> temps[s] <= t
  {
    var xs := seq(|fan.sensors|, i requires 0 <= i < |fan.sensors| => temps[fan.sensors[i]]);
    var m := MaxOf(xs);
    assert forall s :: s in fan.sensors ==> temps[s] in xs by {
      forall s | s in fan.sensors
        ensures temps[s] in xs
      {
        var k :| 0 <= k < |fan.sensors| && fan.sensors[k] == s;
        assert xs[k] == temps[s];
      }
    }
    m
  }

  /** The target percentage of one fan (main.py:174-175): the readings are looked up in list
      order (a missing one raises `KeyError`), `max` of an empty list raises `ValueError`, and
      `calculate_speed` of an empty curve raises `IndexError`. */
  function FanTarget(curve: seq<ControlPoint>, temps: Sample, fan: FanEntry): (r: Result<int, CycleError>)
    ensures r.Success? <==> FanReady(temps, fan) && |curve| > 0
    ensures r.Success? ==> r.value == CalculateSpeed(curve, Hottest(temps, fan))
    ensures r.Failure? && !(forall s :: s in fan.sensors ==> s in temps) ==>
              && r.error.MissingReading? && r.error.fan == fan.id && r.error.sensor !in temps
              && exists k :: 0 <= k < |fan.sensors| && fan.sensors[k] == r.error.sensor
                             && forall j :: 0 <= j < k ==> fan.sensors[j] in temps
  {
    match FirstUnknownSensor(fan.sensors, temps.Keys, 0)
    case Some(k) => Failure(MissingReading(fan.id, fan.sensors[k]))
    case None =>
      if |fan.sensors| == 0 then Failure(NoSensors(fan.id))
      else if |curve| == 0 then Failure(EmptyCurve)
      else Success(CalculateSpeed(curve, Hottest(temps, fan)))
  }

  /** The command for fan `fan` is the `set_fan_speed` call for its target percentage. */
  predicate Drives(curve: seq<ControlPoint>, temps: Sample, fan: FanEntry, c: Command) {
    && c.fan == fan.id
    && FanReady(temps, fan) && |curve| > 0
    && c.pct == CalculateSpeed(curve, Hottest(temps, fan))
    && FanSpeedCommand(fan.id, c.pct) == Success(c.argv)
  }

  /** Commands that drive a list of fans are addressed to those fans, in order, each at a
      percentage in [0, 100]. */
  lemma DrivenCommandsAreValid(curve: seq<ControlPoint>, temps: Sample, fans: seq<FanEntry>, cs: seq<Command>)
    requires |cs| == |fans|
    requires forall i :: 0 <= i < |fans| ==> Drives(curve, temps, fans[i], cs[i])
    ensures forall i :: 0 <= i < |cs| ==> cs[i].fan == fans[i].id && 0 <= cs[i].pct <= 100
  {
    forall i | 0 <= i < |cs|
      ensures cs[i].fan == fans[i].id && 0 <= cs[i].pct <= 100
    {
      assert FanSpeedCommand(fans[i].id, cs[i].pct).Success?;
    }
  }

  /** Fan `fan` gets a target, and the target passes the range check of `set_fan_speed`. */
  predicate Drivable(curve: seq<ControlPoint>, temps: Sample, fan: FanEntry) {
    FanReady(temps, fan) && |curve| > 0 && 0 <= CalculateSpeed(curve, Hottest(temps, fan)) <= 100
  }

  /** The body of the fan loop for one fan (main.py:174-176): its target, then the range check
      and command of `set_fan_speed`. */
  function FanStep(curve: seq<ControlPoint>, temps: Sample, fan: FanEntry): (r: Result<Command, CycleError>)
    ensures r.Success? <==> Drivable(curve, temps, fan)
    ensures r.Success? ==> Drives(curve, temps, fan, r.value)
    ensures r.Failure? && FanReady(temps, fan) && |curve| > 0 ==>
              r.error == SpeedRejected(fan.id, InvalidSpeed(CalculateSpeed(curve, Hottest(temps, fan))))
  {
    match FanTarget(curve, temps, fan)
    case Failure(e) => Failure(e)
    case Success(pct) =>
      match FanSpeedCommand(fan.id, pct)
      case Failure(ve) => Failure(SpeedRejected(fan.id, ve))
      case Success(argv) => Success(Command(fan.id, pct, argv))
  }

  /** The loop over the fan table (main.py:172-176): fans are driven in table order, and the
      first exception ends the cycle without touching the remaining fans. */
  function Actuate(curve: seq<ControlPoint>, temps: Sample, fans: seq<FanEntry>): (r: CycleResult)
    ensures |r.commands| <= |fans|
    ensures forall i :: 0 <= i < |r.commands| ==> FanStep(curve, temps, fans[i]) == Success(r.commands[i])
    ensures r.error.None? <==> |r.commands| == |fans|
    ensures r.error.Some? ==> FanStep(curve, temps, fans[|r.commands|]) == Failure(r.error.value)
  {
    RunSteps(f => FanStep(curve, temps, f), fans)
  }

  /** The loop over the fans with the body `step`: each step's command is kept in order, and the
      first failed step ends the loop with its error. */
  function RunSteps(step: FanEntry -> Result<Command, CycleError>, fans: seq<FanEntry>): (r: CycleResult)
    ensures |r.commands| <= |fans|
    ensures forall i :: 0 <= i < |r.commands| ==> step(fans[i]) == Success(r.commands[i])
    ensures r.error.None? <==> |r.commands| == |fans|
    ensures r.error.Some? ==> step(fans[|r.commands|]) == Failure(r.error.value)
  {
    if fans == [] then CycleResult([], None)
    else
      match step(fans[0])
      case Failure(e) => CycleResult([], Some(e))
      case Success(c) =>
        var rest := RunSteps(step, fans[1..]);
        var cmds := [c] + rest.commands;
        assert |cmds| == 1 + |rest.commands| && |fans| == 1 + |fans[1..]|;
        assert rest.error.Some? ==> fans[|cmds|] == fans[1..][|rest.commands|];
        StepsExtend(step, fans, c, rest.commands);
        CycleResult(cmds, rest.error)
  }

  /** Prefixing the first fan's command to commands that match the later fans' steps gives
      commands that match the fans' steps. */
  lemma StepsExtend(step: FanEntry -> Result<Command, CycleError>, fans: seq<FanEntry>, c: Command, cs: seq<Command>)
    requires |fans| >= 1 && step(fans[0]) == Success(c)
    requires |cs| < |fans|
    requires forall i :: 0 <= i < |cs| ==> step(fans[1..][i]) == Success(cs[i])
    ensures forall i :: 0 <= i < |cs| + 1 ==> step(fans[i]) == Success(([c] + cs)[i])
  {
    forall i | 0 <= i < |cs| + 1
      ensures step(fans[i]) == Success(([c] + cs)[i])
    {
      if i > 0 {
        assert fans[i] == fans[1..][i - 1];
        assert ([c] + cs)[i] == cs[i - 1];
      }
    }
  }

  /** The drive loop drives every fan exactly when each fan has a target the range check
      accepts; otherwise it stops at the first fan that has none. */
  lemma ActuateStopsAtFirstUndrivable(curve: seq<ControlPoint>, temps: Sample, fans: seq<FanEntry>)
    ensures var r := Actuate(curve, temps, fans);
            && (r.error.None? <==> forall i :: 0 <= i < |fans| ==> Drivable(curve, temps, fans[i]))
            && (r.error.Some? ==> !Drivable(curve, temps, fans[|r.commands|]))
            && forall i :: 0 <= i < |r.commands| ==> Drives(curve, temps, fans[i], r.commands[i])
  {
    var r := Actuate(curve, temps, fans);
    forall i | 0 <= i < |r.commands|
      ensures Drivable(curve, temps, fans[i]) && Drives(curve, temps, fans[i], r.commands[i])
    {
      assert FanStep(curve, temps, fans[i]) == Success(r.commands[i]);
    }
  }

  /** One iteration of the endless loop of `main_loop` (main.py:166-176, without the printing
      and the sleep): read, extract, then drive the fans. */
  function RunCycle(cfg: Config, reading: Result<Snapshot, ReadError>): (r: CycleResult)
    ensures reading.Failure? ==> r == CycleResult([], Some(SensorReadFailed(reading.error)))
    ensures reading.Success? && ParseTemperatures(cfg.mapping, reading.value).Failure? ==>
              r.commands == [] && r.error == Some(Extraction(ParseTemperatures(cfg.mapping, reading.value).error))
    ensures reading.Success? && ParseTemperatures(cfg.mapping, reading.value).Success? ==>
              r == Actuate(cfg.curve, ParseTemperatures(cfg.mapping, reading.value).value, cfg.fans)
  {
    match reading
    case Failure(e) => CycleResult([], Some(SensorReadFailed(e)))
    case Success(snap) =>
      match ParseTemperatures(cfg.mapping, snap)
      case Failure(e) => CycleResult([], Some(Extraction(e)))
      case Success(temps) => Actuate(cfg.curve, temps, cfg.fans)
  }

  /** A fan whose target exists but fails the range check (main.py:106-107) ends the cycle at
      that fan: the fans before it have been driven, it and the fans after it have not, and the
      cycle reports the rejected percentage. */
  lemma OutOfRangeTargetEndsCycle(cfg: Config, snap: Snapshot, k: nat)
    requires ParseTemperatures(cfg.mapping, snap).Success?
    requires k < |cfg.fans| && |cfg.curve| > 0
    requires forall j :: 0 <= j < k ==> Drivable(cfg.curve, ParseTemperatures(cfg.mapping, snap).value, cfg.fans[j])
    requires FanReady(ParseTemperatures(cfg.mapping, snap).value, cfg.fans[k])
    requires !(0 <= CalculateSpeed(cfg.curve, Hottest(ParseTemperatures(cfg.mapping, snap).value, cfg.fans[k])) <= 100)
    ensures var temps := ParseTemperatures(cfg.mapping, snap).value;
            var r := RunCycle(cfg, Success(snap));
            && |r.commands| == k
            && r.error == Some(SpeedRejected(cfg.fans[k].id, InvalidSpeed(CalculateSpeed(cfg.curve, Hottest(temps, cfg.fans[k])))))
  {
  }

  /** A curve of one point whose percentage the range check rejects stops every cycle at the
      first fan, whatever the readings. */
  lemma OnePointCurveRejected(cfg: Config, snap: Snapshot)
    requires ParseTemperatures(cfg.mapping, snap).Success?
    requires |cfg.fans| > 0 && FanReady(ParseTemperatures(cfg.mapping, snap).value, cfg.fans[0])
    requires |cfg.curve| == 1 && !(0 <= cfg.curve[0].pct <= 100)
    ensures RunCycle(cfg, Success(snap)) == CycleResult([], Some(SpeedRejected(cfg.fans[0].id, InvalidSpeed(cfg.curve[0].pct))))
  {
    var t := Hottest(ParseTemperatures(cfg.mapping, snap).value, cfg.fans[0]);
    assert CalculateSpeed(cfg.curve, t) == cfg.curve[0].pct;
    OutOfRangeTargetEndsCycle(cfg, snap, 0);
  }

  /** Every command a cycle issues is addressed to a fan of the table at a percentage in
      [0, 100]: the range check of `set_fan_speed` (main.py:106-107) guards every call. */
  lemma CycleCommandsInRange(cfg: Config, reading: Result<Snapshot, ReadError>)
    ensures forall c :: c in RunCycle(cfg, reading).commands ==>
              0 <= c.pct <= 100 && exists g :: g in cfg.fans && g.id == c.fan
  {
    var r := RunCycle(cfg, reading);
    forall c | c in r.commands
      ensures 0 <= c.pct <= 100 && exists g :: g in cfg.fans && g.id == c.fan
    {
      var k :| 0 <= k < |r.commands| && r.commands[k] == c;
      var temps := ParseTemperatures(cfg.mapping, reading.value).value;
      assert FanStep(cfg.curve, temps, cfg.fans[k]) == Success(c);
      assert FanSpeedCommand(cfg.fans[k].id, c.pct).Success?;
      assert cfg.fans[k] in cfg.fans;
    }
  }

  /** `main_loop` (main.py:154-176) observed over finitely many cycles: the startup read and
      `validate_config` gate the loop; each later cycle stands on its own reading. */
  function MainLoop(cfg: Config, startup: Result<Snapshot, ReadError>, readings: seq<Result<Snapshot, ReadError>>): (r: Run)
    ensures r.Halted? <==> startup.Failure? || ValidateConfig(cfg.mapping, cfg.fans, startup.value).Fail?
    ensures r.Ran? ==> |r.cycles| == |readings|
    ensures r.Ran? ==> forall i :: 0 <= i < |readings| ==> r.cycles[i] == RunCycle(cfg, readings[i])
  {
    match startup
    case Failure(e) => Halted(StartupReadFailed(e))
    case Success(snap) =>
      match ValidateConfig(cfg.mapping, cfg.fans, snap)
      case Fail(e) => Halted(InvalidConfig(e))
      case Pass => Ran(seq(|readings|, i requires 0 <= i < |readings| => RunCycle(cfg, readings[i])))
  }

  /** Every command a run issued, cycle after cycle. */
  function Issued(cycles: seq<CycleResult>): (cs: seq<Command>) {
    if cycles == [] then [] else cycles[0].commands + Issued(cycles[1..])
  }

  /** A run that stops at startup issues no command; one that passes startup issues exactly the
      commands of its cycles. */
  function IssuedBy(run: Run): (cs: seq<Command>) {
    match run
    case Halted(_) => []
    case Ran(cycles) => Issued(cycles)
  }

  /** A command is among those a run issued exactly when some cycle of the run issued it. */
  lemma {:induction false} IssuedCollects(cycles: seq<CycleResult>)
    ensures forall c :: c in Issued(cycles) <==> exists i :: 0 <= i < |cycles| && c in cycles[i].commands
  {
    if cycles != [] {
      IssuedCollects(cycles[1..]);
      forall c | (exists i :: 0 <= i < |cycles| && c in cycles[i].commands)
        ensures c in Issued(cycles)
      {
        var i :| 0 <= i < |cycles| && c in cycles[i].commands;
        if i > 0 {
          assert cycles[1..][i - 1] == cycles[i];
        }
      }
    }
  }

  /** A run that passes startup issues exactly the commands its cycles issue, and every one is
      addressed to a fan of the table at a percentage in [0, 100]. */
  lemma RunIssuesCycleCommands(cfg: Config, startup: Result<Snapshot, ReadError>, readings: seq<Result<Snapshot, ReadError>>)
    requires startup.Success? && ValidateConfig(cfg.mapping, cfg.fans, startup.value).Pass?
    ensures forall c :: c in IssuedBy(MainLoop(cfg, startup, readings)) <==>
              exists i :: 0 <= i < |readings| && c in RunCycle(cfg, readings[i]).commands
    ensures forall c :: c in IssuedBy(MainLoop(cfg, startup, readings)) ==>
              0 <= c.pct <= 100 && exists g :: g in cfg.fans && g.id == c.fan
  {
    var cycles := MainLoop(cfg, startup, readings).cycles;
    IssuedCollects(cycles);
    forall i | 0 <= i < |readings|
      ensures forall c :: c in cycles[i].commands ==> 0 <= c.pct <= 100 && exists g :: g in cfg.fans && g.id == c.fan
    {
      CycleCommandsInRange(cfg, readings[i]);
    }
  }

  /** If startup fails, `main_loop` returns before any fan is driven (main.py:156-163). */
  lemma StartupFailureIssuesNothing(cfg: Config, startup: Result<Snapshot, ReadError>, readings: seq<Result<Snapshot, ReadError>>)
    requires startup.Failure? || ValidateConfig(cfg.mapping, cfg.fans, startup.value).Fail?
    ensures IssuedBy(MainLoop(cfg, startup, readings)) == []
  {
  }

  /** After a successful startup validation, any cycle whose reading parses drives every fan, in
      table order, at the curve value of the hottest of its sensors, and never trips the range
      check when the curve's percentages lie in [0, 100]. The static half of the validation is
      what makes every reading a fan asks for present. */
  lemma ValidatedCycleDrivesAllFans(cfg: Config, startup: Snapshot, snap: Snapshot)
    requires ValidateConfig(cfg.mapping, cfg.fans, startup).Pass?
    requires |cfg.curve| > 0 && PctWithin(cfg.curve, 0, 100)
    requires forall g :: g in cfg.fans ==> |g.sensors| > 0
    requires ParseTemperatures(cfg.mapping, snap).Success?
    ensures RunCycle(cfg, Success(snap)).error.None?
    ensures |RunCycle(cfg, Success(snap)).commands| == |cfg.fans|
    ensures forall i :: 0 <= i < |cfg.fans| ==>
              Drives(cfg.curve, ParseTemperatures(cfg.mapping, snap).value, cfg.fans[i], RunCycle(cfg, Success(snap)).commands[i])
  {
    var temps := ParseTemperatures(cfg.mapping, snap).value;
    assert AllKnown(cfg.fans, Names(cfg.mapping));
    forall i | 0 <= i < |cfg.fans|
      ensures Drivable(cfg.curve, temps, cfg.fans[i])
    {
      var g := cfg.fans[i];
      assert g in cfg.fans;
      assert FanKnown(g, Names(cfg.mapping));
      assert FanReady(temps, g);
      SpeedWithin(cfg.curve, Hottest(temps, g), 0, 100);
    }
    ActuateStopsAtFirstUndrivable(cfg.curve, temps, cfg.fans);
  }
}
