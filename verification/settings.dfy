/** The configuration tables of main.py:13-46 and what can be proved about them. */
module Settings {
  import opened Wrappers
  import opened Curve
  import opened Sensors
  import opened Validation
  import opened Ipmi
  import opened Control

  /** `SENSOR_MAPPING` (main.py:13-19), in its literal order. */
  const SensorMapping: seq<SensorEntry> := [
    SensorEntry("cpu", SensorPath("k10temp-pci-00c3", "Tctl", "temp1_input")),
    SensorEntry("gpu0", SensorPath("amdgpu-pci-0300", "junction", "temp2_input")),
    SensorEntry("gpu1", SensorPath("amdgpu-pci-8300", "junction", "temp2_input")),
    SensorEntry("nvme1", SensorPath("nvme-pci-4200", "Composite", "temp1_input")),
    SensorEntry("nvme2", SensorPath("nvme-pci-4100", "Composite", "temp1_input"))
  ]

  /** `FAN_CONFIG` (main.py:22-29), in its literal order. */
  const FanTable: seq<FanEntry> := [
    FanEntry(1, ["gpu0"]),
    FanEntry(2, ["gpu0", "gpu1"]),
    FanEntry(3, ["gpu1"]),
    FanEntry(4, ["gpu1", "cpu"]),
    FanEntry(5, ["cpu"]),
    FanEntry(6, ["cpu"])
  ]

  /** `SPEED_CURVE` (main.py:32-40). */
  const SpeedCurve: seq<ControlPoint> := [
    ControlPoint(40, 5),
    ControlPoint(50, 8),
    ControlPoint(60, 15),
    ControlPoint(70, 40),
    ControlPoint(80, 50),
    ControlPoint(90, 60),
    ControlPoint(95, 100)
  ]

  /** The three tables together. */
  const Controller: Config := Config(SensorMapping, FanTable, SpeedCurve)

  lemma ConfiguredCurveStrict()
    ensures StrictlyIncreasing(SpeedCurve)
  {
    var c := SpeedCurve;
    assert c[0].temp < c[1].temp < c[2].temp < c[3].temp < c[4].temp < c[5].temp < c[6].temp;
    StepwiseIncreasing(c);
  }

  lemma ConfiguredCurvePercentages()
    ensures PctWithin(SpeedCurve, 0, 100)
  {
    var c := SpeedCurve;
    forall p | p in c
      ensures 0 <= p.pct <= 100
    {
      var k :| 0 <= k < |c| && c[k] == p;
    }
  }

  /** The configured curve is already in ascending temperature order with distinct temperatures,
      so the sort in `calculate_speed` leaves it as written, and its percentages are valid fan
      commands. */
  lemma ConfiguredCurveWellFormed()
    ensures StrictlyIncreasing(SpeedCurve) && DistinctTemps(SpeedCurve)
    ensures SortByTemp(SpeedCurve) == SpeedCurve
    ensures PctWithin(SpeedCurve, 0, 100)
  {
    ConfiguredCurveStrict();
    ConfiguredCurvePercentages();
    SortSortedIsIdentity(SpeedCurve);
  }

  /** With the configured curve no temperature whatsoever yields a percentage that
      `set_fan_speed` rejects (main.py:106-107). */
  lemma ConfiguredSpeedNeverRejected(fan: int, temp: real)
    ensures 0 <= CalculateSpeed(SpeedCurve, temp) <= 100
    ensures FanSpeedCommand(fan, CalculateSpeed(SpeedCurve, temp)).Success?
  {
    ConfiguredCurvePercentages();
    SpeedWithin(SpeedCurve, temp, 0, 100);
  }

  /** Since the configured curve is already sorted, `calculate_speed` evaluates it as written. */
  lemma ConfiguredSpeedOnSorted(temp: real)
    ensures CalculateSpeed(SpeedCurve, temp) == SpeedOnSorted(SpeedCurve, temp)
  {
    ConfiguredCurveWellFormed();
  }

  /** The configured curve clamps to 5% at or below 40 degrees and to 100% at or above 95. */
  lemma ConfiguredCurveClamps(temp: real)
    ensures temp <= 40.0 ==> CalculateSpeed(SpeedCurve, temp) == 5
    ensures temp >= 95.0 ==> CalculateSpeed(SpeedCurve, temp) == 100
  {
    ConfiguredSpeedOnSorted(temp);
  }

  /** At 45 degrees the configured curve gives 6%: 6.5 rounded half to even. */
  lemma ConfiguredCurveAt45()
    ensures CalculateSpeed(SpeedCurve, 45.0) == 6
  {
    ConfiguredSpeedOnSorted(45.0);
    var c := SpeedCurve;
    assert Brackets(c, 1, 45.0);
    assert FindSegment(c, 45.0, 1) == Some(1);
    assert c[0] == ControlPoint(40, 5) && c[1] == ControlPoint(50, 8);
    MidpointRoundsDown();
  }

  /** Each logical name occurs once in the mapping. */
  lemma ConfiguredNamesUnique()
    ensures UniqueNames(SensorMapping)
  {
  }

  /** The mapping has each logical name once, and every fan follows at least one sensor, each
      of which the mapping defines. */
  lemma ConfiguredTablesConsistent()
    ensures UniqueNames(SensorMapping)
    ensures Names(SensorMapping) == {"cpu", "gpu0", "gpu1", "nvme1", "nvme2"}
    ensures AllKnown(FanTable, Names(SensorMapping))
    ensures forall g :: g in FanTable ==> |g.sensors| > 0
  {
    var names := Names(SensorMapping);
    assert SensorMapping[0].name in names && SensorMapping[1].name in names && SensorMapping[2].name in names;
    assert SensorMapping[3].name in names && SensorMapping[4].name in names;
  }

  /** With the configured tables the static check of `validate_config` always passes, so
      startup validation succeeds exactly when every configured sensor path is present. */
  lemma ConfiguredValidation(snap: Snapshot)
    ensures ValidateConfig(SensorMapping, FanTable, snap).Pass? <==> forall e :: e in SensorMapping ==> Present(snap, e.path)
    ensures !ValidateConfig(SensorMapping, FanTable, snap).Fail? || ValidateConfig(SensorMapping, FanTable, snap).error.PathMissing?
  {
    ConfiguredTablesConsistent();
  }

  /** A snapshot without the CPU chip stops the controller at startup with an error naming
      the logical sensor `cpu` and its missing chip, and no fan is ever driven. */
  lemma MissingCpuChipHaltsStartup(snap: Snapshot, readings: seq<Result<Snapshot, ReadError>>)
    requires "k10temp-pci-00c3" !in snap
    ensures MainLoop(Controller, Success(snap), readings)
            == Halted(InvalidConfig(PathMissing("cpu", ChipLevel, "k10temp-pci-00c3")))
    ensures IssuedBy(MainLoop(Controller, Success(snap), readings)) == []
  {
    ConfiguredTablesConsistent();
    var r := ValidateConfig(SensorMapping, FanTable, snap);
    assert !Present(snap, SensorMapping[0].path);
    assert r.Fail?;
    var k :| FailsFirstAt(SensorMapping, snap, k, 0) && Reports(r.error, SensorMapping[k], snap);
    assert k == 0;
  }

  /** The fan table drives fans 1 to 6, in that order. */
  lemma ConfiguredFanIds()
    ensures |FanTable| == 6
    ensures forall i :: 0 <= i < 6 ==> FanTable[i].id == i + 1
  {
  }

  /** Fan 4 follows `gpu1` and `cpu`, so its target comes from the hotter of the two. */
  lemma Fan4Hottest(temps: Sample)
    requires FanReady(temps, FanTable[3])
    ensures Hottest(temps, FanTable[3]) == if temps["gpu1"] >= temps["cpu"] then temps["gpu1"] else temps["cpu"]
  {
    var g := FanTable[3];
    assert g.sensors == ["gpu1", "cpu"];
    assert "gpu1" in g.sensors && "cpu" in g.sensors;
  }

  /** A parsed sample holds each configured sensor's reading under its logical name. */
  lemma ConfiguredReadings(snap: Snapshot)
    requires forall e :: e in SensorMapping ==> Present(snap, e.path)
    ensures var temps := ParseTemperatures(SensorMapping, snap).value;
            && temps["gpu1"] == Reading(snap, SensorMapping[2].path)
            && temps["cpu"] == Reading(snap, SensorMapping[0].path)
  {
    ConfiguredNamesUnique();
    ReadingOf(SensorMapping, snap, 2);
    ReadingOf(SensorMapping, snap, 0);
  }

  /** After validation, the cycle on a parsed snapshot drives every configured fan. */
  lemma ConfiguredCycleDrives(snap: Snapshot)
    requires forall e :: e in SensorMapping ==> Present(snap, e.path)
    ensures var r := RunCycle(Controller, Success(snap));
            && r.error.None? && |r.commands| == |FanTable|
            && forall i :: 0 <= i < |FanTable| ==>
                 Drives(SpeedCurve, ParseTemperatures(SensorMapping, snap).value, FanTable[i], r.commands[i])
  {
    ConfiguredTablesConsistent();
    ConfiguredCurvePercentages();
    ConfiguredValidation(snap);
    ValidatedCycleDrivesAllFans(Controller, snap, snap);
  }

  /** Every cycle whose reading parses issues six commands, for fans 1 to 6 in that order, each
      at a percentage `set_fan_speed` accepts. */
  lemma ConfiguredCycleCommands(snap: Snapshot)
    requires forall e :: e in SensorMapping ==> Present(snap, e.path)
    ensures var r := RunCycle(Controller, Success(snap));
            && r.error.None?
            && |r.commands| == 6
            && (forall i :: 0 <= i < 6 ==> r.commands[i].fan == i + 1 && 0 <= r.commands[i].pct <= 100)
  {
    var temps := ParseTemperatures(SensorMapping, snap).value;
    var r := RunCycle(Controller, Success(snap));
    ConfiguredCycleDrives(snap);
    ConfiguredFanIds();
    DrivenCommandsAreValid(SpeedCurve, temps, FanTable, r.commands);
  }

  /** Fan 4, which follows `gpu1` and `cpu`, is driven by the curve value of the hotter of the
      two readings. */
  lemma ConfiguredFan4(snap: Snapshot)
    requires forall e :: e in SensorMapping ==> Present(snap, e.path)
    ensures var gpu1 := Reading(snap, SensorMapping[2].path);
            var cpu := Reading(snap, SensorMapping[0].path);
            var r := RunCycle(Controller, Success(snap));
            |r.commands| > 3 && r.commands[3].pct == CalculateSpeed(SpeedCurve, if gpu1 >= cpu then gpu1 else cpu)
  {
    var temps := ParseTemperatures(SensorMapping, snap).value;
    var r := RunCycle(Controller, Success(snap));
    ConfiguredCycleDrives(snap);
    assert Drives(SpeedCurve, temps, FanTable[3], r.commands[3]);
    Fan4Hottest(temps);
    ConfiguredReadings(snap);
  }

  /** A snapshot holding every configured path yields a reading for each sensor of fan 1. */
  lemma ConfiguredFirstFanReady(snap: Snapshot)
    requires forall e :: e in SensorMapping ==> Present(snap, e.path)
    ensures ParseTemperatures(SensorMapping, snap).Success?
    ensures FanReady(ParseTemperatures(SensorMapping, snap).value, FanTable[0])
  {
    ConfiguredTablesConsistent();
    assert FanTable[0] in FanTable;
  }

  /** With a curve whose one point asks for 150 %, the first fan's target fails the range check
      of `set_fan_speed` (main.py:106-107): the cycle drives no fan and reports the rejected
      percentage for fan 1, which the loop's catch-all (main.py:184) then prints. */
  lemma OverfullCurveRejectsFirstFan(snap: Snapshot)
    requires forall e :: e in SensorMapping ==> Present(snap, e.path)
    ensures RunCycle(Config(SensorMapping, FanTable, [ControlPoint(40, 150)]), Success(snap))
            == CycleResult([], Some(SpeedRejected(1, InvalidSpeed(150))))
  {
    ConfiguredFirstFanReady(snap);
    OnePointCurveRejected(Config(SensorMapping, FanTable, [ControlPoint(40, 150)]), snap);
  }
}
