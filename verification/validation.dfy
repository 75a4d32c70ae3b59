/** The startup cross-check of the fan table against the sensor mapping and a live sample
    (`validate_config`). */
module Validation {
  import opened Wrappers
  import opened Sensors

  /** One entry of the fan table: a fan id and the logical sensors it follows. */
  datatype FanEntry = FanEntry(id: int, sensors: seq<string>)

  /** A fan and one of its sensors, as named in an error. */
  datatype Offender = Offender(fan: int, sensor: string)

  /** Every sensor of fan `g` is in `known`. */
  predicate FanKnown(g: FanEntry, known: set<string>) {
    forall s :: s in g.sensors ==> s in known
  }

  /** Every sensor any fan references is in `known`. */
  predicate AllKnown(fans: seq<FanEntry>, known: set<string>) {
    forall g :: g in fans ==> FanKnown(g, known)
  }

  /** Sensor `s` of fan `f` is the first unknown reference met when the fans are scanned in
      table order from fan `from` on, and each fan's sensors in list order. */
  predicate FirstOffender(fans: seq<FanEntry>, known: set<string>, from: nat, f: int, s: int) {
    && from <= f < |fans|
    && 0 <= s < |fans[f].sensors|
    && fans[f].sensors[s] !in known
    && (forall j :: 0 <= j < s ==> fans[f].sensors[j] in known)
    && (forall g :: from <= g < f ==> FanKnown(fans[g], known))
  }

  /** The first sensor of `sensors`, from position `i` on, that is not in `known`. */
  function FirstUnknownSensor(sensors: seq<string>, known: set<string>, i: nat): (r: Option<nat>)
    requires i <= |sensors|
    ensures r.None? <==> forall j :: i <= j < |sensors| ==> sensors[j] in known
    ensures r.Some? ==> i <= r.value < |sensors| && sensors[r.value] !in known
    ensures r.Some? ==> forall j :: i <= j < r.value ==> sensors[j] in known
    decreases |sensors| - i
  {
    if i == |sensors| then None
    else if sensors[i] !in known then Some(i)
    else FirstUnknownSensor(sensors, known, i + 1)
  }

  /** The nested loops of main.py:136-142 (and 146-152) from fan `from` on: the first fan
      reference outside `known`, or `None` when there is none. */
  function FindOffender(fans: seq<FanEntry>, known: set<string>, from: nat): (r: Option<Offender>)
    requires from <= |fans|
    ensures r.None? <==> forall g :: from <= g < |fans| ==> FanKnown(fans[g], known)
    ensures r.Some? ==> exists f, s :: FirstOffender(fans, known, from, f, s)
                                      && r.value == Offender(fans[f].id, fans[f].sensors[s])
    decreases |fans| - from
  {
    if from == |fans| then None
    else
      match FirstUnknownSensor(fans[from].sensors, known, 0)
      case Some(s) =>
        assert FirstOffender(fans, known, from, from, s);
        Some(Offender(fans[from].id, fans[from].sensors[s]))
      case None =>
        assert FanKnown(fans[from], known);
        FindOffender(fans, known, from + 1)
  }

  /** `validate_config` (main.py:133-152): a static check that every referenced sensor is
      defined, before the snapshot is parsed at all; then the parse; then a check that each
      referenced sensor has a reading. */
  function ValidateConfig(mapping: seq<SensorEntry>, fans: seq<FanEntry>, snap: Snapshot): (r: Outcome<ConfigError>)
    ensures r.Pass? <==> AllKnown(fans, Names(mapping)) && forall e :: e in mapping ==> Present(snap, e.path)
    ensures !AllKnown(fans, Names(mapping)) ==>
              exists f, s :: FirstOffender(fans, Names(mapping), 0, f, s)
                             && r == Fail(UndefinedSensor(fans[f].id, fans[f].sensors[s]))
    ensures AllKnown(fans, Names(mapping)) && r.Fail? ==>
              exists k :: FailsFirstAt(mapping, snap, k, 0) && Reports(r.error, mapping[k], snap)
    ensures !(r.Fail? && r.error.NoReading?)
  {
    match FindOffender(fans, Names(mapping), 0)
    case Some(o) => Fail(UndefinedSensor(o.fan, o.sensor))
    case None =>
      match ParseTemperatures(mapping, snap)
      case Failure(e) => Fail(e)
      case Success(temps) =>
        match FindOffender(fans, temps.Keys, 0)
        case Some(o) => Fail(NoReading(o.fan, o.sensor))
        case None => Pass
  }
}
