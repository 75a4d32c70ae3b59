/** Extracting the configured temperatures from a `sensors -j` snapshot (`parse_temperatures`). */
module Sensors {
  import opened Wrappers

  /** Where a logical sensor lives in the snapshot: chip, feature group, field. */
  datatype SensorPath = SensorPath(chip: string, feature: string, field: string)

  /** One entry of the sensor mapping: a logical name and its path. */
  datatype SensorEntry = SensorEntry(name: string, path: SensorPath)

  /** The decoded `sensors -j` output: chip -> feature group -> field -> reading. */
  type Snapshot = map<string, map<string, map<string, real>>>

  /** A flat logical-name -> temperature sample. */
  type Sample = map<string, real>

  /** The level of a sensor path. */
  datatype Level = ChipLevel | FeatureLevel | FieldLevel

  /** The source's `ConfigError`, one constructor per place that raises it: a path level
      missing from the snapshot, a fan naming an unknown sensor, a fan sensor without a reading. */
  datatype ConfigError =
    | PathMissing(sensor: string, level: Level, key: string)
    | UndefinedSensor(fan: int, sensor: string)
    | NoReading(fan: int, sensor: string)

  /** The names of a sensor mapping (the keys of the source's dictionary). */
  function Names(mapping: seq<SensorEntry>): (ns: set<string>) {
    set e | e in mapping :: e.name
  }

  /** The names of the entries from position `i` on. */
  function NamesFrom(mapping: seq<SensorEntry>, i: nat): (ns: set<string>) {
    set j | i <= j < |mapping| :: mapping[j].name
  }

  /** A dictionary has each key once. */
  predicate UniqueNames(mapping: seq<SensorEntry>) {
    forall i, j :: 0 <= i < j < |mapping| ==> mapping[i].name != mapping[j].name
  }

  /** All three levels of `path` are present in the snapshot. */
  predicate Present(snap: Snapshot, path: SensorPath) {
    && path.chip in snap
    && path.feature in snap[path.chip]
    && path.field in snap[path.chip][path.feature]
  }

  /** The reading at a present path. */
  function Reading(snap: Snapshot, path: SensorPath): (t: real)
    requires Present(snap, path)
  {
    snap[path.chip][path.feature][path.field]
  }

  /** `e` is the error the source reports for `entry`: it names the logical sensor and the first
      missing level, looked up in the order chip, feature group, field. */
  predicate Reports(e: ConfigError, entry: SensorEntry, snap: Snapshot) {
    var path := entry.path;
    && e.PathMissing?
    && e.sensor == entry.name
    && match e.level
       case ChipLevel => e.key == path.chip && path.chip !in snap
       case FeatureLevel =>
         e.key == path.feature && path.chip in snap && path.feature !in snap[path.chip]
       case FieldLevel =>
         && e.key == path.field && path.chip in snap && path.feature in snap[path.chip]
         && path.field !in snap[path.chip][path.feature]
  }

  /** Entry `k` is the first entry from `from` on whose path is absent. */
  predicate FailsFirstAt(mapping: seq<SensorEntry>, snap: Snapshot, k: int, from: nat) {
    && from <= k < |mapping|
    && !Present(snap, mapping[k].path)
    && forall j :: from <= j < k ==> Present(snap, mapping[j].path)
  }

  /** The lookup `sensor_data[chip][feature][field]` (main.py:70) and, when it raises, the
      diagnosis of the missing level (main.py:72-82). */
  function Lookup(snap: Snapshot, entry: SensorEntry): (r: Result<real, ConfigError>)
    ensures r.Success? <==> Present(snap, entry.path)
    ensures r.Success? ==> r.value == Reading(snap, entry.path)
    ensures r.Failure? ==> Reports(r.error, entry, snap)
  {
    var path := entry.path;
    if path.chip !in snap then Failure(PathMissing(entry.name, ChipLevel, path.chip))
    else if path.feature !in snap[path.chip] then Failure(PathMissing(entry.name, FeatureLevel, path.feature))
    else if path.field !in snap[path.chip][path.feature] then Failure(PathMissing(entry.name, FieldLevel, path.field))
    else Success(snap[path.chip][path.feature][path.field])
  }

  /** The loop of main.py:68-71 from entry `i` on, with `acc` the readings collected so far. */
  function ParseFrom(mapping: seq<SensorEntry>, snap: Snapshot, i: nat, acc: Sample): (r: Result<Sample, ConfigError>)
    requires i <= |mapping|
    ensures r.Success? <==> forall j :: i <= j < |mapping| ==> Present(snap, mapping[j].path)
    ensures r.Failure? ==> exists k :: FailsFirstAt(mapping, snap, k, i) && Reports(r.error, mapping[k], snap)
    decreases |mapping| - i
  {
    if i == |mapping| then Success(acc)
    else
      match Lookup(snap, mapping[i])
      case Failure(e) =>
        assert FailsFirstAt(mapping, snap, i, i);
        Failure(e)
      case Success(v) =>
        var r := ParseFrom(mapping, snap, i + 1, acc[mapping[i].name := v]);
        assert r.Failure? ==> exists k :: FailsFirstAt(mapping, snap, k, i) && Reports(r.error, mapping[k], snap) by {
          if r.Failure? {
            var k :| FailsFirstAt(mapping, snap, k, i + 1) && Reports(r.error, mapping[k], snap);
            assert FailsFirstAt(mapping, snap, k, i);
          }
        }
        r
  }

  /** One step of a successful pass: entry `i` is present and its reading is stored. */
  lemma ParseFromStep(mapping: seq<SensorEntry>, snap: Snapshot, i: nat, acc: Sample)
    requires i < |mapping|
    requires ParseFrom(mapping, snap, i, acc).Success?
    ensures Present(snap, mapping[i].path)
    ensures ParseFrom(mapping, snap, i, acc)
            == ParseFrom(mapping, snap, i + 1, acc[mapping[i].name := Reading(snap, mapping[i].path)])
  {
    assert Present(snap, mapping[i].path);
  }

  /** A successful pass of the loop from entry `i` on collects exactly the names of the remaining
      entries on top of `acc`, and keeps the earlier readings of every other name. */
  lemma {:induction false} ParseFromKeys(mapping: seq<SensorEntry>, snap: Snapshot, i: nat, acc: Sample)
    requires i <= |mapping|
    requires ParseFrom(mapping, snap, i, acc).Success?
    ensures var r := ParseFrom(mapping, snap, i, acc).value;
            && r.Keys == acc.Keys + NamesFrom(mapping, i)
            && forall n :: n in acc && n !in NamesFrom(mapping, i) ==> r[n] == acc[n]
    decreases |mapping| - i
  {
    if i < |mapping| {
      ParseFromStep(mapping, snap, i, acc);
      ParseFromKeys(mapping, snap, i + 1, acc[mapping[i].name := Reading(snap, mapping[i].path)]);
      assert NamesFrom(mapping, i) == {mapping[i].name} + NamesFrom(mapping, i + 1);
    }
  }

  /** With unique names, a successful pass from entry `i` on stores each remaining entry's own
      reading under its name. */
  lemma {:induction false} ParseFromReadings(mapping: seq<SensorEntry>, snap: Snapshot, i: nat, acc: Sample)
    requires i <= |mapping| && UniqueNames(mapping)
    requires ParseFrom(mapping, snap, i, acc).Success?
    ensures var r := ParseFrom(mapping, snap, i, acc).value;
            forall j :: i <= j < |mapping| ==> mapping[j].name in r && r[mapping[j].name] == Reading(snap, mapping[j].path)
    decreases |mapping| - i
  {
    if i < |mapping| {
      var e := mapping[i];
      var acc' := acc[e.name := Reading(snap, e.path)];
      ParseFromStep(mapping, snap, i, acc);
      ParseFromReadings(mapping, snap, i + 1, acc');
      ParseFromKeys(mapping, snap, i + 1, acc');
      assert e.name !in NamesFrom(mapping, i + 1);
    }
  }

  /** `parse_temperatures` (main.py:65-83). */
  function ParseTemperatures(mapping: seq<SensorEntry>, snap: Snapshot): (r: Result<Sample, ConfigError>)
    ensures r.Success? <==> forall e :: e in mapping ==> Present(snap, e.path)
    ensures r.Success? ==> r.value.Keys == Names(mapping)
    ensures r.Success? && UniqueNames(mapping) ==>
              forall e :: e in mapping ==> r.value[e.name] == Reading(snap, e.path)
    ensures r.Failure? ==> exists k :: FailsFirstAt(mapping, snap, k, 0) && Reports(r.error, mapping[k], snap)
  {
    var r := ParseFrom(mapping, snap, 0, map[]);
    assert NamesFrom(mapping, 0) == Names(mapping);
    if r.Success? then
      ParseFromKeys(mapping, snap, 0, map[]);
      if UniqueNames(mapping) then
        ParseFromReadings(mapping, snap, 0, map[]);
        r
      else r
    else r
  }

  /** With unique names, the parsed sample holds entry `k`'s reading under its name. */
  lemma ReadingOf(mapping: seq<SensorEntry>, snap: Snapshot, k: nat)
    requires UniqueNames(mapping) && k < |mapping|
    requires ParseTemperatures(mapping, snap).Success?
    ensures Present(snap, mapping[k].path)
    ensures ParseTemperatures(mapping, snap).value[mapping[k].name] == Reading(snap, mapping[k].path)
  {
    assert mapping[k] in mapping;
  }
}
