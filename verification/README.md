# A verified model of the SR655 fan controller

The program drives the six chassis fans of a server from its temperature sensors. Every cycle
it reads a `sensors -j` snapshot and extracts one temperature per logical sensor
(`parse_temperatures`). For each fan it takes the hottest of the sensors the fan follows and
maps it through a piecewise-linear speed curve (`calculate_speed`). It then sends the
percentage to the board controller as an `ipmitool raw` command (`set_fan_speed`). Before
the loop starts, `validate_config` checks the configuration against a first snapshot.

This Dafny project models that core as pure functions over immutable data:

| file | module | models |
|---|---|---|
| `wrappers.dfy` | `Wrappers` | `Option`, `Result` and `Outcome` carriers for the error paths |
| `rounding.dfy` | `Rounding` | Python's `round`: nearest integer, ties to even |
| `curve.dfy` | `Curve` | `calculate_speed`: the stable sort by temperature, the clamps, the segment search, the interpolation |
| `sensors.dfy` | `Sensors` | `parse_temperatures` and its diagnosis of the first missing path level |
| `validation.dfy` | `Validation` | `validate_config`: the static check of fan references, then the snapshot checks |
| `ipmi.dfy` | `Ipmi` | the range check of `set_fan_speed`, `f"0x{n:02x}"`, `IPMI_TEMPLATE.format` and `cmd.split()` |
| `control.dfy` | `Control` | one cycle of `main_loop`, and the startup gate, over a finite sequence of readings |
| `settings.dfy` | `Settings` | the constants `SENSOR_MAPPING`, `FAN_CONFIG`, `SPEED_CURVE`, and what holds for them |

Modelling choices:

- Python dictionaries are sequences in their literal iteration order. `UniqueNames` states that
  every key occurs once.
- A sensor snapshot is a three-level map from chip to feature group to field to reading.
- Temperatures and the interpolation are exact `real`s.
- Every exception the model keeps becomes a constructor of an error datatype: a missing path
  level, an undefined or unread fan sensor, a failed sensor read, a missing reading, a fan with
  no sensors, an empty curve and a rejected percentage. An exception inside the loop ends the
  cycle at that point, as the loop's catch-all does. The exceptions of the paths listed under
  "Left out" have no constructor.

## Model

| member | source | states |
|---|---|---|
| Rounding.RoundHalfEven | main.py:100 | the result is within one half of the value, and an exact tie goes to the even neighbour |
| Rounding.NearestTiesEvenUnique | main.py:100 | at most one integer is nearest with ties to even, so the rounding is fully determined |
| Rounding.RoundWithin | main.py:100 | rounding a value inside an integer interval stays inside it |
| Curve.Insert | main.py:87 | inserting into a curve sorted by temperature keeps it sorted and adds exactly the one point |
| Curve.SortByTemp | main.py:87 | the sorted curve is in ascending temperature order and is a permutation of the input |
| Curve.SortSortedIsIdentity | main.py:87 | sorting a curve that is already in order returns it unchanged |
| Curve.SortStrict | main.py:87 | with distinct temperatures the sorted curve is strictly increasing |
| Curve.FindSegment | main.py:96-98 | the search returns the first segment enclosing the temperature; its lower end lies strictly below the temperature, so the divisor is never zero; otherwise no segment encloses it |
| Curve.Interpolate | main.py:99-100 | inside a segment the interpolated value lies between the two end percentages, and it equals them at the end temperatures |
| Curve.FallbackUnreachable | main.py:96-102 | for every real reading strictly between the first and last control temperatures some segment encloses it, so the fallback return is reached only by readings that are not real numbers (see Left out) |
| Curve.SpeedOnSorted | main.py:89-102 | on a sorted curve the speed is never below the smallest nor above the largest control percentage; SortedOnSegment gives its exact value inside a segment |
| Curve.SortedOnSegment | main.py:96-100 | strictly inside a segment of a sorted curve the speed is the interpolation between the segment's ends, rounded half to even |
| Curve.CalculateSpeed | main.py:85-102 | the speed lies between two of the curve's own percentages, whatever order the curve is written in; AtOrBelowLowest, AtOrAboveHighest and AtControlPoint give its value at the ends and at each control point, OnSegment gives its value strictly inside each segment, BetweenAdjacent bounds it on a segment, and SpeedWithin turns it into a bound |
| Curve.SpeedWithin | main.py:85-102 | when every control percentage lies in an interval, every computed speed does too |
| Curve.AtOrBelowLowest | main.py:90-91 | at or below the lowest control temperature the speed is that point's percentage |
| Curve.AtOrAboveHighest | main.py:92-93 | at or above the highest control temperature the speed is that point's percentage |
| Curve.AtControlPoint | main.py:85-102 | at a control point's own temperature the speed is its percentage, whatever order the curve is written in |
| Curve.BetweenAdjacent | main.py:96-100 | between two control points adjacent in temperature, the speed lies between their percentages |
| Curve.OnSegment | main.py:96-100 | strictly between two control points adjacent in temperature, the speed is the linear interpolation between them rounded half to even |
| Curve.HalfwayRoundsUpToEven | main.py:100 | the midpoint 7.5 of the segment (40, 7)-(50, 8) gives 8, so the value is rounded and not truncated |
| Curve.HalfwayRoundsToEven | main.py:100 | the midpoint 6.5 of the segment (40, 5)-(50, 8) gives 6, not 7 |
| Sensors.Lookup | main.py:70-82 | a sensor's lookup succeeds exactly when its whole path is present, gives the reading there, and otherwise names the sensor and the first missing level, checked chip, feature group, field |
| Sensors.ParseFrom | main.py:67-82 | the loop succeeds exactly when every remaining path is present; a failure reports the first entry whose path is missing |
| Sensors.ParseFromKeys | main.py:67-71 | a successful pass adds exactly the remaining names and keeps every other earlier reading |
| Sensors.ParseFromReadings | main.py:67-71 | with unique names a successful pass stores each entry's own reading under its name |
| Sensors.ParseTemperatures | main.py:65-83 | extraction succeeds exactly when every configured path is present; the sample then has exactly the configured names, each with its own reading; a failure names the first sensor in mapping order whose path is missing, and the missing level |
| Sensors.ReadingOf | main.py:68-71 | a parsed sample holds entry k's reading under entry k's name |
| Validation.FirstUnknownSensor | main.py:137-138 | the first sensor of a fan that is not known, or none when all are known |
| Validation.FindOffender | main.py:136-142 | none exactly when every fan references only known sensors; otherwise the first offending fan and sensor in loop order |
| Validation.ValidateConfig | main.py:133-152 | validation passes exactly when every fan reference is defined and every configured path is present; an undefined reference is reported first, for the first offender, whatever the snapshot; otherwise the first missing path is reported; the missing-reading error is unreachable |
| Ipmi.ToHex | main.py:111-112 | the lower-case hex digits of a natural number, without a leading zero, denote that number; there is one digit exactly below 16, and at most two below 256 |
| Ipmi.ToHexIsTheMinimalForm | main.py:111-112 | any string of lower-case hex digits without a leading zero is the formatting of its own value, so the formatting is the only such string |
| Ipmi.Hex02 | main.py:111-112 | at least two characters; for a non-negative number, lower-case hex digits that denote it, zero-padded only up to two digits, exactly two below 256 |
| Ipmi.Hex02IsThePaddedForm | main.py:111-112 | any string of at least two lower-case hex digits, zero-padded only up to two, is the two-digit formatting of its own value |
| Ipmi.HexArg | main.py:111-112 | the argument is `0x` followed by, for a non-negative number, at least two lower-case hex digits that decode to it and are zero-padded only up to two; it is one byte (`0x` and two digits) below 256 |
| Ipmi.HexArgIsWord | main.py:111-112 | a formatted argument contains no whitespace, so splitting keeps it whole |
| Ipmi.Words | main.py:118 | every word `split` returns is non-empty and free of whitespace, and the words written one after the other are exactly the non-whitespace characters of the text, in order; WordsOfJoin inverts it on words joined by spaces |
| Ipmi.WordsOfJoin | main.py:118 | splitting words joined by single spaces gives the words back |
| Ipmi.JoinAppend | main.py:46 | joining two lists of words is joining each with one space between |
| Ipmi.TemplateHeadText | main.py:46 | the fixed part of the command template is the six words `sudo ipmitool raw 0x3c 0x30 0x00` |
| Ipmi.RenderCommand | main.py:110-113 | the formatted command is the fixed text `sudo ipmitool raw 0x3c 0x30 0x00`, then the fan argument and the speed argument, each after one space |
| Ipmi.SplitRendered | main.py:110-118 | splitting the formatted command gives the six template words, then the fan argument, then the speed argument |
| Ipmi.FanSpeedCommand | main.py:104-118 | a percentage outside [0, 100] is rejected with that percentage; otherwise the argument vector has eight words: the six template words, the fan id and the percentage, each as `0x` and lower-case hex digits, zero-padded only up to two, that decode to the number, one byte wide when below 256 |
| Control.MaxOf | main.py:175 | the maximum of a non-empty list is one of its elements and is at least every element |
| Control.Hottest | main.py:174-175 | a fan's hottest reading is the reading of one of its sensors and at least every one of them |
| Control.FanTarget | main.py:174-175 | a fan gets a target exactly when it follows at least one sensor, all have readings and the curve is non-empty; the target is the curve at the hottest reading; a missing reading names the fan and the first of its sensors, in list order, that has none |
| Control.DrivenCommandsAreValid | main.py:104-107 | commands that drive a list of fans are addressed to those fans in order, each at a percentage in [0, 100] |
| Control.FanStep | main.py:174-176 | one fan's step succeeds exactly when its target exists and passes the range check, and then issues that fan's command |
| Control.Actuate | main.py:172-176 | the fans are driven in table order; every issued command is its fan's step; the cycle completes exactly when all fans were driven, and otherwise stops at the first fan whose step failed |
| Control.ActuateStopsAtFirstUndrivable | main.py:172-176 | a cycle completes exactly when every fan is drivable, stops at the first fan that is not, and each issued command drives its fan |
| Control.RunCycle | main.py:166-176 | a failed read or a failed extraction ends the cycle before any fan is driven, and reports that failure; a parsed reading drives the fans from the extracted sample |
| Control.OutOfRangeTargetEndsCycle | main.py:166-186 | a fan whose target fails the range check ends the cycle there: exactly the fans before it are driven, and the cycle reports the rejected percentage for that fan |
| Control.OnePointCurveRejected | main.py:85-107 | a one-point curve whose percentage lies outside [0, 100] stops a parsed cycle at the first fan, which it reports with that percentage |
| Control.CycleCommandsInRange | main.py:104-107 | every command any cycle issues is addressed to a fan of the table at a percentage in [0, 100], whatever the curve |
| Control.MainLoop | main.py:154-176 | the controller halts before its loop exactly when the startup read or validation fails; otherwise each cycle stands on its own reading |
| Control.IssuedCollects | main.py:165-176 | a command is among those a run issued exactly when one of its cycles issued it |
| Control.RunIssuesCycleCommands | main.py:154-176 | after a passed startup the run issues exactly its cycles' commands, each addressed to a table fan at a percentage in [0, 100] |
| Control.StartupFailureIssuesNothing | main.py:156-163 | a failed startup drives no fan |
| Control.ValidatedCycleDrivesAllFans | main.py:154-176 | after a passed validation, with a curve whose percentages lie in [0, 100] and fans that each follow a sensor, every cycle whose reading parses drives every fan in table order at the curve value of its hottest sensor |
| Settings.ConfiguredCurveWellFormed | main.py:32-40 | the configured curve is strictly increasing, so the sort leaves it as written, and its percentages lie in [0, 100] |
| Settings.ConfiguredSpeedNeverRejected | main.py:85-107 | with the configured curve no temperature yields a percentage that the range check rejects |
| Settings.ConfiguredCurveClamps | main.py:85-93 | the configured curve gives 5% at or below 40 degrees and 100% at or above 95 |
| Settings.ConfiguredCurveAt45 | main.py:96-100 | at 45 degrees the configured curve gives 6% |
| Settings.ConfiguredTablesConsistent | main.py:13-29 | the mapping has each name once, and every fan follows at least one sensor, each of which the mapping defines |
| Settings.ConfiguredValidation | main.py:133-152 | with the configured tables, startup validation passes exactly when every configured path is present, and otherwise reports a missing path |
| Settings.MissingCpuChipHaltsStartup | main.py:154-163 | a snapshot without the CPU chip halts the controller at startup, naming sensor `cpu` and the chip, and drives no fan |
| Settings.ConfiguredCycleCommands | main.py:172-176 | every cycle whose reading parses drives fans 1 to 6 in order, each at a percentage in [0, 100] |
| Settings.ConfiguredFan4 | main.py:26 | fan 4 is driven at the curve value of the hotter of `gpu1` and `cpu` |
| Settings.OverfullCurveRejectsFirstFan | main.py:166-186 | with the configured tables and the one-point curve (40, 150), a parsed reading drives no fan and reports 150 rejected for fan 1 |

## Left out

- `get_sensor_data` (main.py:56-63) runs `sensors -j` and decodes its JSON. The model takes each reading as a parameter: a snapshot, or an opaque read error.
- The `subprocess.run` of `ipmitool` (main.py:115-131) is not modelled; the model stops at the argument vector. In the source, a failed call enters a handler that refers to `timestamp`, a local of `main_loop`, and to `result`, which may be unbound. That handler raises, and the loop's catch-all then skips the remaining fans. That path depends on the tool's exit status, which the model does not have.
- Console output, timestamps, `time.sleep`, `INTERVAL` and the `KeyboardInterrupt` exit (main.py:170-171, 177-186) are I/O.
- The endless `while True` loop is observed over a finite sequence of readings.
- Readings and the interpolation are exact rationals, not IEEE doubles. A double that is not exactly a half can round differently from the exact value.
- `float(value)` on a non-numeric JSON leaf, and a path level that is not an object, are outside the snapshot type.
- The texts of the error messages are left out. The errors keep the sensor, the level and the missing key, or the fan and the sensor.
- `str.split()` on a `str` separates on every character `str.isspace` accepts; `Ipmi.IsSpace` lists that set as of Python 3, which includes the file, group, record and unit separators U+001C to U+001F. Formatted hex arguments contain none of them.
- Readings that are not real numbers (NaN and the infinities that `float` accepts from JSON) are outside the model. A NaN reading fails both clamps and every segment test, so `calculate_speed` reaches its fallback (main.py:102), and `max` over a list holding a NaN depends on the list's order.
- Control points are pairs of integers, as in `SPEED_CURVE`. A curve with a fractional percentage would make the clamps return a float, and `f"{speed:02x}"` raises on a float; that path is not modelled.
- Curve.SortByTemp: the contract states order and permutation but not stability. Stability holds by construction, because `Insert` places a point before the points of equal temperature that follow it in the input.
- Curve.CalculateSpeed requires a non-empty curve, because the source indexes the sorted curve and raises `IndexError` on an empty one. Inside a cycle, `Control.FanTarget` turns this into the `EmptyCurve` error.
- Ipmi.Hex02: for a negative number the contract says nothing beyond the character set, although the body still formats it as a minus sign and the digits. No configured fan id or accepted percentage is negative.
