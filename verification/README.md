# Sensor correlation, modelled in Dafny

The program loads two sensors' readings (`SensorData`: an integer id, a
latitude and a longitude, as 32-bit floats) and correlates them in
`Sensor.compareSensors`. It compares every reading of the first sensor with
every reading of the second, in row-major order. Whenever the Lambert
ellipsoidal distance of a pair is below 100 m, it writes
`first.id.ToString() -> second.id` into a dictionary, and later writes
overwrite earlier ones. A reading list may hold null entries (a JSON
`null` element); the loops throw `NullReferenceException` as soon as they
reach a pair with a null side. A `Sensor` is built from a file path. A
`.json` suffix selects the JSON loader, otherwise a `.csv` suffix selects
the CSV loader, and any other path throws `ArgumentException`.

The model has these parts:

- `Wrappers` (`wrappers.dfy`): `Option` for a nullable reference and `Result` for a call that may throw.
- `Floats` (`floats.dfy`): a C# `float` as the comparison sees it. A value is finite, ±infinity or NaN. `Less` is the IEEE ordered `<`, so NaN is never below anything.
- `Readings` (`readings.dfy`): `SensorData`, `Sensor` (a list of possibly-null readings), the 32-bit `Int32` id type and the exceptions the program throws. `NonNull` keeps the non-null readings in order.
- `IdKeys` (`id_keys.dfy`): `int.ToString()` rendered in the invariant culture as decimal text. A parser reads it back, and the round trip is proved, so keys are injective. This is a proof, not an assumption.
- `FileFormat` (`file_format.dfy`): the constructor's suffix dispatch. `Classify` gives the format or the exception. `OpenSensor` applies a loader, given as a parameter that may itself fail, to the chosen format.
- `Correlation` (`correlation.dfy`): the correlation pass. It has three parts:
  - a functional fold, `Correlate` over `MatchRow`, with one outer step per first-sensor reading, and its meaning in `MatchRowSpec` and `CorrelateSpec`;
  - an independent row-major "last write" characterisation, `Qualifies` and `LastWrite`;
  - the imperative nested loops `CompareSensors` and `ScanRow`. Their loop invariants equate them with the fold over the non-null readings, and they fail exactly when a null pair is met.

The distance function is a parameter `dist: (SensorData, SensorData) -> Float32`.
Nothing is assumed about it: not symmetry, not non-negativity, and not
`dist(a, a) == 0`. Every property below therefore holds for whatever the
Lambert formula computes.

Two consequences of the code are worth stating plainly:

- The dictionary keeps the last qualifying write in row-major order. Nothing selects the nearest partner or breaks ties by id.
- Two readings at the same position never correlate. Their central angle is 0, so the second correction term (Program.cs:135-138) divides 0 by 0, which gives NaN, and `NaN < 100` is false. `Correlation.SinglePairThreshold` states the NaN case.

## Model

| member | source | states |
|---|---|---|
| Correlation.CompareSensors | Program.cs:68-86 | A null sensor gives `ArgumentException("Invalid input, sensors cannot be null")`, and only a null sensor does. With both sensors present, the loops throw `NullReferenceException` iff some visited pair has a null entry on either side (a null first entry is harmless when the second list is empty). Otherwise they return exactly the fold `Correlate` over the non-null readings: a key is present iff some pair of the cross product passes the test, and every value is the id of a second-sensor reading. |
| Correlation.ScanRow | Program.cs:79-85 | One inner-loop run for an entry of the first list: it throws `NullReferenceException` iff the second list is non-empty and that entry or some second entry is null; otherwise it returns `MatchRow` over the second list's readings (the dictionary unchanged for an empty second list). |
| Correlation.Near | Program.cs:80-81 | The test of a pair: for a finite distance it holds iff the distance is below 100; a NaN or +infinity distance never passes. |
| Correlation.CorrelateSpec | Program.cs:75-86 | The dictionary after the outer loop: key `k` is present iff some first reading with key `k` has a second reading at distance < 100, and each value is the id of some reading of the second sensor. |
| Correlation.MatchRowSpec | Program.cs:79-85 | One inner-loop run for reading `a`: no key other than `a`'s key is touched. `a`'s key is added or kept iff `a` has a partner. With a partner, it holds the id of the last partner in list order. Without one, the dictionary is unchanged. |
| Correlation.CorrelateStep | Program.cs:78-85 | One outer iteration keeps the meaning of the dictionary: the keys written by a prefix plus one more reading are those of the longer prefix, and values still come from the second sensor. |
| Correlation.CorrelateIsLastWriteWins | Program.cs:78-84 | Last-writer-wins: the value under a key is the second id of the last qualifying pair in row-major order, which may come from a later first reading with a duplicate id. Every present key has such a pair. |
| Correlation.KeysOnlyGrow | Program.cs:75-85 | Keys are only added or overwritten, never removed: the dictionary after any prefix of the outer loop has no key the final dictionary lacks. |
| Correlation.CorrelatedIds | Program.cs:78-84 | In terms of ids: `id.ToString()` is a key iff some first reading with that id has a partner. First-sensor ids with no partner are absent. |
| Correlation.EmptyInputYieldsEmpty | Program.cs:75-79 | An empty first or second sensor yields an empty dictionary. |
| Correlation.NoNearPairYieldsEmpty | Program.cs:80-81 | The threshold is strict, and NaN and +infinity never pass. If every distance is at least 100, infinite or NaN, the dictionary is empty. |
| Correlation.SinglePairThreshold | Program.cs:80-83 | For one pair: a distance of exactly 100 or NaN writes nothing, and 99.5 writes `a.id.ToString() -> b.id`. |
| Correlation.LaterDuplicateWins | Program.cs:78-83 | Two first readings share an id. The later reading's pair overwrites the earlier one, even when its partner comes earlier in the second sensor. |
| Readings.NonNullOfNullFree | Program.cs:78-79 | A list with no null entry is visited reading by reading: its non-null readings are the list itself, in order. |
| FileFormat.OpenSensor | Program.cs:24-34 | For a path ending in `.json` the constructor's outcome is exactly the JSON loader's (its readings, or the exception it throws); for `.csv` exactly the CSV loader's; for any other path it throws `ArgumentException` with the path followed by the invalid-ending message, without loading. |
| FileFormat.Classify | Program.cs:25-32 | The JSON loader is chosen iff the path is some stem followed by `.json`, the CSV loader iff it is some stem followed by `.csv`, and a rejection carries `ArgumentException` with the path and the constructor's message. |
| FileFormat.ClassifyJson | Program.cs:25-26 | Every path `stem + ".json"` selects the JSON loader. |
| FileFormat.ClassifyCsv | Program.cs:28-29 | Every path `stem + ".csv"` selects the CSV loader. |
| FileFormat.ClassifyRejects | Program.cs:31-32 | A path is rejected iff it is neither `stem.json` nor `stem.csv`, and the exception carries the path and the constructor's message. |
| FileFormat.NoPathHasBothSuffixes | Program.cs:25-30 | No path ends in both suffixes, so testing `.json` first never hides a `.csv` path. |
| FileFormat.EndsWithIffConcat | Program.cs:25-28 | `EndsWith(s, suffix)` holds exactly when `s` is some stem followed by `suffix`. |
| IdKeys.IdKey | Program.cs:83 | The key of an id is non-empty, starts with `-` iff the id is negative, and the rest is decimal digits with no leading zero. |
| IdKeys.NatToDecimal | Program.cs:83 | The rendering of an id's magnitude is a non-empty string of decimal digits with no leading zero. |
| IdKeys.DecimalRoundTrip | Program.cs:83 | Reading the decimal rendering of `n` back gives `n`. |
| IdKeys.KeyRoundTrip | Program.cs:83 | `ParseKey(id.ToString()) == Some(id)` for every integer id, negative ones included. |
| IdKeys.KeyInjective | Program.cs:83 | Two ids have the same dictionary key iff they are equal. |
| Floats.Less | Program.cs:81 | The float `<` of the test: false whenever either side is NaN or the left side is +infinity, the real order on finite values, and true for -infinity against a finite value. |
| Floats.LessIsStrictAndNaNUnordered | Program.cs:81 | The float `<` of the test is irreflexive, asymmetric and transitive, and NaN is unordered against every value. |

## Left out

- The body of `lambertEllipsodialDistance` (Program.cs:93-142): 32-bit float trigonometry (`MathF.Atan`, `Tan`, `Sin`, `Cos`, `Asin`, `Pow`, `Sqrt`) has no exact meaning over Dafny's reals. It is the parameter `dist`, and no fact about it is assumed.
- Float rounding: `Floats.Float32` carries finite values as reals. Only the value reaching the `< 100` comparison matters, and no float arithmetic is modelled.
- The loaders `LoadCsvData` and `LoadJsonData` (Program.cs:37-65): file I/O through CsvHelper and Newtonsoft.Json. `OpenSensor` takes them as the parameter `load`, which returns the readings or the exception the loader throws (a missing file, malformed text). The `??` fallback at Program.cs:58 is reachable (a JSON file holding `null` loads as an empty list) and belongs to the loader, so to `load`. The loaders' else-branches (Program.cs:47-50 and 60-64), which print a message and return an empty list, cannot be reached from the constructor, which has already checked the same suffix.
- Serialising the dictionary and writing `SensorDataComparisonOutput.json` (Program.cs:89-90): library calls and file I/O. `CompareSensors` returns the dictionary instead.
- `Main` (Program.cs:9-16) and `printData` (Program.cs:145-149): the entry point and console output.
- FileFormat.EndsWith: `string.EndsWith(string)` compares using the current culture. The model compares ordinally, which differs only for culture-ignorable characters in or next to the suffix (for example a soft hyphen inside it, as in `".js\u00ADon"`).
- IdKeys.IdKey: renders with the invariant culture's `-` sign. A culture with a different negative sign would change the text of negative keys but not their injectivity.
- A null `filePath` in the `Sensor` constructor: `EndsWith` on null throws `NullReferenceException`. The model takes a non-null string.
