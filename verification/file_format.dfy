/** The `Sensor` constructor: the loader is chosen from the suffix of the
    file path, `.json` tested first, then `.csv`; any other path throws. */
module FileFormat {
  import opened Wrappers
  import opened Readings

  /** The two loaders the constructor can dispatch to. */
  datatype Format = Json | Csv

  /** `s.EndsWith(suffix)` as an ordinal comparison. */
  predicate EndsWith(s: string, suffix: string)
  {
    |suffix| <= |s| && s[|s| - |suffix|..] == suffix
  }

  /** A path ends with a suffix exactly when it is some stem followed by
      that suffix. */
  lemma EndsWithIffConcat(s: string, suffix: string)
    ensures EndsWith(s, suffix) <==> exists stem :: s == stem + suffix
  {
    if EndsWith(s, suffix) {
      var stem := s[..|s| - |suffix|];
      assert s == stem + suffix;
    }
    if stem :| s == stem + suffix {
      assert s[|s| - |suffix|..] == suffix;
    }
  }

  /** The text that follows the path in the constructor's exception. */
  const InvalidEndingMessage: string := " has a invalid file ending, valid endings include .csv and .json"

  /** Which loader the constructor picks for `path`, or the exception it
      throws. `.json` is tested first, but since no path has both suffixes
      the choice is simply: JSON for `stem.json`, CSV for `stem.csv`, and
      the constructor's `ArgumentException` for anything else. */
  function Classify(path: string): (r: Result<Format, Exception>)
    ensures r == Success(Json) <==> exists stem :: path == stem + ".json"
    ensures r == Success(Csv) <==> exists stem :: path == stem + ".csv"
    ensures r.Failure? ==> r.error == ArgumentException(path + InvalidEndingMessage)
  {
    EndsWithIffConcat(path, ".json");
    EndsWithIffConcat(path, ".csv");
    NoPathHasBothSuffixes(path);
    if EndsWith(path, ".json") then Success(Json)
    else if EndsWith(path, ".csv") then Success(Csv)
    else Failure(ArgumentException(path + InvalidEndingMessage))
  }

  /** Any path of the form `stem.json` selects the JSON loader. */
  lemma ClassifyJson(stem: string)
    ensures Classify(stem + ".json") == Success(Json)
  {
    EndsWithIffConcat(stem + ".json", ".json");
  }

  /** Any path of the form `stem.csv` selects the CSV loader. */
  lemma ClassifyCsv(stem: string)
    ensures Classify(stem + ".csv") == Success(Csv)
  {
    EndsWithIffConcat(stem + ".csv", ".csv");
    NoPathHasBothSuffixes(stem + ".csv");
  }

  /** A path ending in neither suffix is rejected with the constructor's
      message, and only such a path is. */
  lemma ClassifyRejects(path: string)
    ensures Classify(path).Failure? <==>
      (forall stem :: path != stem + ".json") && (forall stem :: path != stem + ".csv")
    ensures Classify(path).Failure? ==>
      Classify(path) == Failure(ArgumentException(path + InvalidEndingMessage))
  {
    EndsWithIffConcat(path, ".json");
    EndsWithIffConcat(path, ".csv");
  }

  /** No path ends in both `.json` and `.csv`, so testing `.json` first
      never hides a `.csv` path. */
  lemma NoPathHasBothSuffixes(path: string)
    ensures !(EndsWith(path, ".json") && EndsWith(path, ".csv"))
  {
    if EndsWith(path, ".json") {
      assert path[|path| - 1] == path[|path| - 5..][4] == 'n';
    }
    if EndsWith(path, ".csv") {
      assert path[|path| - 1] == path[|path| - 4..][3] == 'v';
    }
  }

  /** `new Sensor(path)`: the outcome of the loader the suffix selects, or
      the constructor's own exception when neither suffix matches. The
      loaders are the parameter `load`, applied to the selected format and
      the path; an exception a loader throws (a missing or malformed file)
      leaves the constructor unchanged. */
  function OpenSensor(path: string, load: (Format, string) -> Result<seq<Option<SensorData>>, Exception>): (r: Result<Sensor, Exception>)
    ensures !EndsWith(path, ".json") && !EndsWith(path, ".csv") ==>
      r == Failure(ArgumentException(path + InvalidEndingMessage))
    ensures EndsWith(path, ".json") ==> r == Loaded(load(Json, path))
    ensures EndsWith(path, ".csv") ==> r == Loaded(load(Csv, path))
  {
    NoPathHasBothSuffixes(path);
    match Classify(path)
    case Success(format) => Loaded(load(format, path))
    case Failure(e) => Failure(e)
  }

  /** The sensor holding what a loader returned, or the loader's exception. */
  function Loaded(outcome: Result<seq<Option<SensorData>>, Exception>): Result<Sensor, Exception>
  {
    match outcome
    case Success(data) => Success(Sensor(data))
    case Failure(e) => Failure(e)
  }
}
