/** The records of the program: one sensor reading, a loaded sensor, and the
    exceptions that can leave the constructor and the correlation pass. */
module Readings {
  import opened Wrappers
  import opened Floats

  /** A C# `int`: a 32-bit two's complement integer. */
  type Int32 = x: int | -0x8000_0000 <= x < 0x8000_0000

  /** One reading (`SensorData`): an id and a position in degrees. */
  datatype SensorData = SensorData(id: Int32, latitude: Float32, longitude: Float32)

  /** A loaded sensor: its readings, in the order the file listed them.
      `SensorData` is a class, so an entry of the list may be `null` (a JSON
      array element `null` deserialises to one). */
  datatype Sensor = Sensor(data: seq<Option<SensorData>>)

  /** The exceptions the model distinguishes: the program's own
      `ArgumentException` with its message, the `NullReferenceException` of
      reading a field of a null entry, and whatever a loader throws (missing
      file, malformed content), carried as its message. */
  datatype Exception =
    | ArgumentException(message: string)
    | NullReferenceException
    | LoaderException(message: string)

  /** No entry of `s` is `null`. */
  predicate NullFree(s: seq<Option<SensorData>>)
  {
    forall k :: 0 <= k < |s| ==> s[k].Some?
  }

  /** The readings of `s` with the `null` entries dropped, in order. On a
      list without `null` entries this is the list itself. */
  function NonNull(s: seq<Option<SensorData>>): (r: seq<SensorData>)
    ensures |r| <= |s|
    ensures forall x :: x in r ==> Some(x) in s
    decreases |s|
  {
    if |s| == 0 then []
    else
      var p := s[..|s| - 1];
      var rest := NonNull(p);
      assert forall x :: Some(x) in p ==> Some(x) in s;
      match s[|s| - 1]
      case Some(x) => rest + [x]
      case None => rest
  }

  /** On a list without `null` entries, dropping them changes nothing but
      the wrapping: same length, same readings at the same positions. */
  lemma {:induction false} NonNullOfNullFree(s: seq<Option<SensorData>>)
    requires NullFree(s)
    ensures |NonNull(s)| == |s|
    ensures forall k :: 0 <= k < |s| ==> NonNull(s)[k] == s[k].value
    decreases |s|
  {
    if |s| > 0 {
      var p := s[..|s| - 1];
      assert NullFree(p) by {
        assert forall k :: 0 <= k < |p| ==> p[k] == s[k];
      }
      NonNullOfNullFree(p);
    }
  }
}
