/** `Sensor.compareSensors`: every reading of the first sensor is compared
    with every reading of the second, in row-major order, and each pair whose
    distance is below 100 m writes `first.id.ToString() -> second.id` into a
    dictionary, later writes overwriting earlier ones.

    The distance is a parameter: any function from two readings to a float.
    Nothing is assumed about it (not symmetry, not that a reading is at
    distance zero from itself), so every property below holds for the
    program's Lambert formula whatever it computes. */
module Correlation {
  import opened Wrappers
  import opened Floats
  import opened IdKeys
  import opened Readings

  /** The output dictionary, `Dictionary<string, int>`. */
  type Correlations = map<string, Int32>

  /** Stands for `lambertEllipsodialDistance`. */
  type Distance = (SensorData, SensorData) -> Float32

  /** The literal `100` of the comparison, converted to `float`. */
  const Threshold: Float32 := Finite(100.0)

  /** The message of the exception thrown for a null sensor. */
  const NullSensorMessage: string := "Invalid input, sensors cannot be null"

  /** The test of one pair: `distance < 100` on floats. It is strict, a NaN
      distance never passes, and neither does +infinity. */
  predicate Near(dist: Distance, a: SensorData, b: SensorData)
  {
    Less(dist(a, b), Threshold)
  }

  /** Some reading of `s2` passes the test against `a`. */
  predicate HasPartner(dist: Distance, a: SensorData, s2: seq<SensorData>)
  {
    exists j :: 0 <= j < |s2| && Near(dist, a, s2[j])
  }

  /** `s2[j]` is the last reading of `s2` that passes the test against `a`. */
  predicate LastPartner(dist: Distance, a: SensorData, s2: seq<SensorData>, j: int)
  {
    && 0 <= j < |s2|
    && Near(dist, a, s2[j])
    && forall j' :: j < j' < |s2| ==> !Near(dist, a, s2[j'])
  }

  /** One run of the inner loop: `a` against every reading of `s2` in order,
      starting from the dictionary `m`, each passing pair writing the key of
      `a`. */
  function MatchRow(dist: Distance, m: Correlations, a: SensorData, s2: seq<SensorData>): Correlations
    decreases |s2|
  {
    if |s2| == 0 then m
    else
      var r' := MatchRow(dist, m, a, s2[..|s2| - 1]);
      var b := s2[|s2| - 1];
      if Near(dist, a, b) then r'[IdKey(a.id) := b.id] else r'
  }

  /** What one run of the inner loop does: only the key of `a` can change;
      it is added or kept exactly when `a` has a partner, and then holds the
      id of the last partner; without a partner nothing changes. */
  lemma {:induction false} MatchRowSpec(dist: Distance, m: Correlations, a: SensorData, s2: seq<SensorData>)
    ensures forall k :: k != IdKey(a.id) ==> (k in MatchRow(dist, m, a, s2) <==> k in m)
    ensures forall k :: k in MatchRow(dist, m, a, s2) && k != IdKey(a.id) ==> MatchRow(dist, m, a, s2)[k] == m[k]
    ensures IdKey(a.id) in MatchRow(dist, m, a, s2) <==> IdKey(a.id) in m || HasPartner(dist, a, s2)
    ensures !HasPartner(dist, a, s2) ==> MatchRow(dist, m, a, s2) == m
    ensures HasPartner(dist, a, s2) ==>
      exists j :: LastPartner(dist, a, s2, j) && MatchRow(dist, m, a, s2)[IdKey(a.id)] == s2[j].id
    decreases |s2|
  {
    if |s2| > 0 {
      MatchRowSpec(dist, m, a, s2[..|s2| - 1]);
      RowStep(dist, a, s2);
    }
  }

  /** How the partner facts of `s2` follow from those of `s2` without its
      last reading. */
  lemma RowStep(dist: Distance, a: SensorData, s2: seq<SensorData>)
    requires |s2| > 0
    ensures HasPartner(dist, a, s2) <==>
      HasPartner(dist, a, s2[..|s2| - 1]) || Near(dist, a, s2[|s2| - 1])
    ensures Near(dist, a, s2[|s2| - 1]) ==> LastPartner(dist, a, s2, |s2| - 1)
    ensures !Near(dist, a, s2[|s2| - 1]) ==>
      forall j :: LastPartner(dist, a, s2[..|s2| - 1], j) ==> LastPartner(dist, a, s2, j)
  {
    var p := s2[..|s2| - 1];
    if HasPartner(dist, a, s2) && !Near(dist, a, s2[|s2| - 1]) {
      var j :| 0 <= j < |s2| && Near(dist, a, s2[j]);
      assert p[j] == s2[j];
    }
  }

  /** `(i, j)` is a pair of the cross product that writes the key `k`. */
  predicate Qualifies(dist: Distance, s1: seq<SensorData>, s2: seq<SensorData>, k: string, i: int, j: int)
  {
    && 0 <= i < |s1|
    && 0 <= j < |s2|
    && IdKey(s1[i].id) == k
    && Near(dist, s1[i], s2[j])
  }

  /** Row-major order: outer index first, inner index second. */
  predicate RowMajorBefore(i: int, j: int, i': int, j': int)
  {
    i < i' || (i == i' && j < j')
  }

  /** `(i, j)` is the last pair, in row-major order, that writes the key `k`:
      the write that survives in the dictionary. */
  ghost predicate LastWrite(dist: Distance, s1: seq<SensorData>, s2: seq<SensorData>, k: string, i: int, j: int)
  {
    && Qualifies(dist, s1, s2, k, i, j)
    && forall i', j' :: Qualifies(dist, s1, s2, k, i', j') ==>
         (i' == i && j' == j) || RowMajorBefore(i', j', i, j)
  }

  /** The dictionary `compareSensors` builds from two lists of readings: the
      outer loop folded over `s1`, each step one run of the inner loop. */
  function Correlate(dist: Distance, s1: seq<SensorData>, s2: seq<SensorData>): Correlations
    decreases |s1|
  {
    if |s1| == 0 then map[]
    else MatchRow(dist, Correlate(dist, s1[..|s1| - 1], s2), s1[|s1| - 1], s2)
  }

  /** What the fold means: a key is present exactly when some pair of the
      cross product writes it, and every value is the id of a reading of
      `s2`. */
  lemma {:induction false} CorrelateSpec(dist: Distance, s1: seq<SensorData>, s2: seq<SensorData>)
    ensures forall k :: k in Correlate(dist, s1, s2) <==> exists i, j :: Qualifies(dist, s1, s2, k, i, j)
    ensures forall k :: k in Correlate(dist, s1, s2) ==>
      exists j :: 0 <= j < |s2| && Correlate(dist, s1, s2)[k] == s2[j].id
    decreases |s1|
  {
    if |s1| > 0 {
      var p := s1[..|s1| - 1];
      var a := s1[|s1| - 1];
      assert s1 == p + [a];
      CorrelateSpec(dist, p, s2);
      CorrelateStep(dist, p, a, s2, Correlate(dist, p, s2), Correlate(dist, s1, s2));
    }
  }

  /** One iteration of the outer loop keeps the meaning of the dictionary:
      if `m` holds the keys written by the pairs of `p`, then one more run of
      the inner loop, for `a`, yields the keys written by the pairs of
      `p + [a]`, and values still come from `s2`. */
  lemma CorrelateStep(dist: Distance, p: seq<SensorData>, a: SensorData, s2: seq<SensorData>, m: Correlations, r: Correlations)
    requires forall k :: k in m <==> exists i, j :: Qualifies(dist, p, s2, k, i, j)
    requires forall k :: k in m ==> exists j :: 0 <= j < |s2| && m[k] == s2[j].id
    requires r == MatchRow(dist, m, a, s2)
    ensures forall k :: k in r <==> exists i, j :: Qualifies(dist, p + [a], s2, k, i, j)
    ensures forall k :: k in r ==> exists j :: 0 <= j < |s2| && r[k] == s2[j].id
  {
    MatchRowSpec(dist, m, a, s2);
    forall k
      ensures k in r <==> exists i, j :: Qualifies(dist, p + [a], s2, k, i, j)
    {
      KeyStep(dist, p, a, s2, m, r, k);
    }
  }

  /** `CorrelateStep` for one key. */
  lemma KeyStep(dist: Distance, p: seq<SensorData>, a: SensorData, s2: seq<SensorData>, m: Correlations, r: Correlations, k: string)
    requires k in m <==> exists i, j :: Qualifies(dist, p, s2, k, i, j)
    requires r == MatchRow(dist, m, a, s2)
    ensures k in r <==> exists i, j :: Qualifies(dist, p + [a], s2, k, i, j)
  {
    MatchRowSpec(dist, m, a, s2);
    var s1 := p + [a];
    if exists i, j :: Qualifies(dist, s1, s2, k, i, j) {
      var i, j :| Qualifies(dist, s1, s2, k, i, j);
      if i < |p| {
        assert s1[i] == p[i];
        assert Qualifies(dist, p, s2, k, i, j);
      } else {
        assert k == IdKey(a.id) && Near(dist, a, s2[j]);
      }
    }
    if k in r {
      if k == IdKey(a.id) && HasPartner(dist, a, s2) {
        var j :| 0 <= j < |s2| && Near(dist, a, s2[j]);
        assert Qualifies(dist, s1, s2, k, |p|, j);
      } else {
        var i, j :| Qualifies(dist, p, s2, k, i, j);
        assert s1[i] == p[i];
        assert Qualifies(dist, s1, s2, k, i, j);
      }
    }
  }

  /** When the last reading `a` of `p + [a]` does not write `k`, the pairs
      that write `k` are those of `p`. */
  lemma QualifiesUnchanged(dist: Distance, p: seq<SensorData>, a: SensorData, s2: seq<SensorData>, k: string)
    requires !(k == IdKey(a.id) && HasPartner(dist, a, s2))
    ensures forall i, j :: Qualifies(dist, p + [a], s2, k, i, j) <==> Qualifies(dist, p, s2, k, i, j)
  {
    forall i, j
      ensures Qualifies(dist, p + [a], s2, k, i, j) <==> Qualifies(dist, p, s2, k, i, j)
    {
      if 0 <= i < |p| {
        assert (p + [a])[i] == p[i];
      } else if i == |p| && 0 <= j < |s2| && k == IdKey(a.id) {
        assert !Near(dist, a, s2[j]);
      }
    }
  }

  /** Last-writer-wins: the value stored under a key is the id of the
      second-sensor reading in the last pair, in row-major order, that writes
      that key, and a present key always has such a pair. Ids need not be
      unique, so that pair may come from a later reading of `s1` with the
      same id. */
  lemma {:induction false} CorrelateIsLastWriteWins(dist: Distance, s1: seq<SensorData>, s2: seq<SensorData>, k: string)
    ensures k in Correlate(dist, s1, s2) ==> exists i, j :: LastWrite(dist, s1, s2, k, i, j)
    ensures forall i, j :: LastWrite(dist, s1, s2, k, i, j) ==>
      k in Correlate(dist, s1, s2) && Correlate(dist, s1, s2)[k] == s2[j].id
    decreases |s1|
  {
    if |s1| > 0 {
      var p := s1[..|s1| - 1];
      var a := s1[|s1| - 1];
      assert s1 == p + [a];
      var m := Correlate(dist, p, s2);
      var r := Correlate(dist, s1, s2);
      assert r == MatchRow(dist, m, a, s2);
      MatchRowSpec(dist, m, a, s2);
      if k == IdKey(a.id) && HasPartner(dist, a, s2) {
        var jl :| LastPartner(dist, a, s2, jl) && r[k] == s2[jl].id;
        forall i', j' | Qualifies(dist, s1, s2, k, i', j')
          ensures (i' == |p| && j' == jl) || RowMajorBefore(i', j', |p|, jl)
        {
          if i' == |p| {
            assert Near(dist, a, s2[j']);
          }
        }
        assert LastWrite(dist, s1, s2, k, |p|, jl);
        forall i, j | LastWrite(dist, s1, s2, k, i, j)
          ensures k in r && r[k] == s2[j].id
        {
          assert Qualifies(dist, s1, s2, k, |p|, jl);
        }
      } else {
        CorrelateIsLastWriteWins(dist, p, s2, k);
        QualifiesUnchanged(dist, p, a, s2, k);
        forall i, j | LastWrite(dist, s1, s2, k, i, j)
          ensures LastWrite(dist, p, s2, k, i, j)
        {
        }
        if k in r {
          var i, j :| LastWrite(dist, p, s2, k, i, j);
          assert LastWrite(dist, s1, s2, k, i, j);
        }
      }
    }
  }

  /** Keys are only ever added or overwritten, never removed: the dictionary
      after a prefix of the outer loop has no key the final one lacks. */
  lemma KeysOnlyGrow(dist: Distance, s1: seq<SensorData>, s2: seq<SensorData>, n: nat)
    requires n <= |s1|
    ensures Correlate(dist, s1[..n], s2).Keys <= Correlate(dist, s1, s2).Keys
  {
    CorrelateSpec(dist, s1[..n], s2);
    CorrelateSpec(dist, s1, s2);
    forall k | k in Correlate(dist, s1[..n], s2)
      ensures k in Correlate(dist, s1, s2)
    {
      var i, j :| Qualifies(dist, s1[..n], s2, k, i, j);
      assert s1[..n][i] == s1[i];
      assert Qualifies(dist, s1, s2, k, i, j);
    }
  }

  /** Stated on ids rather than keys: `id.ToString()` is a key of the output
      exactly when some reading of `s1` with that id has a partner in `s2`.
      First-sensor ids with no partner are absent. */
  lemma CorrelatedIds(dist: Distance, s1: seq<SensorData>, s2: seq<SensorData>, id: int)
    ensures IdKey(id) in Correlate(dist, s1, s2) <==>
      exists i, j :: 0 <= i < |s1| && 0 <= j < |s2| && s1[i].id == id && Near(dist, s1[i], s2[j])
  {
    CorrelateSpec(dist, s1, s2);
    var key := IdKey(id);
    var r := Correlate(dist, s1, s2);
    if key in r {
      var i, j :| Qualifies(dist, s1, s2, key, i, j);
      KeyInjective(s1[i].id, id);
      assert s1[i].id == id;
    }
    if exists i, j :: 0 <= i < |s1| && 0 <= j < |s2| && s1[i].id == id && Near(dist, s1[i], s2[j]) {
      var i, j :| 0 <= i < |s1| && 0 <= j < |s2| && s1[i].id == id && Near(dist, s1[i], s2[j]);
      assert Qualifies(dist, s1, s2, key, i, j);
    }
  }

  /** Nothing to compare, nothing written: an empty first or second sensor
      gives an empty dictionary. */
  lemma EmptyInputYieldsEmpty(dist: Distance, s1: seq<SensorData>, s2: seq<SensorData>)
    requires |s1| == 0 || |s2| == 0
    ensures Correlate(dist, s1, s2) == map[]
  {
    CorrelateSpec(dist, s1, s2);
    var r := Correlate(dist, s1, s2);
    forall k
      ensures k !in r
    {
      assert forall i, j :: !Qualifies(dist, s1, s2, k, i, j);
    }
    assert r.Keys == {};
  }

  /** The threshold is strict and NaN never passes: if no pair has a distance
      strictly below 100 (every distance is 100 or more, infinite, or NaN),
      the dictionary is empty. */
  lemma NoNearPairYieldsEmpty(dist: Distance, s1: seq<SensorData>, s2: seq<SensorData>)
    requires forall i, j :: 0 <= i < |s1| && 0 <= j < |s2| ==>
      dist(s1[i], s2[j]) == NaN || dist(s1[i], s2[j]) == PositiveInfinity
      || (dist(s1[i], s2[j]).Finite? && dist(s1[i], s2[j]).value >= 100.0)
    ensures Correlate(dist, s1, s2) == map[]
  {
    CorrelateSpec(dist, s1, s2);
    var r := Correlate(dist, s1, s2);
    forall k
      ensures k !in r
    {
      assert forall i, j :: !Qualifies(dist, s1, s2, k, i, j);
    }
    assert r.Keys == {};
  }

  /** A single pair at exactly 100 m, or at a NaN distance (which the Lambert
      formula yields for two readings at the same position, where it divides
      zero by zero), is not correlated; at 99.5 m it is. */
  lemma SinglePairThreshold(dist: Distance, a: SensorData, b: SensorData)
    ensures dist(a, b) == Finite(100.0) ==> Correlate(dist, [a], [b]) == map[]
    ensures dist(a, b) == NaN ==> Correlate(dist, [a], [b]) == map[]
    ensures dist(a, b) == Finite(99.5) ==> Correlate(dist, [a], [b]) == map[IdKey(a.id) := b.id]
  {
    assert [a][..0] == [];
    assert [b][..0] == [];
    assert Correlate(dist, [a], [b]) == MatchRow(dist, map[], a, [b]);
    assert MatchRow(dist, map[], a, [b]) ==
      if Near(dist, a, b) then map[IdKey(a.id) := b.id] else map[];
  }

  /** Row-major order decides between duplicates: with two readings of the
      same id, the pair of the later reading wins even when its partner comes
      earlier in `s2` than the partner of the first reading. */
  lemma LaterDuplicateWins(dist: Distance, a1: SensorData, a2: SensorData, b1: SensorData, b2: SensorData)
    requires a1.id == a2.id
    requires Near(dist, a1, b2) && Near(dist, a2, b1) && !Near(dist, a2, b2)
    ensures Correlate(dist, [a1, a2], [b1, b2]) == map[IdKey(a1.id) := b1.id]
  {
    var s2 := [b1, b2];
    var key := IdKey(a1.id);
    assert [a1, a2][..1] == [a1];
    assert [a1][..0] == [];
    assert s2[..1] == [b1];
    assert [b1][..0] == [];
    // the first row ends with the write of (a1, b2), whatever (a1, b1) did
    var m1 := Correlate(dist, [a1], s2);
    assert Correlate(dist, [], s2) == map[];
    assert m1 == MatchRow(dist, map[], a1, s2);
    assert m1 == MatchRow(dist, map[], a1, [b1])[key := b2.id];
    assert m1 == map[key := b2.id];
    // the second row overwrites it with (a2, b1); (a2, b2) writes nothing
    assert Correlate(dist, [a1, a2], s2) == MatchRow(dist, m1, a2, s2);
    assert MatchRow(dist, m1, a2, s2) == MatchRow(dist, m1, a2, [b1]);
    assert MatchRow(dist, m1, a2, [b1]) == m1[key := b1.id];
  }

  /** One of the two entries of a pair is `null`. */
  predicate HasNullSide(x: Option<SensorData>, y: Option<SensorData>)
  {
    x.None? || y.None?
  }

  /** Running the two loops over `s1` and `s2` reaches a pair with a `null`
      entry, whose field the distance function then reads. */
  predicate MeetsNull(s1: seq<Option<SensorData>>, s2: seq<Option<SensorData>>)
  {
    exists i, j :: 0 <= i < |s1| && 0 <= j < |s2| && HasNullSide(s1[i], s2[j])
  }

  /** The loops meet no `null` entry when every pair they form has two
      readings: the first list is free of `null` when the second is not
      empty, and the other way round. */
  lemma NoNullMet(s1: seq<Option<SensorData>>, s2: seq<Option<SensorData>>)
    requires |s2| > 0 ==> NullFree(s1)
    requires |s1| > 0 ==> NullFree(s2)
    ensures !MeetsNull(s1, s2)
  {
    forall i, j | 0 <= i < |s1| && 0 <= j < |s2|
      ensures !HasNullSide(s1[i], s2[j])
    {
    }
  }

  /** A `null` entry met by the inner loop for `s1[i]` is a pair with a
      `null` side. */
  lemma RowFailureMeetsNull(s1: seq<Option<SensorData>>, s2: seq<Option<SensorData>>, i: nat)
    requires i < |s1| && |s2| > 0 && (s1[i].None? || !NullFree(s2))
    ensures MeetsNull(s1, s2)
  {
    if s1[i].None? {
      assert HasNullSide(s1[i], s2[0]);
    } else {
      var j :| 0 <= j < |s2| && s2[j].None?;
      assert HasNullSide(s1[i], s2[j]);
    }
  }

  /** The outer fold over one more reading is one more inner-loop run. */
  lemma CorrelateSnoc(dist: Distance, p: seq<SensorData>, x: SensorData, s2: seq<SensorData>)
    ensures Correlate(dist, p + [x], s2) == MatchRow(dist, Correlate(dist, p, s2), x, s2)
  {
    assert (p + [x])[..|p|] == p;
  }

  /** The inner loop over one more reading is one more test and write. */
  lemma MatchRowSnoc(dist: Distance, m: Correlations, a: SensorData, q: seq<SensorData>, b: SensorData)
    ensures MatchRow(dist, m, a, q + [b]) ==
      (if Near(dist, a, b) then MatchRow(dist, m, a, q)[IdKey(a.id) := b.id] else MatchRow(dist, m, a, q))
  {
    assert (q + [b])[..|q|] == q;
  }

  /** The inner loop of `compareSensors` for the entry `a`: `a` against
      every entry of `s2` in order, starting from the dictionary `m`. The
      first pair with a `null` side throws; with no such pair it is the run
      `MatchRow` over the readings. */
  method ScanRow(dist: Distance, m: Correlations, a: Option<SensorData>, s2: seq<Option<SensorData>>)
    returns (r: Result<Correlations, Exception>)
    ensures r.Failure? <==> |s2| > 0 && (a.None? || !NullFree(s2))
    ensures r.Failure? ==> r.error == NullReferenceException
    ensures r.Success? && |s2| == 0 ==> r.value == m
    ensures r.Success? && |s2| > 0 ==> r.value == MatchRow(dist, m, a.value, NonNull(s2))
  {
    var row := m;
    ghost var seen: seq<SensorData> := [];
    var j := 0;
    while j < |s2|
      invariant 0 <= j <= |s2|
      invariant j > 0 ==> a.Some?
      invariant |seen| == j
      invariant forall k :: 0 <= k < j ==> s2[k] == Some(seen[k])
      invariant j == 0 ==> row == m
      invariant j > 0 ==> row == MatchRow(dist, m, a.value, seen)
    {
      var b := s2[j];
      if a.None? || b.None? {
        return Failure(NullReferenceException);
      }
      var distance := dist(a.value, b.value);
      MatchRowSnoc(dist, m, a.value, seen, b.value);
      if Less(distance, Threshold) {
        row := row[IdKey(a.value.id) := b.value.id];
      }
      seen := seen + [b.value];
      j := j + 1;
    }
    if |s2| > 0 {
      NonNullOfNullFree(s2);
      assert seen == NonNull(s2);
    }
    return Success(row);
  }

  /** `Sensor.compareSensors`. A null sensor throws `ArgumentException`
      before anything is compared. Otherwise the nested loops run, and
      reaching a pair with a `null` entry throws `NullReferenceException`
      with no output. When neither happens, the dictionary is the fold
      `Correlate` over the readings, with all of its properties. */
  method CompareSensors(dist: Distance, sensor1: Option<Sensor>, sensor2: Option<Sensor>)
    returns (r: Result<Correlations, Exception>)
    ensures r == Failure(ArgumentException(NullSensorMessage)) <==> sensor1.None? || sensor2.None?
    ensures sensor1.Some? && sensor2.Some? ==>
      (r == Failure(NullReferenceException) <==> MeetsNull(sensor1.value.data, sensor2.value.data))
    ensures r.Success? <==>
      sensor1.Some? && sensor2.Some? && !MeetsNull(sensor1.value.data, sensor2.value.data)
    ensures r.Success? ==>
      r.value == Correlate(dist, NonNull(sensor1.value.data), NonNull(sensor2.value.data))
  {
    if sensor1.None? || sensor2.None? {
      return Failure(ArgumentException(NullSensorMessage));
    }
    var s1 := sensor1.value.data;
    var s2 := sensor2.value.data;
    var m: Correlations := map[];
    var i := 0;
    ghost var done: seq<SensorData> := [];
    ghost var readings2 := NonNull(s2);
    while i < |s1|
      invariant 0 <= i <= |s1|
      invariant i > 0 ==> NullFree(s2)
      invariant |s2| > 0 ==> |done| == i && forall k :: 0 <= k < i ==> s1[k] == Some(done[k])
      invariant |s2| == 0 ==> done == []
      invariant m == Correlate(dist, done, readings2)
    {
      var row := ScanRow(dist, m, s1[i], s2);
      if row.Failure? {
        RowFailureMeetsNull(s1, s2, i);
        return row;
      }
      if |s2| > 0 {
        CorrelateSnoc(dist, done, s1[i].value, readings2);
        done := done + [s1[i].value];
      }
      m := row.value;
      i := i + 1;
    }
    if |s2| > 0 {
      NonNullOfNullFree(s1);
      assert done == NonNull(s1);
    } else {
      EmptyInputYieldsEmpty(dist, NonNull(s1), readings2);
    }
    NoNullMet(s1, s2);
    CorrelateSpec(dist, NonNull(s1), NonNull(s2));
    return Success(m);
  }
}
