/**
 * The duration debugging tool over the whole database: the list of lights,
 * each light's state records in timestamp order, and the statistics table
 * keyed by (light, previous state, next state). The fix pass repairs every
 * light's timestamps and, for a light where something was repaired, stores
 * the mean accepted RED->GREEN and GREEN->RED durations.
 */
module DurationStore {
  import opened StateRecords
  import opened TransitionStats

  type LightId = int

  /**
   * The key of the statistics table. The model assumes a unique key on
   * (light_id, previous_state, next_state), so INSERT OR REPLACE keeps one
   * row per key and the table is a map.
   */
  datatype DurationKey = DurationKey(light: LightId, prev: Signal, next: Signal)

  /** A statistics row: the mean duration in seconds and the time it was written. */
  datatype DurationRow = DurationRow(duration: real, lastUpdated: int)

  /** Each light's state records, in the order the per-light query returns them. */
  type History = map<LightId, seq<StateRecord>>

  type Durations = map<DurationKey, DurationRow>

  /** The records the per-light query finds: none for a light without any. */
  function RecordsOf(h: History, l: LightId): seq<StateRecord> {
    if l in h then h[l] else []
  }

  /** The two keys the recomputation writes. */
  predicate IsStatKey(k: DurationKey) {
    (k.prev == Red && k.next == Green) || (k.prev == Green && k.next == Red)
  }

  /**
   * The row for `k` after an INSERT OR REPLACE of the mean of `ds`, which is
   * issued only when `ds` is not empty.
   */
  ghost predicate StoredMean(r: Durations, d: Durations, k: DurationKey, ds: seq<int>, now: int) {
    if ds == [] then (k in r <==> k in d) && (k in d ==> r[k] == d[k])
    else k in r && r[k] == DurationRow(Mean(ds), now)
  }

  /**
   * The statistics table after the recomputation for light `l` from its
   * (repaired) records `rows`.
   */
  function Recomputed(d: Durations, l: LightId, rows: seq<StateRecord>, now: int): (r: Durations)
    ensures d.Keys <= r.Keys
    ensures StoredMean(r, d, DurationKey(l, Red, Green), AcceptedDurations(Transitions(rows), Red, Green), now)
    ensures StoredMean(r, d, DurationKey(l, Green, Red), AcceptedDurations(Transitions(rows), Green, Red), now)
    ensures forall k | k in r && !(k in d && r[k] == d[k]) ::
              k.light == l && IsStatKey(k) && MinPlausible as real <= r[k].duration <= MaxPlausible as real
  {
    var ts := Transitions(rows);
    if ts == [] then d
    else
      var redToGreen := AcceptedDurations(ts, Red, Green);
      var greenToRed := AcceptedDurations(ts, Green, Red);
      var d1 :=
        if redToGreen != [] then
          MeanPlausible(redToGreen);
          d[DurationKey(l, Red, Green) := DurationRow(Mean(redToGreen), now)]
        else d;
      if greenToRed != [] then
        MeanPlausible(greenToRed);
        d1[DurationKey(l, Green, Red) := DurationRow(Mean(greenToRed), now)]
      else d1
  }

  /** The two INSERT OR REPLACE statements, one after the other, give `Recomputed`. */
  lemma RecomputedUnfold(d: Durations, l: LightId, rows: seq<StateRecord>, now: int, d1: Durations, d2: Durations)
    requires Transitions(rows) != []
    requires var ds := AcceptedDurations(Transitions(rows), Red, Green);
      d1 == if ds != [] then d[DurationKey(l, Red, Green) := DurationRow(Mean(ds), now)] else d
    requires var ds := AcceptedDurations(Transitions(rows), Green, Red);
      d2 == if ds != [] then d1[DurationKey(l, Green, Red) := DurationRow(Mean(ds), now)] else d1
    ensures d2 == Recomputed(d, l, rows, now)
  {
  }

  /**
   * One iteration of the pass over lights: repair, then recompute if anything
   * was fixed. Only the visited light's records change, to their repair (a
   * light with fewer than two records is its own repair).
   */
  function FixLight(h: History, d: Durations, l: LightId, now: int): (r: (History, Durations))
    ensures r.0.Keys == h.Keys
    ensures RecordsOf(r.0, l) == Repaired(RecordsOf(h, l))
    ensures forall m | m != l :: RecordsOf(r.0, m) == RecordsOf(h, m)
    ensures d.Keys <= r.1.Keys
  {
    var rows := RecordsOf(h, l);
    if |rows| < 2 then (h, d)
    else
      var fixed := Repaired(rows);
      (h[l := fixed], if Differences(rows, fixed) > 0 then Recomputed(d, l, fixed, now) else d)
  }

  /** The whole pass: the lights in the order the light query returns them. */
  function FixAll(lights: seq<LightId>, h: History, d: Durations, now: int): (r: (History, Durations))
    ensures r.0.Keys == h.Keys
    ensures d.Keys <= r.1.Keys
    ensures forall m | m !in lights :: RecordsOf(r.0, m) == RecordsOf(h, m)
  {
    if lights == [] then (h, d)
    else
      var prefix := FixAll(lights[..|lights| - 1], h, d, now);
      FixLight(prefix.0, prefix.1, lights[|lights| - 1], now)
  }

  /** The pass repairs at least one of the light's records. */
  ghost predicate Repairs(h: History, l: LightId) {
    Differences(RecordsOf(h, l), Repaired(RecordsOf(h, l))) > 0
  }

  /** The mean the recomputation derives for `k` from the light's repaired history. */
  ghost predicate HoldsRepairedMean(h: History, r: Durations, k: DurationKey, now: int) {
    var ds := AcceptedDurations(Transitions(Repaired(RecordsOf(h, k.light))), k.prev, k.next);
    ds != [] && k in r && r[k] == DurationRow(Mean(ds), now)
  }

  /**
   * After the pass every listed light holds its repaired records (a light
   * listed twice is repaired once: the second visit finds nothing to fix) and
   * every other light is untouched.
   */
  lemma {:induction false} FixAllHistory(lights: seq<LightId>, h: History, d: Durations, now: int, l: LightId)
    ensures FixAll(lights, h, d, now).0.Keys == h.Keys
    ensures RecordsOf(FixAll(lights, h, d, now).0, l) ==
              if l in lights then Repaired(RecordsOf(h, l)) else RecordsOf(h, l)
    decreases |lights|
  {
    if lights != [] {
      var init, last := lights[..|lights| - 1], lights[|lights| - 1];
      assert lights == init + [last];
      FixAllHistory(init, h, d, now, l);
      FixAllHistory(init, h, d, now, last);
      var hp := FixAll(init, h, d, now).0;
      var rows := RecordsOf(hp, last);
      var hl := FixAll(lights, h, d, now).0;
      assert hl == FixLight(hp, FixAll(init, h, d, now).1, last, now).0;
      if |rows| < 2 {
        assert hl == hp;
        if l == last {
          assert Repaired(RecordsOf(h, l)) == RecordsOf(h, l) || l in init;
        }
      } else {
        assert last in hp;
        assert hl == hp[last := Repaired(rows)];
        if l == last {
          RepairedIdempotent(RecordsOf(h, last));
        }
      }
    }
  }

  /** One visit changes only the statistics of its light, and only when it repairs something. */
  lemma FixLightStatistics(h: History, d: Durations, l: LightId, now: int)
    ensures d.Keys <= FixLight(h, d, l, now).1.Keys
    ensures forall k | k in FixLight(h, d, l, now).1 && !(k in d && FixLight(h, d, l, now).1[k] == d[k]) ::
              k.light == l && Repairs(h, l) && IsStatKey(k) && HoldsRepairedMean(h, FixLight(h, d, l, now).1, k, now)
    ensures forall k: DurationKey | k.light == l && IsStatKey(k) && Repairs(h, l) &&
                       AcceptedDurations(Transitions(Repaired(RecordsOf(h, l))), k.prev, k.next) != [] ::
              HoldsRepairedMean(h, FixLight(h, d, l, now).1, k, now)
  {
    var rows := RecordsOf(h, l);
    if |rows| >= 2 {
      var fixed := Repaired(rows);
      if Differences(rows, fixed) > 0 {
        var r := Recomputed(d, l, fixed, now);
        forall k | k in r && !(k in d && r[k] == d[k])
          ensures HoldsRepairedMean(h, r, k, now)
        {
          assert k == DurationKey(l, Red, Green) || k == DurationKey(l, Green, Red);
        }
      }
    } else {
      assert Differences(rows, Repaired(rows)) == 0;
    }
  }

  /**
   * The statistics after the pass: no row is lost; a row changes only for a
   * listed light whose history the pass repaired, and then holds the mean
   * accepted duration of that light's repaired history, which lies in
   * [5, 300]; and every such light with accepted durations gets its row.
   */
  lemma {:induction false} FixAllDurations(lights: seq<LightId>, h: History, d: Durations, now: int)
    ensures d.Keys <= FixAll(lights, h, d, now).1.Keys
    ensures forall k | k in FixAll(lights, h, d, now).1 && !(k in d && FixAll(lights, h, d, now).1[k] == d[k]) ::
              && k.light in lights && Repairs(h, k.light) && IsStatKey(k)
              && HoldsRepairedMean(h, FixAll(lights, h, d, now).1, k, now)
              && MinPlausible as real <= FixAll(lights, h, d, now).1[k].duration <= MaxPlausible as real
    ensures forall k: DurationKey | k.light in lights && IsStatKey(k) && Repairs(h, k.light) &&
                       AcceptedDurations(Transitions(Repaired(RecordsOf(h, k.light))), k.prev, k.next) != [] ::
              HoldsRepairedMean(h, FixAll(lights, h, d, now).1, k, now)
    decreases |lights|
  {
    if lights != [] {
      var init, last := lights[..|lights| - 1], lights[|lights| - 1];
      assert lights == init + [last];
      FixAllDurations(init, h, d, now);
      var prefix := FixAll(init, h, d, now);
      var (hp, dp) := prefix;
      var r := FixAll(lights, h, d, now).1;
      assert r == FixLight(hp, dp, last, now).1;
      FixLightStatistics(hp, dp, last, now);
      FixAllHistory(init, h, d, now, last);
      RepairedIdempotent(RecordsOf(h, last));
      // A visit to an already repaired light changes nothing.
      assert last in init ==> !Repairs(hp, last);
      assert last !in init ==> RecordsOf(hp, last) == RecordsOf(h, last);
      forall k | k in r && !(k in d && r[k] == d[k])
        ensures k.light in lights && Repairs(h, k.light) && IsStatKey(k) && HoldsRepairedMean(h, r, k, now)
        ensures MinPlausible as real <= r[k].duration <= MaxPlausible as real
      {
        var ds := AcceptedDurations(Transitions(Repaired(RecordsOf(h, k.light))), k.prev, k.next);
        if !(k in dp && r[k] == dp[k]) {
          assert k.light == last;
        }
        MeanPlausible(ds);
      }
      forall k: DurationKey | k.light in lights && IsStatKey(k) && Repairs(h, k.light) &&
                 AcceptedDurations(Transitions(Repaired(RecordsOf(h, k.light))), k.prev, k.next) != []
        ensures HoldsRepairedMean(h, r, k, now)
      {
        if k.light in init {
          assert HoldsRepairedMean(h, dp, k, now);
          assert k in r && r[k] == dp[k];
        }
      }
    }
  }

  /** The database the duration tool works on. */
  class Store {
    var lights: seq<LightId>
    var history: History
    var durations: Durations

    /** Every light's records are in timestamp order, as the per-light query returns them. */
    ghost predicate Valid()
      reads this
    {
      forall l | l in history :: Sorted(history[l])
    }

    constructor (lights: seq<LightId>, history: History, durations: Durations)
      requires forall l | l in history :: Sorted(history[l])
      ensures Valid()
      ensures this.lights == lights && this.history == history && this.durations == durations
    {
      this.lights := lights;
      this.history := history;
      this.durations := durations;
    }

    /** The fix pass, committed as a whole; `now` is the clock reading written to last_updated. */
    method FixUnreasonableDurations(now: int)
      requires Valid()
      modifies this
      ensures Valid()
      ensures lights == old(lights)
      ensures (history, durations) == FixAll(lights, old(history), old(durations), now)
    {
      for i := 0 to |lights|
        invariant Valid()
        invariant lights == old(lights)
        invariant (history, durations) == FixAll(lights[..i], old(history), old(durations), now)
      {
        assert lights[..i + 1] == lights[..i] + [lights[i]];
        FixLightDurations(lights[i], now);
      }
      assert lights[..|lights|] == lights;
    }

    /**
     * One iteration of the pass: repair the light's records in place and, if
     * anything was fixed, recompute and store its average durations.
     */
    method FixLightDurations(l: LightId, now: int)
      requires Valid()
      modifies this
      ensures Valid()
      ensures lights == old(lights)
      ensures (history, durations) == FixLight(old(history), old(durations), l, now)
    {
      var rows := RecordsOf(history, l);
      if |rows| < 2 {
        return;
      }
      var a := new StateRecord[|rows|](k requires 0 <= k < |rows| => rows[k]);
      assert a[..] == rows;
      var fixedCount := RepairTimestamps(a);
      var fixed := a[..];
      assert Sorted(fixed) by {
        RepairedStrictlyIncreasing(rows);
      }
      history := history[l := fixed];
      if fixedCount > 0 {
        var transitions := Transitions(fixed);
        if transitions == [] {
          return;
        }
        var redToGreen, greenToRed := SplitDurations(transitions);
        ghost var d0 := durations;
        if redToGreen != [] {
          durations := durations[DurationKey(l, Red, Green) := DurationRow(Mean(redToGreen), now)];
        }
        ghost var d1 := durations;
        if greenToRed != [] {
          durations := durations[DurationKey(l, Green, Red) := DurationRow(Mean(greenToRed), now)];
        }
        RecomputedUnfold(d0, l, fixed, now, d1, durations);
      }
    }

    /** The pattern analysis of every light, in the order of the light query; it changes nothing. */
    method AnalyzeTrafficPatterns() returns (reports: seq<LightReport>)
      ensures |reports| == |lights|
      ensures forall i | 0 <= i < |lights| :: reports[i] == AnalyzeLight(RecordsOf(history, lights[i]))
    {
      reports := [];
      for i := 0 to |lights|
        invariant |reports| == i
        invariant forall k | 0 <= k < i :: reports[k] == AnalyzeLight(RecordsOf(history, lights[k]))
      {
        var report := AnalyzeLight(RecordsOf(history, lights[i]));
        reports := reports + [report];
      }
    }
  }
}
