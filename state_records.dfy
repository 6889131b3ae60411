/**
 * One light's state history and the timestamp-repair pass of the duration
 * debugging tool: every record whose dwell gap to its (possibly already
 * repaired) predecessor is implausible is moved to a fixed distance after
 * that predecessor.
 */
module StateRecords {

  /** The `state` column of a state record; every label other than RED and GREEN is `Unknown`. */
  datatype Signal = Red | Green | Unknown

  /** A row of the state table for one light: its key, the state and the timestamp in seconds. */
  datatype StateRecord = StateRecord(id: int, state: Signal, timestamp: int)

  /** Bounds of a plausible dwell duration, in seconds. */
  const MinPlausible: int := 5
  const MaxPlausible: int := 300

  predicate Plausible(duration: int) {
    MinPlausible <= duration <= MaxPlausible
  }

  /** The dwell the repair substitutes: 30 s after a RED record, 15 s after any other. */
  function ReasonableDuration(prev: Signal): int {
    if prev == Red then 30 else 15
  }

  /** The repair of one record given its (already repaired) predecessor. */
  function RepairStep(prev: StateRecord, r: StateRecord): StateRecord {
    if Plausible(r.timestamp - prev.timestamp) then r
    else r.(timestamp := prev.timestamp + ReasonableDuration(prev.state))
  }

  /**
   * The records of one light after the pass, in fetch order. The last record is
   * repaired against the last record of the repaired prefix, so repairs chain.
   */
  function Repaired(s: seq<StateRecord>): (r: seq<StateRecord>)
    ensures |r| == |s|
  {
    if |s| <= 1 then s
    else
      var p := Repaired(s[..|s| - 1]);
      p + [RepairStep(p[|p| - 1], s[|s| - 1])]
  }

  /** Number of positions at which two equally long record sequences differ. */
  function Differences(a: seq<StateRecord>, b: seq<StateRecord>): (n: nat)
    requires |a| == |b|
    ensures n <= |a|
    ensures n == 0 <==> a == b
  {
    if |a| == 0 then 0
    else
      var n := Differences(a[..|a| - 1], b[..|b| - 1]);
      assert a == a[..|a| - 1] + [a[|a| - 1]] && b == b[..|b| - 1] + [b[|b| - 1]];
      n + (if a[|a| - 1] != b[|b| - 1] then 1 else 0)
  }

  /** Every consecutive gap of `s` is a plausible dwell duration. */
  ghost predicate GapsPlausible(s: seq<StateRecord>) {
    forall i | 0 < i < |s| :: Plausible(s[i].timestamp - s[i - 1].timestamp)
  }

  ghost predicate StrictlyIncreasing(s: seq<StateRecord>) {
    forall i, j | 0 <= i < j < |s| :: s[i].timestamp < s[j].timestamp
  }

  /** Records in the order `ORDER BY timestamp ASC` returns them. */
  ghost predicate Sorted(s: seq<StateRecord>) {
    forall i, j | 0 <= i < j < |s| :: s[i].timestamp <= s[j].timestamp
  }

  /** Repairing a prefix gives the prefix of the repaired sequence. */
  lemma {:induction false} RepairedPrefix(s: seq<StateRecord>, k: nat)
    requires k <= |s|
    ensures Repaired(s[..k]) == Repaired(s)[..k]
    decreases |s|
  {
    if k < |s| && |s| > 1 {
      RepairedPrefix(s[..|s| - 1], k);
      assert s[..|s| - 1][..k] == s[..k];
    } else if k == |s| {
      assert s[..k] == s;
    }
  }

  /**
   * The earliest record is never modified, and each later record is the repair
   * of the original against the REPAIRED predecessor.
   */
  lemma {:induction false} RepairedAt(s: seq<StateRecord>, i: nat)
    requires i < |s|
    ensures i == 0 ==> Repaired(s)[0] == s[0]
    ensures i > 0 ==> Repaired(s)[i] == RepairStep(Repaired(s)[i - 1], s[i])
    decreases |s|
  {
    if |s| > 1 && i < |s| - 1 {
      RepairedAt(s[..|s| - 1], i);
      RepairedPrefix(s, |s| - 1);
      assert Repaired(s)[..|s| - 1][i] == Repaired(s)[i];
      if i > 0 {
        assert Repaired(s)[..|s| - 1][i - 1] == Repaired(s)[i - 1];
      }
    }
  }

  /**
   * A record is rewritten exactly when it is not the first and its gap to the
   * repaired predecessor lies outside [5, 300]; a rewritten record sits 30 s
   * after a RED predecessor and 15 s after any other. Key and state never change.
   */
  lemma RepairedChangesIff(s: seq<StateRecord>, i: nat)
    requires i < |s|
    ensures Repaired(s)[i].id == s[i].id && Repaired(s)[i].state == s[i].state
    ensures Repaired(s)[i] != s[i] <==>
              i > 0 && !Plausible(s[i].timestamp - Repaired(s)[i - 1].timestamp)
    ensures Repaired(s)[i] != s[i] ==>
              Repaired(s)[i].timestamp ==
                Repaired(s)[i - 1].timestamp + ReasonableDuration(Repaired(s)[i - 1].state)
  {
    RepairedAt(s, i);
  }

  /** After the pass every consecutive gap lies in [5, 300]. */
  lemma RepairedGapsPlausible(s: seq<StateRecord>)
    ensures GapsPlausible(Repaired(s))
  {
    forall i | 0 < i < |s|
      ensures Plausible(Repaired(s)[i].timestamp - Repaired(s)[i - 1].timestamp)
    {
      RepairedAt(s, i);
    }
  }

  /** Plausible gaps make timestamps strictly increasing. */
  lemma {:induction false} PlausibleGapsIncrease(s: seq<StateRecord>)
    requires GapsPlausible(s)
    ensures StrictlyIncreasing(s)
    decreases |s|
  {
    if |s| > 1 {
      var p := s[..|s| - 1];
      assert GapsPlausible(p);
      PlausibleGapsIncrease(p);
      forall i, j | 0 <= i < j < |s| ensures s[i].timestamp < s[j].timestamp {
        if j < |s| - 1 {
          assert p[i] == s[i] && p[j] == s[j];
        } else if i < |s| - 2 {
          assert p[i] == s[i] && p[|s| - 2] == s[|s| - 2];
        }
      }
    }
  }

  /** The repaired timestamps of a light are strictly increasing. */
  lemma RepairedStrictlyIncreasing(s: seq<StateRecord>)
    ensures StrictlyIncreasing(Repaired(s))
  {
    RepairedGapsPlausible(s);
    PlausibleGapsIncrease(Repaired(s));
  }

  /** A history whose gaps are all plausible is left unchanged by the pass. */
  lemma {:induction false} RepairedOfPlausible(s: seq<StateRecord>)
    requires GapsPlausible(s)
    ensures Repaired(s) == s
    decreases |s|
  {
    if |s| > 1 {
      var p := s[..|s| - 1];
      assert GapsPlausible(p) by {
        forall i | 0 < i < |p| ensures Plausible(p[i].timestamp - p[i - 1].timestamp) {
          assert p[i] == s[i] && p[i - 1] == s[i - 1];
        }
      }
      RepairedOfPlausible(p);
      assert RepairStep(p[|p| - 1], s[|s| - 1]) == s[|s| - 1] by {
        assert p[|p| - 1] == s[|s| - 2];
      }
      calc {
        Repaired(s);
        p + [RepairStep(p[|p| - 1], s[|s| - 1])];
        p + [s[|s| - 1]];
        s;
      }
    }
  }

  /** Running the pass a second time repairs nothing. */
  lemma RepairedIdempotent(s: seq<StateRecord>)
    ensures Repaired(Repaired(s)) == Repaired(s)
    ensures Differences(Repaired(s), Repaired(Repaired(s))) == 0
  {
    RepairedGapsPlausible(s);
    RepairedOfPlausible(Repaired(s));
  }

  /** Repairing one more record appends its repair against the last repaired one. */
  lemma RepairedSnoc(s: seq<StateRecord>, i: nat)
    requires 1 <= i < |s|
    ensures Repaired(s[..i + 1]) == Repaired(s[..i]) + [RepairStep(Repaired(s[..i])[i - 1], s[i])]
  {
    assert s[..i + 1][..i] == s[..i];
  }

  /** Extending both sequences by one record adds one difference exactly when the records differ. */
  lemma DifferencesSnoc(a: seq<StateRecord>, b: seq<StateRecord>, x: StateRecord, y: StateRecord)
    requires |a| == |b|
    ensures Differences(a + [x], b + [y]) == Differences(a, b) + (if x != y then 1 else 0)
  {
    assert (a + [x])[..|a|] == a;
    assert (b + [y])[..|b|] == b;
  }

  /**
   * One step of the in-place pass: the array holding the repaired prefix
   * followed by the untouched rest becomes, after record `i` is overwritten
   * with its repair, the repaired prefix one longer followed by the rest.
   */
  lemma RepairLoopStep(s: seq<StateRecord>, i: nat)
    requires 1 <= i < |s|
    ensures var p, r := Repaired(s[..i]), RepairStep(Repaired(s[..i])[i - 1], s[i]);
      && (p + s[i..])[i] == s[i]
      && Repaired(s[..i + 1])[i] == r
      && Repaired(s[..i + 1]) + s[i + 1..] == (p + s[i..])[i := r]
      && (r == s[i] ==> Repaired(s[..i + 1]) + s[i + 1..] == p + s[i..])
      && Differences(s[..i + 1], Repaired(s[..i + 1])) == Differences(s[..i], p) + (if r != s[i] then 1 else 0)
  {
    var p := Repaired(s[..i]);
    var r := RepairStep(p[i - 1], s[i]);
    assert s[..i + 1] == s[..i] + [s[i]];
    assert Differences(s[..i + 1], Repaired(s[..i + 1])) == Differences(s[..i], p) + (if r != s[i] then 1 else 0) by {
      RepairedSnoc(s, i);
      DifferencesSnoc(s[..i], p, s[i], r);
    }
    assert (p + s[i..])[i := r] == p + [r] + s[i + 1..] by {
      assert s[i..] == [s[i]] + s[i + 1..];
    }
    RepairedSnoc(s, i);
  }

  /**
   * The pass over one light, in place on the fetched rows: `prev` plays the
   * source's prev_state/prev_timestamp/prev_id, `fixedCount` counts rewrites.
   */
  method RepairTimestamps(a: array<StateRecord>) returns (fixedCount: nat)
    modifies a
    ensures a[..] == Repaired(old(a[..]))
    ensures fixedCount == Differences(old(a[..]), a[..])
  {
    if a.Length < 2 {
      return 0;
    }
    ghost var s := a[..];
    fixedCount := 0;
    var prev := a[0];
    var i := 1;
    assert a[..] == Repaired(s[..1]) + s[1..];
    assert Differences(s[..1], Repaired(s[..1])) == 0;
    while i < a.Length
      invariant 1 <= i <= a.Length == |s|
      invariant a[..] == Repaired(s[..i]) + s[i..]
      invariant prev == Repaired(s[..i])[i - 1]
      invariant fixedCount == Differences(s[..i], Repaired(s[..i]))
    {
      ghost var before := a[..];
      RepairLoopStep(s, i);
      var rec := a[i];
      var duration := rec.timestamp - prev.timestamp;
      if duration < MinPlausible || duration > MaxPlausible {
        rec := rec.(timestamp := prev.timestamp + ReasonableDuration(prev.state));
        a[i] := rec;
        fixedCount := fixedCount + 1;
        assert a[..] == before[i := rec];
      }
      prev := rec;
      i := i + 1;
    }
    assert s[..a.Length] == s;
  }
}
