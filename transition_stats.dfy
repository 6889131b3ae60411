/**
 * The transition query shared by the duration recomputation and the pattern
 * analysis: pairs of records of one light with differing RED/GREEN states and
 * no record strictly between them in time; the [5, 300] filter; and the
 * count, mean, minimum and maximum reported over the accepted durations.
 */
module TransitionStats {
  import opened StateRecords

  /** One row of the self-join: the two states and the two timestamps. */
  datatype Transition = Transition(prev: Signal, next: Signal, startTime: int, endTime: int)

  function Duration(t: Transition): int {
    t.endTime - t.startTime
  }

  predicate IsSignal(s: Signal) {
    s == Red || s == Green
  }

  /** No record of the light has a timestamp strictly between `lo` and `hi`. */
  predicate NothingBetween(rs: seq<StateRecord>, lo: int, hi: int) {
    forall k | 0 <= k < |rs| :: !(lo < rs[k].timestamp < hi)
  }

  /** The join condition for s1 = rs[i], s2 = rs[j]. */
  predicate Joins(rs: seq<StateRecord>, i: int, j: int)
    requires 0 <= i < |rs| && 0 <= j < |rs|
  {
    && rs[i].state != rs[j].state
    && rs[i].timestamp < rs[j].timestamp
    && IsSignal(rs[i].state)
    && IsSignal(rs[j].state)
    && NothingBetween(rs, rs[i].timestamp, rs[j].timestamp)
  }

  function TransitionOf(rs: seq<StateRecord>, i: int, j: int): Transition
    requires 0 <= i < |rs| && 0 <= j < |rs|
  {
    Transition(rs[i].state, rs[j].state, rs[i].timestamp, rs[j].timestamp)
  }

  /** The rows of the join whose s1 is rs[i], with s2 drawn from rs[j..], as index pairs (s1, s2). */
  function JoinedWith(rs: seq<StateRecord>, i: nat, j: nat): (ps: seq<(nat, nat)>)
    requires i < |rs| && j <= |rs|
    ensures forall p | p in ps :: p.0 == i && j <= p.1 < |rs| && Joins(rs, p.0, p.1)
    ensures forall k | j <= k < |rs| && Joins(rs, i, k) :: (i, k) in ps
    decreases |rs| - j
  {
    if j == |rs| then []
    else (if Joins(rs, i, j) then [(i, j)] else []) + JoinedWith(rs, i, j + 1)
  }

  /** The rows of the join whose s1 is one of rs[i..], in the order of s1. */
  function JoinRowsFrom(rs: seq<StateRecord>, i: nat): (ps: seq<(nat, nat)>)
    requires i <= |rs|
    ensures forall p | p in ps :: i <= p.0 < |rs| && p.1 < |rs| && Joins(rs, p.0, p.1)
    ensures forall a, b | i <= a < |rs| && 0 <= b < |rs| && Joins(rs, a, b) :: (a, b) in ps
    decreases |rs| - i
  {
    if i == |rs| then []
    else JoinedWith(rs, i, 0) + JoinRowsFrom(rs, i + 1)
  }

  /** The rows of the self-join over a light's records. */
  function JoinRows(rs: seq<StateRecord>): seq<(nat, nat)> {
    JoinRowsFrom(rs, 0)
  }

  predicate NoRepeats<T(==)>(s: seq<T>) {
    forall i, j | 0 <= i < j < |s| :: s[i] != s[j]
  }

  /** Concatenating two repeat-free sequences with no common element gives a repeat-free sequence. */
  lemma NoRepeatsConcat<T>(a: seq<T>, b: seq<T>)
    requires NoRepeats(a) && NoRepeats(b)
    requires forall x | x in a :: x !in b
    ensures NoRepeats(a + b)
  {
    var c := a + b;
    forall i, j | 0 <= i < j < |c| ensures c[i] != c[j] {
      if j < |a| {
        assert c[i] == a[i] && c[j] == a[j];
      } else if i < |a| {
        assert c[i] == a[i] && c[j] == b[j - |a|];
        assert c[i] in a;
      } else {
        assert c[i] == b[i - |a|] && c[j] == b[j - |a|];
      }
    }
  }

  lemma {:induction false} JoinedWithNoRepeats(rs: seq<StateRecord>, i: nat, j: nat)
    requires i < |rs| && j <= |rs|
    ensures NoRepeats(JoinedWith(rs, i, j))
    decreases |rs| - j
  {
    if j < |rs| {
      JoinedWithNoRepeats(rs, i, j + 1);
      var head: seq<(nat, nat)> := if Joins(rs, i, j) then [(i, j)] else [];
      NoRepeatsConcat(head, JoinedWith(rs, i, j + 1));
    }
  }

  /** Each joined pair of records is one row of the join, exactly once. */
  lemma {:induction false} JoinRowsNoRepeats(rs: seq<StateRecord>, i: nat)
    requires i <= |rs|
    ensures NoRepeats(JoinRowsFrom(rs, i))
    decreases |rs| - i
  {
    if i < |rs| {
      JoinedWithNoRepeats(rs, i, 0);
      JoinRowsNoRepeats(rs, i + 1);
      NoRepeatsConcat(JoinedWith(rs, i, 0), JoinRowsFrom(rs, i + 1));
    }
  }

  /** All transitions of a light's records: one per row of the join, in the order of the rows. */
  function Transitions(rs: seq<StateRecord>): (ts: seq<Transition>)
    ensures |ts| == |JoinRows(rs)|
  {
    var rows := JoinRows(rs);
    seq(|rows|, k requires 0 <= k < |rows| => TransitionOf(rs, rows[k].0, rows[k].1))
  }

  /**
   * A transition comes from a pair of records satisfying the join condition,
   * and every such pair gives one.
   */
  lemma TransitionsOfJoin(rs: seq<StateRecord>)
    ensures forall t | t in Transitions(rs) ::
              exists a, b | 0 <= a < |rs| && 0 <= b < |rs| :: Joins(rs, a, b) && t == TransitionOf(rs, a, b)
    ensures forall a, b | 0 <= a < |rs| && 0 <= b < |rs| && Joins(rs, a, b) :: TransitionOf(rs, a, b) in Transitions(rs)
  {
    var rows := JoinRows(rs);
    var ts := Transitions(rs);
    forall t | t in ts
      ensures exists a, b | 0 <= a < |rs| && 0 <= b < |rs| :: Joins(rs, a, b) && t == TransitionOf(rs, a, b)
    {
      var k :| 0 <= k < |ts| && ts[k] == t;
      assert rows[k] in rows;
    }
    forall a, b | 0 <= a < |rs| && 0 <= b < |rs| && Joins(rs, a, b) ensures TransitionOf(rs, a, b) in ts {
      assert (a, b) in rows;
      var k :| 0 <= k < |rows| && rows[k] == (a, b);
      assert ts[k] == TransitionOf(rs, a, b);
    }
  }

  /**
   * Over a strictly increasing history the join selects exactly the adjacent
   * pairs whose states differ and are both RED or GREEN.
   */
  lemma JoinsAdjacent(rs: seq<StateRecord>, i: nat, j: nat)
    requires StrictlyIncreasing(rs)
    requires i < |rs| && j < |rs|
    ensures Joins(rs, i, j) <==>
              j == i + 1 && rs[i].state != rs[j].state && IsSignal(rs[i].state) && IsSignal(rs[j].state)
  {
    if j == i + 1 {
      forall k | 0 <= k < |rs| ensures !(rs[i].timestamp < rs[k].timestamp < rs[j].timestamp) {
        if k <= i {
          assert k == i || rs[k].timestamp < rs[i].timestamp;
        } else {
          assert k == j || rs[j].timestamp < rs[k].timestamp;
        }
      }
    } else if j > i + 1 {
      assert rs[i].timestamp < rs[i + 1].timestamp < rs[j].timestamp;
    } else if j < i {
      assert rs[j].timestamp < rs[i].timestamp;
    }
  }

  /** Records `i` and `i + 1` are a change between RED and GREEN. */
  predicate ChangesAt(rs: seq<StateRecord>, i: nat)
    requires i + 1 < |rs|
  {
    rs[i].state != rs[i + 1].state && IsSignal(rs[i].state) && IsSignal(rs[i + 1].state)
  }

  /** The neighbouring pairs (i, i + 1) with i in [k, |rs|) that change between RED and GREEN, in order. */
  function AdjacentRowsFrom(rs: seq<StateRecord>, k: nat): seq<(nat, nat)>
    requires k <= |rs|
    decreases |rs| - k
  {
    if k == |rs| then []
    else (if k + 1 < |rs| && ChangesAt(rs, k) then [(k, k + 1)] else []) + AdjacentRowsFrom(rs, k + 1)
  }

  lemma {:induction false} JoinedWithIncreasing(rs: seq<StateRecord>, i: nat, j: nat)
    requires StrictlyIncreasing(rs)
    requires i < |rs| && j <= |rs|
    ensures JoinedWith(rs, i, j) == if j <= i + 1 < |rs| && ChangesAt(rs, i) then [(i, i + 1)] else []
    decreases |rs| - j
  {
    if j < |rs| {
      JoinedWithIncreasing(rs, i, j + 1);
      JoinsAdjacent(rs, i, j);
    }
  }

  /**
   * Over a strictly increasing history the rows of the join are exactly the
   * neighbouring RED/GREEN changes, each once, in timestamp order.
   */
  lemma {:induction false} JoinRowsAdjacent(rs: seq<StateRecord>, k: nat)
    requires StrictlyIncreasing(rs)
    requires k <= |rs|
    ensures JoinRowsFrom(rs, k) == AdjacentRowsFrom(rs, k)
    decreases |rs| - k
  {
    if k < |rs| {
      JoinedWithIncreasing(rs, k, 0);
      JoinRowsAdjacent(rs, k + 1);
    }
  }

  /**
   * After the repair pass every transition of the light spans a plausible
   * duration, so the [5, 300] filter of the recomputation drops nothing.
   */
  lemma RepairedTransitionsPlausible(s: seq<StateRecord>)
    ensures forall t | t in Transitions(Repaired(s)) :: Plausible(Duration(t))
  {
    var rs := Repaired(s);
    RepairedGapsPlausible(s);
    RepairedStrictlyIncreasing(s);
    TransitionsOfJoin(rs);
    forall t | t in Transitions(rs) ensures Plausible(Duration(t)) {
      var a, b :| 0 <= a < |rs| && 0 <= b < |rs| && Joins(rs, a, b) && t == TransitionOf(rs, a, b);
      JoinsAdjacent(rs, a, b);
    }
  }

  /** The recomputation keeps a transition of the wanted type whose duration is plausible. */
  predicate Accepts(t: Transition, prev: Signal, next: Signal) {
    t.prev == prev && t.next == next && Plausible(Duration(t))
  }

  /**
   * Durations of the transitions from `prev` to `next` that pass the
   * plausibility filter, in order: the list the recomputation appends to.
   */
  function AcceptedDurations(ts: seq<Transition>, prev: Signal, next: Signal): (ds: seq<int>)
    ensures |ds| <= |ts|
    ensures forall d | d in ds :: Plausible(d)
  {
    if ts == [] then []
    else
      var t := ts[|ts| - 1];
      assert ts == ts[..|ts| - 1] + [t];
      AcceptedDurations(ts[..|ts| - 1], prev, next) + (if Accepts(t, prev, next) then [Duration(t)] else [])
  }

  /** Every accepted duration is the duration of an accepted transition. */
  lemma {:induction false} AcceptedDurationsSound(ts: seq<Transition>, prev: Signal, next: Signal)
    ensures forall d | d in AcceptedDurations(ts, prev, next) ::
              exists t | t in ts :: Accepts(t, prev, next) && Duration(t) == d
    decreases |ts|
  {
    if ts != [] {
      var p, last := ts[..|ts| - 1], ts[|ts| - 1];
      AcceptedDurationsSound(p, prev, next);
      assert forall t | t in p :: t in ts;
      assert last in ts;
    }
  }

  /** Positions of the accepted transitions of duration `d`. */
  function AcceptedAt(ts: seq<Transition>, prev: Signal, next: Signal, d: int): set<nat> {
    set i: nat | i < |ts| && Accepts(ts[i], prev, next) && Duration(ts[i]) == d
  }

  /** One more transition adds its position exactly when it is accepted with duration `d`. */
  lemma AcceptedAtSnoc(p: seq<Transition>, t: Transition, prev: Signal, next: Signal, d: int)
    ensures AcceptedAt(p + [t], prev, next, d) ==
              AcceptedAt(p, prev, next, d) + (if Accepts(t, prev, next) && Duration(t) == d then {|p|} else {})
  {
    var ts := p + [t];
    forall i: nat
      ensures i in AcceptedAt(ts, prev, next, d) <==>
                i in AcceptedAt(p, prev, next, d) || (i == |p| && Accepts(t, prev, next) && Duration(t) == d)
    {
      if i < |p| {
        assert ts[i] == p[i];
      }
    }
  }

  /**
   * Each duration occurs in the accepted list as many times as there are
   * accepted transitions of that duration.
   */
  lemma {:induction false} AcceptedDurationsCount(ts: seq<Transition>, prev: Signal, next: Signal, d: int)
    ensures multiset(AcceptedDurations(ts, prev, next))[d] == |AcceptedAt(ts, prev, next, d)|
    decreases |ts|
  {
    if ts == [] {
      assert AcceptedAt(ts, prev, next, d) == {};
    } else {
      var p, last := ts[..|ts| - 1], ts[|ts| - 1];
      assert ts == p + [last];
      AcceptedDurationsCount(p, prev, next, d);
      AcceptedAtSnoc(p, last, prev, next, d);
      var tail := if Accepts(last, prev, next) then [Duration(last)] else [];
      assert AcceptedDurations(ts, prev, next) == AcceptedDurations(p, prev, next) + tail;
      var before := AcceptedAt(p, prev, next, d);
      if Accepts(last, prev, next) && Duration(last) == d {
        assert |p| !in before;
        assert |before + {|p|}| == |before| + 1;
      }
    }
  }

  /** No matching transition with a plausible duration is dropped by the filter. */
  lemma {:induction false} AcceptedDurationsComplete(ts: seq<Transition>, prev: Signal, next: Signal)
    ensures forall t | t in ts && t.prev == prev && t.next == next && Plausible(Duration(t)) ::
              Duration(t) in AcceptedDurations(ts, prev, next)
    decreases |ts|
  {
    if ts != [] {
      var p, last := ts[..|ts| - 1], ts[|ts| - 1];
      assert ts == p + [last];
      AcceptedDurationsComplete(p, prev, next);
      assert forall t | t in ts :: t in p || t == last;
    }
  }

  /** Accepting one more transition appends its duration exactly when it matches and is plausible. */
  lemma AcceptedDurationsSnoc(ts: seq<Transition>, t: Transition, prev: Signal, next: Signal)
    ensures AcceptedDurations(ts + [t], prev, next) ==
              AcceptedDurations(ts, prev, next) + (if Accepts(t, prev, next) then [Duration(t)] else [])
  {
    assert (ts + [t])[..|ts|] == ts;
  }

  /**
   * The source's loop over the transitions: one pass that filters by duration
   * and sorts each accepted duration into the RED->GREEN or GREEN->RED list.
   */
  method SplitDurations(ts: seq<Transition>) returns (redToGreen: seq<int>, greenToRed: seq<int>)
    ensures redToGreen == AcceptedDurations(ts, Red, Green)
    ensures greenToRed == AcceptedDurations(ts, Green, Red)
  {
    redToGreen, greenToRed := [], [];
    for i := 0 to |ts|
      invariant redToGreen == AcceptedDurations(ts[..i], Red, Green)
      invariant greenToRed == AcceptedDurations(ts[..i], Green, Red)
    {
      var t := ts[i];
      var duration := t.endTime - t.startTime;
      if MinPlausible <= duration <= MaxPlausible {
        if t.prev == Red && t.next == Green {
          redToGreen := redToGreen + [duration];
        } else if t.prev == Green && t.next == Red {
          greenToRed := greenToRed + [duration];
        }
      }
      assert ts[..i + 1] == ts[..i] + [t];
      assert redToGreen == AcceptedDurations(ts[..i + 1], Red, Green) by {
        AcceptedDurationsSnoc(ts[..i], t, Red, Green);
      }
      assert greenToRed == AcceptedDurations(ts[..i + 1], Green, Red) by {
        AcceptedDurationsSnoc(ts[..i], t, Green, Red);
      }
    }
    assert ts[..|ts|] == ts;
  }

  /** The analysis's grouping: transitions from `prev` to `next`, unfiltered. */
  function OfType(ts: seq<Transition>, prev: Signal, next: Signal): (r: seq<Transition>)
    ensures forall t | t in r :: t in ts && t.prev == prev && t.next == next
    ensures forall t | t in ts && t.prev == prev && t.next == next :: t in r
  {
    if ts == [] then []
    else
      var t := ts[|ts| - 1];
      assert ts == ts[..|ts| - 1] + [t];
      OfType(ts[..|ts| - 1], prev, next) + (if t.prev == prev && t.next == next then [t] else [])
  }

  /** The analysis's filter: durations in [5, 300] of the given transitions. */
  function PlausibleDurations(ts: seq<Transition>): (ds: seq<int>)
    ensures forall d | d in ds :: Plausible(d)
  {
    if ts == [] then []
    else
      var t := ts[|ts| - 1];
      PlausibleDurations(ts[..|ts| - 1]) + (if Plausible(Duration(t)) then [Duration(t)] else [])
  }

  /**
   * Grouping first and filtering second (the analysis) yields the same list as
   * the recomputation's single filtering pass.
   */
  lemma {:induction false} GroupThenFilter(ts: seq<Transition>, prev: Signal, next: Signal)
    ensures PlausibleDurations(OfType(ts, prev, next)) == AcceptedDurations(ts, prev, next)
    decreases |ts|
  {
    if ts != [] {
      var p := ts[..|ts| - 1];
      var t := ts[|ts| - 1];
      GroupThenFilter(p, prev, next);
      var g := OfType(p, prev, next);
      var tail := if Plausible(Duration(t)) then [Duration(t)] else [];
      assert AcceptedDurations(ts, prev, next) ==
        AcceptedDurations(p, prev, next) + (if t.prev == prev && t.next == next then tail else []);
      if t.prev == prev && t.next == next {
        var gt := g + [t];
        assert OfType(ts, prev, next) == gt;
        assert gt[..|gt| - 1] == g && gt[|gt| - 1] == t;
        assert PlausibleDurations(gt) == PlausibleDurations(g) + tail;
      } else {
        assert OfType(ts, prev, next) == g;
      }
    }
  }

  function Sum(ds: seq<int>): int {
    if ds == [] then 0 else Sum(ds[..|ds| - 1]) + ds[|ds| - 1]
  }

  /** Python's `sum(ds) / len(ds)`, exactly. */
  function Mean(ds: seq<int>): (m: real)
    requires |ds| > 0
    ensures m * (|ds| as real) == Sum(ds) as real
  {
    (Sum(ds) as real) / (|ds| as real)
  }

  /** Python's `min(ds)`. */
  function Min(ds: seq<int>): (m: int)
    requires |ds| > 0
    ensures m in ds
    ensures forall d | d in ds :: m <= d
  {
    if |ds| == 1 then ds[0]
    else
      var m := Min(ds[..|ds| - 1]);
      var x := ds[|ds| - 1];
      assert forall d | d in ds :: d in ds[..|ds| - 1] || d == x;
      if x < m then x else m
  }

  /** Python's `max(ds)`. */
  function Max(ds: seq<int>): (m: int)
    requires |ds| > 0
    ensures m in ds
    ensures forall d | d in ds :: d <= m
  {
    if |ds| == 1 then ds[0]
    else
      var m := Max(ds[..|ds| - 1]);
      var x := ds[|ds| - 1];
      assert forall d | d in ds :: d in ds[..|ds| - 1] || d == x;
      if x > m then x else m
  }

  /** The sum lies between |ds| copies of any lower bound and of any upper bound. */
  lemma {:induction false} SumBounds(ds: seq<int>, lo: int, hi: int)
    requires forall d | d in ds :: lo <= d <= hi
    ensures |ds| * lo <= Sum(ds) <= |ds| * hi
    decreases |ds|
  {
    if ds != [] {
      var p := ds[..|ds| - 1];
      var x := ds[|ds| - 1];
      assert forall d | d in p :: d in ds;
      SumBounds(p, lo, hi);
      assert x in ds;
      assert Sum(ds) == Sum(p) + x;
      assert |ds| * lo == |p| * lo + lo;
      assert |ds| * hi == |p| * hi + hi;
    }
  }

  /** Dividing a bounded integer total by a positive count keeps the bounds. */
  lemma DivideBounds(total: int, k: int, lo: int, hi: int)
    requires k > 0
    requires k * lo <= total <= k * hi
    ensures lo as real <= total as real / k as real <= hi as real
  {
    var q := total as real / k as real;
    assert q * (k as real) == total as real;
    assert (k * lo) as real == (k as real) * (lo as real);
    assert (k * hi) as real == (k as real) * (hi as real);
  }

  /** The mean lies between the minimum and the maximum of its durations. */
  lemma MeanBetween(ds: seq<int>)
    requires |ds| > 0
    ensures Min(ds) as real <= Mean(ds) <= Max(ds) as real
  {
    SumBounds(ds, Min(ds), Max(ds));
    DivideBounds(Sum(ds), |ds|, Min(ds), Max(ds));
  }

  /** A mean of accepted durations is itself a plausible duration. */
  lemma MeanPlausible(ds: seq<int>)
    requires |ds| > 0
    requires forall d | d in ds :: Plausible(d)
    ensures MinPlausible as real <= Mean(ds) <= MaxPlausible as real
  {
    MeanBetween(ds);
  }

  /** What the analysis reports for one transition type. */
  datatype Summary =
    | NotSeen                  // no transition of this type: nothing is reported
    | NoneValid                // transitions exist, none with a plausible duration
    | Stats(count: nat, average: real, shortest: int, longest: int)

  /** The report for one light. */
  datatype LightReport =
    | NoTransitions
    | Patterns(redToGreen: Summary, greenToRed: Summary)

  /** Statistics of one transition type: group, filter, then count/mean/min/max. */
  function Summarize(ts: seq<Transition>, prev: Signal, next: Signal): (r: Summary)
    ensures r.NotSeen? <==> !(exists t | t in ts :: t.prev == prev && t.next == next)
    ensures r.NoneValid? <==>
              (exists t | t in ts :: t.prev == prev && t.next == next) && AcceptedDurations(ts, prev, next) == []
    ensures r.Stats? ==>
              && r.count == |AcceptedDurations(ts, prev, next)| > 0
              && r.average == Mean(AcceptedDurations(ts, prev, next))
              && MinPlausible <= r.shortest
              && r.shortest as real <= r.average <= r.longest as real
              && r.longest <= MaxPlausible
              && r.shortest == Min(AcceptedDurations(ts, prev, next))
              && r.longest == Max(AcceptedDurations(ts, prev, next))
  {
    var group := OfType(ts, prev, next);
    GroupThenFilter(ts, prev, next);
    if group == [] then
      assert forall t | t in ts && t.prev == prev && t.next == next :: t in group;
      NotSeen
    else
      assert group[0] in ts;
      var ds := PlausibleDurations(group);
      if ds == [] then NoneValid
      else
        MeanBetween(ds);
        Stats(|ds|, Mean(ds), Min(ds), Max(ds))
  }

  /** The analysis of one light's records. */
  function AnalyzeLight(rs: seq<StateRecord>): (r: LightReport)
    ensures r.NoTransitions? <==> Transitions(rs) == []
    ensures r.Patterns? ==>
              r.redToGreen == Summarize(Transitions(rs), Red, Green) &&
              r.greenToRed == Summarize(Transitions(rs), Green, Red)
  {
    var ts := Transitions(rs);
    if ts == [] then NoTransitions
    else Patterns(Summarize(ts, Red, Green), Summarize(ts, Green, Red))
  }
}
