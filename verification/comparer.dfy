/** Shared/Comparers/TrackedItemComparer.cs: the urgency ordering of tracked
    items. An item used recently (more than a day later than the other) is
    greater; between items used within a day of each other, the one due
    sooner is greater. The clock reading is the parameter `now`. */
module Comparers {
  import opened Wrappers
  import opened Clock
  import opened Records
  import Tracking

  /** The latest actual timestamp of a non-empty history. */
  function MaxActual(occ: seq<Occurrence>): (m: Ticks)
    requires |occ| > 0
    ensures exists i :: 0 <= i < |occ| && m == occ[i].actual
    ensures forall i :: 0 <= i < |occ| ==> occ[i].actual <= m
  {
    if |occ| == 1 then occ[0].actual
    else
      var rest := MaxActual(occ[1..]);
      assert forall i :: 1 <= i < |occ| ==> occ[i] == occ[1..][i - 1];
      if occ[0].actual >= rest then occ[0].actual else rest
  }

  /** The first projected occurrence, or the largest representable time
      when nothing constrains the item. */
  function NextDue(item: Tracking.TrackedItem, now: Ticks): (r: Ticks)
    ensures !Tracking.HasEligible(item.targets) ==> r == MaxValue
    ensures Tracking.HasEligible(item.targets) ==>
              var ts := Tracking.EligibleTargets(item.targets);
              |ts| > 0 && Tracking.AllEligible(ts)
              && r == Tracking.ProjectStep(ts, now, Tracking.Safeties(item.pastOccurrences))
              && r >= now
  {
    var next := Tracking.GetFutureOccurrences(item, now, 1);
    if |next| == 0 then MaxValue
    else
      var ts := Tracking.EligibleTargets(item.targets);
      var history := Tracking.Safeties(item.pastOccurrences);
      assert |ts| > 0;
      assert next == Tracking.FutureSteps(ts, now, history, 1);
      assert history + next[..0] == history;
      next[0]
  }

  /** `DateTime.CompareTo`: the sign of `a - b`. */
  function CompareTicks(a: Ticks, b: Ticks): (r: int)
    ensures r == -1 <==> a < b
    ensures r == 0 <==> a == b
    ensures r == 1 <==> a > b
  {
    if a < b then -1 else if a > b then 1 else 0
  }

  /** `TrackedItemComparer.Compare`. */
  function Compare(x: Tracking.TrackedItem, y: Tracking.TrackedItem, now: Ticks): (r: int)
    ensures -1 <= r <= 1
    ensures |x.pastOccurrences| == 0 && |y.pastOccurrences| == 0 ==> r == 0
    ensures |x.pastOccurrences| > 0 && |y.pastOccurrences| == 0 ==> r == 1
    ensures |x.pastOccurrences| == 0 && |y.pastOccurrences| > 0 ==> r == -1
    ensures |x.pastOccurrences| > 0 && |y.pastOccurrences| > 0 ==>
              var d := MaxActual(x.pastOccurrences) - MaxActual(y.pastOccurrences);
              && (d > TicksPerDay ==> r == 1)
              && (d < -TicksPerDay ==> r == -1)
              && (-TicksPerDay <= d <= TicksPerDay ==>
                    && (r == 1 <==> NextDue(x, now) < NextDue(y, now))
                    && (r == 0 <==> NextDue(x, now) == NextDue(y, now))
                    && (r == -1 <==> NextDue(x, now) > NextDue(y, now)))
  {
    if |x.pastOccurrences| > 0 then
      if |y.pastOccurrences| > 0 then
        var diff := MaxActual(x.pastOccurrences) - MaxActual(y.pastOccurrences);
        if diff > TicksPerDay then 1
        else if diff < -TicksPerDay then -1
        else 0 - CompareTicks(NextDue(x, now), NextDue(y, now))
      else 1
    else if |y.pastOccurrences| > 0 then -1
    else 0
  }

  /** `TrackedItemComparerDescending.Compare`: the same ordering reversed,
      which is the ordering with the arguments swapped. */
  function CompareDescending(x: Tracking.TrackedItem, y: Tracking.TrackedItem, now: Ticks): (r: int)
    ensures r == -Compare(x, y, now)
    ensures r == Compare(y, x, now)
  {
    CompareAntisymmetric(x, y, now);
    0 - Compare(x, y, now)
  }

  /** Swapping the arguments negates the answer. */
  lemma CompareAntisymmetric(x: Tracking.TrackedItem, y: Tracking.TrackedItem, now: Ticks)
    ensures Compare(x, y, now) == -Compare(y, x, now)
  {
  }

  /** Every item is equal to itself. */
  lemma CompareReflexive(x: Tracking.TrackedItem, now: Ticks)
    ensures Compare(x, x, now) == 0
  {
  }

  /** An unconstrained item with one occurrence at `at`. */
  function Unconstrained(at: Ticks): (item: Tracking.TrackedItem)
    ensures |item.pastOccurrences| == 1 && item.pastOccurrences[0].actual == at
    ensures !Tracking.HasEligible(item.targets)
  {
    Tracking.TrackedItem(0, [Occurrence(at, at, None)], [], None, [])
  }

  /** The ordering is not transitive in its equalities: items last used a
      day apart compare equal pairwise, while the two ends, two days apart,
      do not. A sort that relies on a consistent ordering may therefore
      place such items in any order. */
  lemma CompareNotTransitive(now: Ticks)
    ensures var x := Unconstrained(0);
            var y := Unconstrained(TicksPerDay);
            var z := Unconstrained(2 * TicksPerDay);
            Compare(x, y, now) == 0 && Compare(y, z, now) == 0 && Compare(x, z, now) == -1
  {
    var x := Unconstrained(0);
    var y := Unconstrained(TicksPerDay);
    var z := Unconstrained(2 * TicksPerDay);
    assert MaxActual(x.pastOccurrences) == 0;
    assert MaxActual(y.pastOccurrences) == TicksPerDay;
    assert MaxActual(z.pastOccurrences) == 2 * TicksPerDay;
  }
}
