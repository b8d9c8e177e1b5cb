/** Shared/TrackedItem.cs: an item with rate constraints and a history of
    occurrences. It combines its eligible targets by taking the latest
    (worst) answer, projects future occurrences, records new occurrences
    with retroactive repair of later ones, and hands off old occurrences to
    an archive. */
module Tracking {
  import opened Wrappers
  import opened Clock
  import opened Records
  import Targets
  import StableSort
  import Projection

  datatype TrackedItem = TrackedItem(
    id: nat,
    pastOccurrences: seq<Occurrence>,
    targets: seq<Targets.Target>,
    defaultStockUsage: Option<real>,
    stockAcquisitions: seq<StockAcquisition>)

  // ---------------------------------------------------------------------
  // Eligible targets and their combination
  // ---------------------------------------------------------------------

  /** The eligible targets, in their original order. */
  function EligibleTargets(ts: seq<Targets.Target>): (r: seq<Targets.Target>)
    ensures forall t :: t in r <==> t in ts && Targets.Eligible(t)
  {
    if |ts| == 0 then []
    else
      var init := ts[..|ts| - 1];
      var last := ts[|ts| - 1];
      assert ts == init + [last];
      EligibleTargets(init) + (if Targets.Eligible(last) then [last] else [])
  }

  /** Filtering a list of eligible targets keeps it whole. */
  lemma {:induction false} EligibleTargetsAll(ts: seq<Targets.Target>)
    requires AllEligible(ts)
    ensures EligibleTargets(ts) == ts
  {
    if |ts| > 0 {
      var init := ts[..|ts| - 1];
      var last := ts[|ts| - 1];
      assert ts == init + [last];
      assert AllEligible(init) by {
        forall t | t in init ensures Targets.Eligible(t) {
          assert t in ts;
        }
      }
      assert Targets.Eligible(last) by {
        assert last in ts;
      }
      EligibleTargetsAll(init);
      assert EligibleTargets(ts) == EligibleTargets(init) + [last];
    }
  }

  predicate HasEligible(ts: seq<Targets.Target>) {
    exists t :: t in ts && Targets.Eligible(t)
  }

  predicate AllEligible(ts: seq<Targets.Target>) {
    forall t :: t in ts ==> Targets.Eligible(t)
  }

  /** The two per-target predictions. */
  datatype Rule = Earliest | Spaced

  function Predict(t: Targets.Target, rule: Rule, now: Ticks, past: seq<Ticks>): Ticks
    requires Targets.Eligible(t)
  {
    match rule
    case Earliest => Targets.GetEarliestOccurrence(t, now, past)
    case Spaced => Targets.GetSpacedOccurrence(t, now, past)
  }

  /** `v` is the latest prediction among the eligible targets of `ts`. */
  ghost predicate IsCombined(ts: seq<Targets.Target>, rule: Rule, now: Ticks, past: seq<Ticks>, v: Ticks) {
    && (exists t :: t in ts && Targets.Eligible(t) && v == Predict(t, rule, now, past))
    && (forall t :: t in ts && Targets.Eligible(t) ==> Predict(t, rule, now, past) <= v)
  }

  /** The latest prediction over a non-empty list of eligible targets
      (`Select(...).Max()`): an occurrence is due only when every
      constraint allows it. */
  function Combined(ts: seq<Targets.Target>, rule: Rule, now: Ticks, past: seq<Ticks>): (r: Ticks)
    requires |ts| > 0 && AllEligible(ts)
    ensures r >= now
  {
    var here := Predict(ts[0], rule, now, past);
    if |ts| == 1 then here
    else
      var rest := Combined(ts[1..], rule, now, past);
      if here >= rest then here else rest
  }

  /** The combination is one of the predictions and none is later. */
  lemma {:induction false} CombinedIsLatest(ts: seq<Targets.Target>, rule: Rule, now: Ticks, past: seq<Ticks>)
    requires |ts| > 0 && AllEligible(ts)
    ensures IsCombined(ts, rule, now, past, Combined(ts, rule, now, past))
  {
    var here := Predict(ts[0], rule, now, past);
    assert ts[0] in ts;
    if |ts| > 1 {
      var tail := ts[1..];
      CombinedIsLatest(tail, rule, now, past);
      var rest := Combined(tail, rule, now, past);
      var v := Combined(ts, rule, now, past);
      assert v == if here >= rest then here else rest;
      forall t | t in ts && Targets.Eligible(t) ensures Predict(t, rule, now, past) <= v {
        if t != ts[0] {
          assert t in tail;
        }
      }
      if here < rest {
        var w :| w in tail && Targets.Eligible(w) && rest == Predict(w, rule, now, past);
        assert w in ts;
      }
    }
  }

  /** The latest spaced prediction is never before the latest earliest
      prediction. */
  lemma SpacedCombinedNotBefore(ts: seq<Targets.Target>, now: Ticks, past: seq<Ticks>)
    requires |ts| > 0 && AllEligible(ts)
    ensures Combined(ts, Earliest, now, past) <= Combined(ts, Spaced, now, past)
  {
    CombinedIsLatest(ts, Earliest, now, past);
    CombinedIsLatest(ts, Spaced, now, past);
    var e := Combined(ts, Earliest, now, past);
    var t :| t in ts && Targets.Eligible(t) && e == Predict(t, Earliest, now, past);
    assert Predict(t, Earliest, now, past) <= Predict(t, Spaced, now, past);
  }

  // ---------------------------------------------------------------------
  // Histories
  // ---------------------------------------------------------------------

  /** The safety timestamps of a history, in list order. */
  function Safeties(occ: seq<Occurrence>): (r: seq<Ticks>)
    ensures |r| == |occ|
    ensures forall i :: 0 <= i < |occ| ==> r[i] == occ[i].safety
  {
    seq(|occ|, i requires 0 <= i < |occ| => occ[i].safety)
  }

  /** The safety timestamps of the entries that really happened before
      `stamp`, in list order. */
  function SafetiesBefore(occ: seq<Occurrence>, stamp: Ticks): (r: seq<Ticks>)
    ensures |r| <= |occ|
  {
    if |occ| == 0 then []
    else
      var init := occ[..|occ| - 1];
      var last := occ[|occ| - 1];
      SafetiesBefore(init, stamp) + (if last.actual < stamp then [last.safety] else [])
  }

  /** The filter distributes over concatenation. */
  lemma {:induction false} SafetiesBeforeConcat(a: seq<Occurrence>, b: seq<Occurrence>, stamp: Ticks)
    ensures SafetiesBefore(a + b, stamp) == SafetiesBefore(a, stamp) + SafetiesBefore(b, stamp)
    decreases |b|
  {
    if |b| == 0 {
      assert a + b == a;
    } else {
      var b' := b[..|b| - 1];
      assert (a + b)[..|a + b| - 1] == a + b';
      SafetiesBeforeConcat(a, b', stamp);
    }
  }

  // ---------------------------------------------------------------------
  // TrackedItem.GetStatus
  // ---------------------------------------------------------------------

  function WorstStatus(ts: seq<Targets.Target>, now: Ticks, past: seq<Ticks>): (r: Targets.Status)
    requires |ts| > 0
    ensures exists t :: t in ts && r == Targets.GetStatus(t, now, past)
    ensures forall t :: t in ts ==> Targets.Rank(Targets.GetStatus(t, now, past)) <= Targets.Rank(r)
  {
    var here := Targets.GetStatus(ts[0], now, past);
    if |ts| == 1 then here
    else
      assert forall t :: t in ts ==> t == ts[0] || t in ts[1..];
      Targets.MaxStatus(here, WorstStatus(ts[1..], now, past))
  }

  /** Ok when nothing constrains the item; otherwise the worst status of
      the eligible targets over the safety timestamps. */
  function GetStatus(item: TrackedItem, now: Ticks): (r: Targets.Status)
    ensures !HasEligible(item.targets) ==> r == Targets.Ok
    ensures HasEligible(item.targets) ==>
              var past := Safeties(item.pastOccurrences);
              && (exists t :: t in item.targets && Targets.Eligible(t) && r == Targets.GetStatus(t, now, past))
              && (forall t :: t in item.targets && Targets.Eligible(t) ==>
                    Targets.Rank(Targets.GetStatus(t, now, past)) <= Targets.Rank(r))
  {
    var eligible := EligibleTargets(item.targets);
    if |eligible| == 0 then Targets.Ok
    else WorstStatus(eligible, now, Safeties(item.pastOccurrences))
  }

  // ---------------------------------------------------------------------
  // TrackedItem.GetFutureOccurrences
  // ---------------------------------------------------------------------

  /** One projection step at a fixed `now`: the latest earliest prediction,
      replaced by the latest spaced prediction when that is exactly `now`
      and every eligible target allows more than one occurrence. */
  function ProjectStep(ts: seq<Targets.Target>, now: Ticks, history: seq<Ticks>): (r: Ticks)
    requires |ts| > 0 && AllEligible(ts)
    ensures r >= Combined(ts, Earliest, now, history) >= now
    ensures r != Combined(ts, Earliest, now, history) ==>
              Combined(ts, Earliest, now, history) == now && forall t :: t in ts ==> t.qty > 1
    ensures Combined(ts, Earliest, now, history) == now && (forall t :: t in ts ==> t.qty > 1) ==>
              r == Combined(ts, Spaced, now, history)
  {
    var next := Combined(ts, Earliest, now, history);
    if next == now && forall t :: t in ts ==> t.qty > 1 then
      SpacedCombinedNotBefore(ts, now, history);
      Combined(ts, Spaced, now, history)
    else next
  }

  /** `k` projection steps at a fixed `now`, each fed back into the
      simulated history: every value is the step applied to the history
      extended by all values projected before it. */
  function FutureSteps(ts: seq<Targets.Target>, now: Ticks, history: seq<Ticks>, k: nat): (r: seq<Ticks>)
    requires |ts| > 0 && AllEligible(ts)
    ensures |r| == k
    ensures forall i :: 0 <= i < k ==> r[i] == ProjectStep(ts, now, history + r[..i])
    ensures forall i :: 0 <= i < k ==> r[i] >= now
  {
    Projection.Unfold((h: seq<Ticks>) requires |ts| > 0 && AllEligible(ts) => ProjectStep(ts, now, h), history, k)
  }

  /** `count` future due times at a fixed `now`, or none when nothing
      constrains the item; the item itself is left as it was. */
  function GetFutureOccurrences(item: TrackedItem, now: Ticks, count: int): (r: seq<Ticks>)
    ensures !HasEligible(item.targets) ==> r == []
    ensures HasEligible(item.targets) ==> |r| == if count > 0 then count else 0
    ensures forall i :: 0 <= i < |r| ==> r[i] >= now
    ensures var eligible := EligibleTargets(item.targets);
            |eligible| > 0 ==>
              forall i :: 0 <= i < |r| ==> r[i] == ProjectStep(eligible, now, Safeties(item.pastOccurrences) + r[..i])
  {
    var eligible := EligibleTargets(item.targets);
    if |eligible| == 0 then []
    else
      assert HasEligible(item.targets) by {
        assert eligible[0] in eligible;
      }
      FutureSteps(eligible, now, Safeties(item.pastOccurrences), if count > 0 then count else 0)
  }

  // ---------------------------------------------------------------------
  // TrackedItem.GetFutureSpacedOccurrences
  // ---------------------------------------------------------------------

  /** `k` spaced steps, each asked at the time the previous one named, over
      the history extended by all values produced before it. */
  function SpacedSteps(ts: seq<Targets.Target>, cursor: Ticks, history: seq<Ticks>, k: nat): (r: seq<Ticks>)
    requires |ts| > 0 && AllEligible(ts)
    ensures |r| == k
    ensures k > 0 ==> r[0] == Combined(ts, Spaced, cursor, history)
    ensures forall i :: 0 < i < k ==> r[i] == Combined(ts, Spaced, r[i - 1], history + r[..i])
    ensures forall i :: 0 <= i < k ==> r[i] >= cursor
    ensures forall i, j :: 0 <= i <= j < k ==> r[i] <= r[j]
    decreases k
  {
    if k == 0 then []
    else
      var next := Combined(ts, Spaced, cursor, history);
      var rest := SpacedSteps(ts, next, history + [next], k - 1);
      SpacedStepsCons(ts, cursor, history, next, rest);
      Projection.ConsMonotone(cursor, next, rest);
      [next] + rest
  }

  /** Prepending the first step to the chain that starts from it gives the
      chain that starts from `cursor`. */
  lemma SpacedStepsCons(ts: seq<Targets.Target>, cursor: Ticks, history: seq<Ticks>, next: Ticks, rest: seq<Ticks>)
    requires |ts| > 0 && AllEligible(ts)
    requires next == Combined(ts, Spaced, cursor, history)
    requires |rest| > 0 ==> rest[0] == Combined(ts, Spaced, next, history + [next])
    requires forall i :: 0 < i < |rest| ==> rest[i] == Combined(ts, Spaced, rest[i - 1], history + [next] + rest[..i])
    ensures var r := [next] + rest;
            forall i :: 0 < i < |r| ==> r[i] == Combined(ts, Spaced, r[i - 1], history + r[..i])
  {
    var r := [next] + rest;
    forall i | 0 < i < |r| ensures r[i] == Combined(ts, Spaced, r[i - 1], history + r[..i]) {
      Projection.ConsIndex(history, next, rest, i);
    }
  }

  /** A chained, evenly paced schedule: non-decreasing and never before
      `now`. */
  function GetFutureSpacedOccurrences(item: TrackedItem, now: Ticks, count: int): (r: seq<Ticks>)
    ensures !HasEligible(item.targets) ==> r == []
    ensures HasEligible(item.targets) ==> |r| == if count > 0 then count else 0
    ensures forall i :: 0 <= i < |r| ==> r[i] >= now
    ensures forall i, j :: 0 <= i <= j < |r| ==> r[i] <= r[j]
    ensures var eligible := EligibleTargets(item.targets);
            |eligible| > 0 && |r| > 0 ==>
              && r[0] == Combined(eligible, Spaced, now, Safeties(item.pastOccurrences))
              && forall i :: 0 < i < |r| ==>
                   r[i] == Combined(eligible, Spaced, r[i - 1], Safeties(item.pastOccurrences) + r[..i])
  {
    var eligible := EligibleTargets(item.targets);
    if |eligible| == 0 then []
    else
      assert HasEligible(item.targets) by {
        assert eligible[0] in eligible;
      }
      SpacedSteps(eligible, now, Safeties(item.pastOccurrences), if count > 0 then count else 0)
  }

  // ---------------------------------------------------------------------
  // TrackedItem.AddOccurrence
  // ---------------------------------------------------------------------

  /** The safety timestamp an entry that happened at `stamp` gets from the
      entries of `list` that happened before it. */
  function SafetyAt(ts: seq<Targets.Target>, list: seq<Occurrence>, stamp: Ticks): (r: Ticks)
    requires |ts| > 0 && AllEligible(ts)
    ensures r >= stamp
  {
    Combined(ts, Earliest, stamp, SafetiesBefore(list, stamp))
  }

  /** The retroactive repair, from position `i` on: every entry that
      happened after `stamp` gets a fresh safety timestamp, in list order,
      each read from the list as already repaired before it. */
  function Recompute(ts: seq<Targets.Target>, stamp: Ticks, list: seq<Occurrence>, i: nat): (r: seq<Occurrence>)
    requires |ts| > 0 && AllEligible(ts) && i <= |list|
    ensures |r| == |list|
    ensures forall j :: 0 <= j < |list| ==>
              r[j].actual == list[j].actual && r[j].stockUsed == list[j].stockUsed
    ensures forall j :: 0 <= j < |list| && (j < i || list[j].actual <= stamp) ==> r[j] == list[j]
    decreases |list| - i
  {
    if i == |list| then list
    else if list[i].actual > stamp then
      var o := list[i];
      Recompute(ts, stamp, list[i := o.(safety := SafetyAt(ts, list, o.actual))], i + 1)
    else
      Recompute(ts, stamp, list, i + 1)
  }

  /** The repair is a fold: every entry from position `i` on that happened
      after `stamp` gets the safety timestamp read from the list in which
      the entries before it are already repaired and the later ones not
      yet. */
  lemma {:induction false} RecomputeFold(ts: seq<Targets.Target>, stamp: Ticks, list: seq<Occurrence>, i: nat, j: nat)
    requires |ts| > 0 && AllEligible(ts) && i <= j < |list| && list[j].actual > stamp
    ensures var r := Recompute(ts, stamp, list, i);
            r[j].safety == SafetyAt(ts, r[..j] + list[j..], list[j].actual)
    decreases |list| - i
  {
    if list[i].actual <= stamp {
      RecomputeFold(ts, stamp, list, i + 1, j);
    } else if j == i {
      RecomputeFoldHere(ts, stamp, list, i);
    } else {
      var list' := list[i := list[i].(safety := SafetyAt(ts, list, list[i].actual))];
      RecomputeFold(ts, stamp, list', i + 1, j);
      assert list'[j..] == list[j..];
    }
  }

  lemma RecomputeFoldHere(ts: seq<Targets.Target>, stamp: Ticks, list: seq<Occurrence>, i: nat)
    requires |ts| > 0 && AllEligible(ts) && i < |list| && list[i].actual > stamp
    ensures var r := Recompute(ts, stamp, list, i);
            r[i].safety == SafetyAt(ts, r[..i] + list[i..], list[i].actual)
  {
    var list' := list[i := list[i].(safety := SafetyAt(ts, list, list[i].actual))];
    var r := Recompute(ts, stamp, list', i + 1);
    assert r[..i] == list'[..i] == list[..i];
    assert r[..i] + list[i..] == list;
  }

  /** One step of the repair: an entry that happened after `stamp` gets
      the safety timestamp read from the list as it stands. */
  lemma RecomputeRepairs(ts: seq<Targets.Target>, stamp: Ticks, list: seq<Occurrence>, i: nat,
                         safety: Ticks, updated: seq<Occurrence>)
    requires |ts| > 0 && AllEligible(ts) && i < |list| && list[i].actual > stamp
    requires SafetyAt(ts, list, list[i].actual) == safety
    requires updated == list[i := list[i].(safety := safety)]
    ensures Recompute(ts, stamp, list, i) == Recompute(ts, stamp, updated, i + 1)
  {
  }

  /** An entry that did not happen after `stamp` is passed over. */
  lemma RecomputeSkips(ts: seq<Targets.Target>, stamp: Ticks, list: seq<Occurrence>, i: nat)
    requires |ts| > 0 && AllEligible(ts) && i < |list| && list[i].actual <= stamp
    ensures Recompute(ts, stamp, list, i) == Recompute(ts, stamp, list, i + 1)
  {
  }

  /** Nothing after position `i` happened after `stamp`: nothing changes. */
  lemma {:induction false} RecomputeNothingLater(ts: seq<Targets.Target>, stamp: Ticks, list: seq<Occurrence>, i: nat)
    requires |ts| > 0 && AllEligible(ts) && i <= |list|
    requires forall j :: i <= j < |list| ==> list[j].actual <= stamp
    ensures Recompute(ts, stamp, list, i) == list
    decreases |list| - i
  {
    if i < |list| {
      RecomputeNothingLater(ts, stamp, list, i + 1);
    }
  }

  /** Records an occurrence at `timestamp`: appended last, its safety
      timestamp computed from the entries that happened before it; then
      every entry that happened after it is repaired, in list order.
      Nothing is reordered or removed, and entries at or before
      `timestamp` keep their values. */
  function AddOccurrence(item: TrackedItem, timestamp: Ticks, stockUsed: Option<real>): (r: TrackedItem)
    ensures r.(pastOccurrences := item.pastOccurrences) == item
    ensures |r.pastOccurrences| == |item.pastOccurrences| + 1
    ensures var added := r.pastOccurrences[|item.pastOccurrences|];
            added.actual == timestamp && added.stockUsed == stockUsed && added.safety >= timestamp
    ensures forall j :: 0 <= j < |item.pastOccurrences| ==>
              && r.pastOccurrences[j].actual == item.pastOccurrences[j].actual
              && r.pastOccurrences[j].stockUsed == item.pastOccurrences[j].stockUsed
    ensures forall j :: 0 <= j < |item.pastOccurrences| && item.pastOccurrences[j].actual <= timestamp ==>
              r.pastOccurrences[j] == item.pastOccurrences[j]
    ensures !HasEligible(item.targets) ==>
              r.pastOccurrences == item.pastOccurrences + [Occurrence(timestamp, timestamp, stockUsed)]
  {
    var eligible := EligibleTargets(item.targets);
    var past := item.pastOccurrences;
    if |eligible| == 0 then
      item.(pastOccurrences := past + [Occurrence(timestamp, timestamp, stockUsed)])
    else
      var added := Occurrence(timestamp, SafetyAt(eligible, past, timestamp), stockUsed);
      var repaired := Recompute(eligible, timestamp, past + [added], 0);
      assert HasEligible(item.targets) by {
        assert eligible[0] in eligible;
      }
      item.(pastOccurrences := repaired)
  }

  /** Recording into an item whose targets are all eligible: the new entry
      gets `safety`, and the repair of the extended list gives `repaired`. */
  lemma AddOccurrenceStep(item: TrackedItem, timestamp: Ticks, stockUsed: Option<real>,
                          safety: Ticks, repaired: seq<Occurrence>)
    requires |item.targets| > 0 && AllEligible(item.targets)
    requires SafetyAt(item.targets, item.pastOccurrences, timestamp) == safety
    requires Recompute(item.targets, timestamp,
                       item.pastOccurrences + [Occurrence(timestamp, safety, stockUsed)], 0) == repaired
    ensures AddOccurrence(item, timestamp, stockUsed) == item.(pastOccurrences := repaired)
  {
    EligibleTargetsAll(item.targets);
  }

  /** Recording in time order repairs nothing: when no entry happened
      after the new one, the history is only extended. */
  lemma AddOccurrenceInOrder(item: TrackedItem, timestamp: Ticks, stockUsed: Option<real>, safety: Ticks)
    requires |item.targets| > 0 && AllEligible(item.targets)
    requires SafetyAt(item.targets, item.pastOccurrences, timestamp) == safety
    requires forall j :: 0 <= j < |item.pastOccurrences| ==> item.pastOccurrences[j].actual <= timestamp
    ensures AddOccurrence(item, timestamp, stockUsed)
         == item.(pastOccurrences := item.pastOccurrences + [Occurrence(timestamp, safety, stockUsed)])
  {
    var list := item.pastOccurrences + [Occurrence(timestamp, safety, stockUsed)];
    RecomputeNothingLater(item.targets, timestamp, list, 0);
    AddOccurrenceStep(item, timestamp, stockUsed, safety, list);
  }

  /** The new entry's safety timestamp is the latest earliest prediction of
      the eligible targets over the entries that happened before it. */
  lemma AddOccurrenceSafety(item: TrackedItem, timestamp: Ticks, stockUsed: Option<real>)
    requires HasEligible(item.targets)
    ensures var r := AddOccurrence(item, timestamp, stockUsed);
            IsCombined(item.targets, Earliest, timestamp, SafetiesBefore(item.pastOccurrences, timestamp),
                       r.pastOccurrences[|item.pastOccurrences|].safety)
  {
    var eligible := EligibleTargets(item.targets);
    var t :| t in item.targets && Targets.Eligible(t);
    assert t in eligible;
    var past := item.pastOccurrences;
    CombinedIsLatest(eligible, Earliest, timestamp, SafetiesBefore(past, timestamp));
    CombinedOverEligible(item.targets, eligible);
  }

  /** Every entry that happened after the new one gets, as its safety
      timestamp, the latest earliest prediction over the entries that
      happened before it, read from the list as already repaired before
      it (the fold of `TrackedItem.AddOccurrence`'s loop, not an independent
      recompute). */
  lemma AddOccurrenceRepair(item: TrackedItem, timestamp: Ticks, stockUsed: Option<real>, j: nat)
    requires HasEligible(item.targets)
    requires j < |item.pastOccurrences| && item.pastOccurrences[j].actual > timestamp
    ensures var r := AddOccurrence(item, timestamp, stockUsed);
            var past := item.pastOccurrences;
            var live := r.pastOccurrences[..j] + past[j..] + [r.pastOccurrences[|past|]];
            && r.pastOccurrences[j].safety >= past[j].actual
            && IsCombined(item.targets, Earliest, past[j].actual, SafetiesBefore(live, past[j].actual),
                          r.pastOccurrences[j].safety)
  {
    var eligible := EligibleTargets(item.targets);
    var t :| t in item.targets && Targets.Eligible(t);
    assert t in eligible;
    var past := item.pastOccurrences;
    var added := Occurrence(timestamp, SafetyAt(eligible, past, timestamp), stockUsed);
    var repaired := Recompute(eligible, timestamp, past + [added], 0);
    assert AddOccurrence(item, timestamp, stockUsed).pastOccurrences == repaired;
    AddOccurrenceLive(past, added, repaired);
    RecomputeFold(eligible, timestamp, past + [added], 0, j);
    var live := repaired[..j] + past[j..] + [repaired[|past|]];
    assert repaired[j].safety == SafetyAt(eligible, live, past[j].actual);
    CombinedIsLatest(eligible, Earliest, past[j].actual, SafetiesBefore(live, past[j].actual));
    CombinedOverEligible(item.targets, eligible);
  }

  /** The live list seen by a repaired entry, written from the outside. */
  lemma AddOccurrenceLive(past: seq<Occurrence>, added: Occurrence, repaired: seq<Occurrence>)
    requires |repaired| == |past| + 1
    requires repaired[|past|] == added
    ensures forall j :: 0 <= j < |past| ==>
              repaired[..j] + (past + [added])[j..] == repaired[..j] + past[j..] + [repaired[|past|]]
  {
    forall j | 0 <= j < |past|
      ensures repaired[..j] + (past + [added])[j..] == repaired[..j] + past[j..] + [repaired[|past|]]
    {
      assert (past + [added])[j..] == past[j..] + [added];
    }
  }

  /** Combining the filtered list is combining the eligible members of
      the original list. */
  lemma CombinedOverEligible(ts: seq<Targets.Target>, eligible: seq<Targets.Target>)
    requires eligible == EligibleTargets(ts) && |eligible| > 0
    ensures HasEligible(ts)
    ensures forall rule, now, past, v ::
              IsCombined(eligible, rule, now, past, v) ==> IsCombined(ts, rule, now, past, v)
  {
    assert eligible[0] in eligible;
  }

  /** The one-argument overload: the item's default stock usage. */
  function AddOccurrenceWithDefault(item: TrackedItem, timestamp: Ticks): (r: TrackedItem)
    ensures |r.pastOccurrences| == |item.pastOccurrences| + 1
    ensures r.pastOccurrences[|item.pastOccurrences|].stockUsed == item.defaultStockUsage
    ensures r.pastOccurrences[|item.pastOccurrences|].actual == timestamp
  {
    AddOccurrence(item, timestamp, item.defaultStockUsage)
  }

  // ---------------------------------------------------------------------
  // TrackedItem.CheckForArchiving
  // ---------------------------------------------------------------------

  const ArchiveThreshold: nat := 200
  const ArchiveBatch: nat := 100

  /** What archiving hands back: the archive, if one was made, and the
      item as it is afterwards. */
  datatype ArchiveCheck = ArchiveCheck(archive: Option<TrackedItemArchive>, item: TrackedItem)

  /** Above 200 live entries, the oldest 100 by actual timestamp (ties in
      list order) move to a new archive and the rest stay live; otherwise
      nothing happens. `createdAt` stands for the clock reading. */
  function CheckForArchiving(item: TrackedItem, createdAt: Ticks): (r: ArchiveCheck)
    ensures |item.pastOccurrences| <= ArchiveThreshold <==> r.archive == None
    ensures |item.pastOccurrences| <= ArchiveThreshold ==> r.item == item
    ensures |item.pastOccurrences| > ArchiveThreshold ==>
              && r.archive.value.trackedItemId == item.id
              && r.archive.value.archiveNumber == 0
              && r.archive.value.createdAt == createdAt
              && r.item == item.(pastOccurrences := r.item.pastOccurrences)
              && |r.archive.value.archivedOccurrences| == ArchiveBatch
              && |r.item.pastOccurrences| == |item.pastOccurrences| - ArchiveBatch
  {
    if |item.pastOccurrences| <= ArchiveThreshold then ArchiveCheck(None, item)
    else
      var sorted := StableSort.SortByActual(item.pastOccurrences);
      ArchiveCheck(Some(TrackedItemArchive(item.id, 0, sorted[..ArchiveBatch], createdAt)),
                   item.(pastOccurrences := sorted[ArchiveBatch..]))
  }

  /** Archiving cuts the stably sorted history in two: the archive is its
      first hundred entries and the item keeps the rest, so no archived
      entry is later than a kept one. */
  lemma ArchivingPartition(item: TrackedItem, createdAt: Ticks)
    requires |item.pastOccurrences| > ArchiveThreshold
    ensures var r := CheckForArchiving(item, createdAt);
            var archived := r.archive.value.archivedOccurrences;
            var kept := r.item.pastOccurrences;
            && archived + kept == StableSort.SortByActual(item.pastOccurrences)
            && (forall i, j :: 0 <= i < |archived| && 0 <= j < |kept| ==> archived[i].actual <= kept[j].actual)
  {
    var sorted := StableSort.SortByActual(item.pastOccurrences);
    var archived := sorted[..ArchiveBatch];
    var kept := sorted[ArchiveBatch..];
    assert CheckForArchiving(item, createdAt)
        == ArchiveCheck(Some(TrackedItemArchive(item.id, 0, archived, createdAt)), item.(pastOccurrences := kept));
    assert archived + kept == sorted;
    forall i, j | 0 <= i < |archived| && 0 <= j < |kept| ensures archived[i].actual <= kept[j].actual {
      assert archived[i] == sorted[i] && kept[j] == sorted[ArchiveBatch + j];
    }
  }

  /** What archiving splits off and what it keeps are, together, the old
      history reordered: nothing lost or invented, sorted by actual
      timestamp, and entries with the same actual timestamp in their
      original order. */
  lemma ArchivingKeepsEverything(item: TrackedItem, createdAt: Ticks)
    requires |item.pastOccurrences| > ArchiveThreshold
    ensures var r := CheckForArchiving(item, createdAt);
            var past := item.pastOccurrences;
            var whole := r.archive.value.archivedOccurrences + r.item.pastOccurrences;
            && multiset(whole) == multiset(past)
            && StableSort.SortedByActual(whole)
            && (forall k :: StableSort.WithActual(whole, k) == StableSort.WithActual(past, k))
  {
    ArchivingPartition(item, createdAt);
  }

  // ---------------------------------------------------------------------
  // TrackedItem.CalculateCurrentStockLevel
  // ---------------------------------------------------------------------

  /** Everything acquired minus everything the live history used. */
  function CalculateCurrentStockLevel(item: TrackedItem): real {
    TotalAcquired(item.stockAcquisitions) - TotalUsed(item.pastOccurrences)
  }

  /** Recording an occurrence lowers the stock level by exactly its usage. */
  lemma AddOccurrenceStock(item: TrackedItem, timestamp: Ticks, stockUsed: Option<real>)
    ensures CalculateCurrentStockLevel(AddOccurrence(item, timestamp, stockUsed))
         == CalculateCurrentStockLevel(item) - stockUsed.GetOr(0.0)
  {
    var r := AddOccurrence(item, timestamp, stockUsed);
    var past := item.pastOccurrences;
    var added := r.pastOccurrences[|past|];
    TotalUsedSameStock(r.pastOccurrences, past + [added]);
    TotalUsedConcat(past, [added]);
    assert [added][1..] == [];
  }

  /** Archiving takes the archived usage out of the live sum, so the stock
      level computed from the item alone rises by that amount. */
  lemma ArchivingStock(item: TrackedItem, createdAt: Ticks)
    requires |item.pastOccurrences| > ArchiveThreshold
    ensures var r := CheckForArchiving(item, createdAt);
            CalculateCurrentStockLevel(r.item)
              == CalculateCurrentStockLevel(item) + TotalUsed(r.archive.value.archivedOccurrences)
  {
    var r := CheckForArchiving(item, createdAt);
    var sorted := StableSort.SortByActual(item.pastOccurrences);
    assert sorted == r.archive.value.archivedOccurrences + r.item.pastOccurrences;
    TotalUsedConcat(r.archive.value.archivedOccurrences, r.item.pastOccurrences);
  }
}
