/** Concrete scenarios from Shared.Tests, worked through the model, and
    one scenario showing that the retroactive repair depends on the order
    in which occurrences are recorded. */
module Scenarios {
  import opened Wrappers
  import opened Clock
  import opened Records
  import Targets
  import Tracking

  /** 2024-02-28 00:00 in ticks. */
  const Feb28: Ticks := 638446752000000000

  /** The two-target "Tablet" of the tests: four a day, one per four hours. */
  const Tablet: seq<Targets.Target> := [Targets.Target(4, TicksPerDay), Targets.Target(1, 4 * TicksPerHour)]

  function Item(targets: seq<Targets.Target>, past: seq<Occurrence>): Tracking.TrackedItem {
    Tracking.TrackedItem(0, past, targets, None, [])
  }

  /** Once a day: free at noon on each of two days, then due a day after
      the later of the two. */
  lemma OncePerDay(t: Targets.Target)
    requires t == Targets.Target(1, TicksPerDay)
    ensures var past := [Feb28 - 2 * TicksPerDay + 12 * TicksPerHour, Feb28 - TicksPerDay + 12 * TicksPerHour];
            var noon28 := Feb28 + 12 * TicksPerHour;
            var noon29 := noon28 + TicksPerDay;
            && Targets.GetEarliestOccurrence(t, noon28, past) == noon28
            && Targets.GetEarliestOccurrence(t, noon29, past + [noon28]) == noon29
            && Targets.GetEarliestOccurrence(t, noon29, past + [noon28, noon29]) == noon29 + TicksPerDay
  {
    var noon26, noon27 := Feb28 - 2 * TicksPerDay + 12 * TicksPerHour, Feb28 - TicksPerDay + 12 * TicksPerHour;
    var noon28 := Feb28 + 12 * TicksPerHour;
    var noon29 := noon28 + TicksPerDay;
    OnlyLastCounts(t, noon28, [noon26], noon27);
    assert [noon26, noon27] == [noon26] + [noon27];
    OnlyLastCounts(t, noon29, [noon26, noon27], noon28);
    LastOfTwoCounts(t, noon29, [noon26, noon27], noon28, noon29);
  }

  /** A once-per-window target whose window holds two entries waits one
      full window after the later-recorded one. */
  lemma LastOfTwoCounts(t: Targets.Target, now: Ticks, earlier: seq<Ticks>, a: Ticks, b: Ticks)
    requires t.qty == 1
    requires forall i :: 0 <= i < |earlier| ==> earlier[i] < now - t.frequency
    requires now - t.frequency <= a && now - t.frequency <= b
    ensures Targets.GetEarliestOccurrence(t, now, earlier + [a, b]) == b + t.frequency
  {
    var lo := now - t.frequency;
    assert Targets.AtOrAfter(earlier + [a, b], lo) == [a, b] by {
      Targets.AtOrAfterConcat(earlier, [a, b], lo);
      Targets.AtOrAfterNone(earlier, lo);
      Targets.AtOrAfterAll([a, b], lo);
    }
    assert |Targets.AtOrAfterPositions(earlier + [a, b], lo)| > t.qty;
  }

  /** Four a day, spaced: the answers step through noon, 18:00, midnight,
      06:00 and noon of the next day as occurrences pile up at noon. */
  lemma FourPerDaySpaced(t: Targets.Target)
    requires t == Targets.Target(4, TicksPerDay)
    ensures && Targets.GetSpacedOccurrence(t, At(12), []) == At(12)
            && Targets.GetSpacedOccurrence(t, At(12), [At(12)]) == At(18)
            && Targets.GetSpacedOccurrence(t, At(12), [At(12), At(12)]) == At(24)
            && Targets.GetSpacedOccurrence(t, At(12), [At(12), At(12), At(12)]) == At(30)
            && Targets.GetSpacedOccurrence(t, At(12), [At(12), At(12), At(12), At(12)]) == At(36)
  {
    NoonSpaced(t, [At(12)]);
    NoonSpaced(t, [At(12), At(12)]);
    NoonSpaced(t, [At(12), At(12), At(12)]);
    NoonFull(t);
  }

  lemma NoonSpaced(t: Targets.Target, past: seq<Ticks>)
    requires t == Targets.Target(4, TicksPerDay)
    requires 0 < |past| < 4
    requires forall i :: 0 <= i < |past| ==> past[i] == At(12)
    ensures Targets.GetSpacedOccurrence(t, At(12), past) == At(12 + 6 * |past|)
  {
    Targets.SpacedSpreadsEvenly(t, At(12), At(12), past);
    assert Targets.ProRata(t, |past|) == 6 * |past| * TicksPerHour;
  }

  lemma NoonFull(t: Targets.Target)
    requires t == Targets.Target(4, TicksPerDay)
    ensures Targets.GetSpacedOccurrence(t, At(12), [At(12), At(12), At(12), At(12)]) == At(36)
  {
    var full := [At(12), At(12), At(12), At(12)];
    Targets.AtOrAfterAll(full, At(12) - t.frequency);
    assert Targets.SeqMin(full) == At(12);
  }

  lemma TabletEligible()
    ensures Tracking.AllEligible(Tablet) && Tracking.EligibleTargets(Tablet) == Tablet
  {
    Tracking.EligibleTargetsAll(Tablet);
  }

  /** The combined earliest prediction of the two-target item is the later
      of the two targets' predictions. */
  lemma TabletCombined(now: Ticks, past: seq<Ticks>)
    ensures Tracking.AllEligible(Tablet)
    ensures var a := Targets.GetEarliestOccurrence(Tablet[0], now, past);
            var b := Targets.GetEarliestOccurrence(Tablet[1], now, past);
            Tracking.Combined(Tablet, Tracking.Earliest, now, past) == if a >= b then a else b
  {
    TabletEligible();
    assert Tablet[1..] == [Tablet[1]];
  }

  /** 28 February 2024 at `hour` o'clock (hours past 23 run into the next
      days). */
  function At(hour: int): Ticks {
    Feb28 + hour * TicksPerHour
  }

  /** An occurrence at `hour` o'clock counted from `safeHour` o'clock. */
  function Occ(hour: int, safeHour: int): Occurrence {
    Occurrence(At(hour), At(safeHour), None)
  }

  /** The safety timestamp of `o` when it happened before `stamp`. */
  function Kept(o: Occurrence, stamp: Ticks): seq<Ticks> {
    if o.actual < stamp then [o.safety] else []
  }

  lemma BeforeOne(a: Occurrence, stamp: Ticks)
    ensures Tracking.SafetiesBefore([a], stamp) == Kept(a, stamp)
  {
    assert [a][..0] == [];
  }

  lemma BeforeTwo(a: Occurrence, b: Occurrence, stamp: Ticks)
    ensures Tracking.SafetiesBefore([a, b], stamp) == Kept(a, stamp) + Kept(b, stamp)
  {
    Tracking.SafetiesBeforeConcat([a], [b], stamp);
    BeforeOne(a, stamp);
    BeforeOne(b, stamp);
    assert [a, b] == [a] + [b];
  }

  lemma BeforeThree(a: Occurrence, b: Occurrence, c: Occurrence, stamp: Ticks)
    ensures Tracking.SafetiesBefore([a, b, c], stamp) == Kept(a, stamp) + Kept(b, stamp) + Kept(c, stamp)
  {
    Tracking.SafetiesBeforeConcat([a, b], [c], stamp);
    BeforeTwo(a, b, stamp);
    BeforeOne(c, stamp);
    assert [a, b, c] == [a, b] + [c];
  }

  lemma BeforeBoth(a: Occurrence, b: Occurrence, stamp: Ticks)
    requires a.actual < stamp && b.actual < stamp
    ensures Tracking.SafetiesBefore([a, b], stamp) == [a.safety, b.safety]
  {
    BeforeTwo(a, b, stamp);
  }

  /** Recorded at 19:00 after 12:00 and 16:00, an occurrence counts from
      20:00, four hours after the one at 16:00. */
  lemma SafetyDelayedByFourHourRule()
    ensures Tracking.AddOccurrence(Item(Tablet, [Occ(12, 12), Occ(16, 16)]), At(19), None).pastOccurrences
         == [Occ(12, 12), Occ(16, 16), Occ(19, 20)]
  {
    var past := [Occ(12, 12), Occ(16, 16)];
    assert Tracking.AllEligible(Tablet) && Tracking.SafetyAt(Tablet, past, At(19)) == At(20) by {
      SafetyAtNineteen();
    }
    Tracking.AddOccurrenceInOrder(Item(Tablet, past), At(19), None, At(20));
  }

  lemma SafetyAtNineteen()
    ensures Tracking.AllEligible(Tablet)
    ensures Tracking.SafetyAt(Tablet, [Occ(12, 12), Occ(16, 16)], At(19)) == At(20)
  {
    var hist := [At(12), At(16)];
    BeforeBoth(Occ(12, 12), Occ(16, 16), At(19));
    DailyAtNineteen();
    HourlyAtNineteen();
    TabletSafety([Occ(12, 12), Occ(16, 16)], At(19), hist);
  }

  /** The safety timestamp over two targets is the later of their earliest
      predictions over the safety timestamps before the entry. */
  lemma TabletSafety(list: seq<Occurrence>, stamp: Ticks, hist: seq<Ticks>)
    requires Tracking.SafetiesBefore(list, stamp) == hist
    ensures Tracking.AllEligible(Tablet)
    ensures var a := Targets.GetEarliestOccurrence(Tablet[0], stamp, hist);
            var b := Targets.GetEarliestOccurrence(Tablet[1], stamp, hist);
            Tracking.SafetyAt(Tablet, list, stamp) == if a >= b then a else b
  {
    TabletCombined(stamp, hist);
  }

  lemma DailyAtNineteen()
    ensures Targets.GetEarliestOccurrence(Tablet[0], At(19), [At(12), At(16)]) == At(19)
  {
    Targets.AtOrAfterAll([At(12), At(16)], At(19) - TicksPerDay);
  }

  lemma HourlyAtNineteen()
    ensures Targets.GetEarliestOccurrence(Tablet[1], At(19), [At(12), At(16)]) == At(20)
  {
    OnlyLastCounts(Tablet[1], At(19), [At(12)], At(16));
    assert [At(12), At(16)] == [At(12)] + [At(16)];
  }

  /** A once-per-window target whose window holds only the last entry waits
      one full window after that entry. */
  lemma OnlyLastCounts(t: Targets.Target, now: Ticks, earlier: seq<Ticks>, last: Ticks)
    requires t.qty == 1
    requires forall i :: 0 <= i < |earlier| ==> earlier[i] < now - t.frequency
    requires now - t.frequency <= last
    ensures Targets.GetEarliestOccurrence(t, now, earlier + [last]) == last + t.frequency
  {
    var lo := now - t.frequency;
    assert Targets.AtOrAfter(earlier + [last], lo) == [last] by {
      Targets.AtOrAfterConcat(earlier, [last], lo);
      Targets.AtOrAfterNone(earlier, lo);
      Targets.AtOrAfterAll([last], lo);
    }
    SingleRelevant(t, now, earlier + [last], last);
  }

  lemma SingleRelevant(t: Targets.Target, now: Ticks, past: seq<Ticks>, last: Ticks)
    requires t.qty == 1 && Targets.AtOrAfter(past, now - t.frequency) == [last]
    ensures Targets.GetEarliestOccurrence(t, now, past) == last + t.frequency
  {
    assert Targets.SeqMin([last]) == last;
  }

  /** Recording 23:00 after 02:00 of the next day repairs the later entry:
      its safety timestamp moves from 02:00 to 03:00, four hours after the
      new entry; the new entry itself is free at once. */
  lemma OutOfOrderRepairs()
    ensures Tracking.AddOccurrence(Item(Tablet, [Occ(12, 12), Occ(16, 16), Occ(26, 26)]), At(23), None).pastOccurrences
         == [Occ(12, 12), Occ(16, 16), Occ(26, 27), Occ(23, 23)]
  {
    var past := [Occ(12, 12), Occ(16, 16), Occ(26, 26)];
    var list := [Occ(12, 12), Occ(16, 16), Occ(26, 26), Occ(23, 23)];
    assert Tracking.AllEligible(Tablet) && Tracking.SafetyAt(Tablet, past, At(23)) == At(23) by {
      SafetyAtTwentyThree();
    }
    assert past + [Occurrence(At(23), At(23), None)] == list;
    assert Tracking.Recompute(Tablet, At(23), list, 0) == [Occ(12, 12), Occ(16, 16), Occ(26, 27), Occ(23, 23)] by {
      OutOfOrderRecompute();
    }
    Tracking.AddOccurrenceStep(Item(Tablet, past), At(23), None, At(23),
                               [Occ(12, 12), Occ(16, 16), Occ(26, 27), Occ(23, 23)]);
  }

  lemma OutOfOrderRecompute()
    ensures Tracking.AllEligible(Tablet)
    ensures Tracking.Recompute(Tablet, At(23), [Occ(12, 12), Occ(16, 16), Occ(26, 26), Occ(23, 23)], 0)
         == [Occ(12, 12), Occ(16, 16), Occ(26, 27), Occ(23, 23)]
  {
    var list := [Occ(12, 12), Occ(16, 16), Occ(26, 26), Occ(23, 23)];
    assert Tracking.SafetyAt(Tablet, list, At(26)) == At(27) by {
      RepairAtTwentySix();
    }
    var list' := [Occ(12, 12), Occ(16, 16), Occ(26, 27), Occ(23, 23)];
    assert Tracking.AllEligible(Tablet) by {
      RepairAtTwentySix();
    }
    assert Tracking.Recompute(Tablet, At(23), list, 0) == Tracking.Recompute(Tablet, At(23), list, 2) by {
      Tracking.RecomputeSkips(Tablet, At(23), list, 0);
      Tracking.RecomputeSkips(Tablet, At(23), list, 1);
    }
    assert Tracking.Recompute(Tablet, At(23), list, 2) == Tracking.Recompute(Tablet, At(23), list', 3) by {
      Tracking.RecomputeRepairs(Tablet, At(23), list, 2, At(27), list');
    }
    assert Tracking.Recompute(Tablet, At(23), list', 3) == list' by {
      Tracking.RecomputeNothingLater(Tablet, At(23), list', 3);
    }
  }

  lemma SafetyAtTwentyThree()
    ensures Tracking.AllEligible(Tablet)
    ensures Tracking.SafetyAt(Tablet, [Occ(12, 12), Occ(16, 16), Occ(26, 26)], At(23)) == At(23)
  {
    var hist := [At(12), At(16)];
    BeforeTwentyThree();
    DailyAtTwentyThree();
    HourlyAtTwentyThree();
    TabletSafety([Occ(12, 12), Occ(16, 16), Occ(26, 26)], At(23), hist);
  }

  lemma BeforeTwentyThree()
    ensures Tracking.SafetiesBefore([Occ(12, 12), Occ(16, 16), Occ(26, 26)], At(23)) == [At(12), At(16)]
  {
    BeforeThree(Occ(12, 12), Occ(16, 16), Occ(26, 26), At(23));
  }

  lemma DailyAtTwentyThree()
    ensures Targets.GetEarliestOccurrence(Tablet[0], At(23), [At(12), At(16)]) == At(23)
  {
    Targets.AtOrAfterAll([At(12), At(16)], At(23) - TicksPerDay);
  }

  lemma HourlyAtTwentyThree()
    ensures Targets.GetEarliestOccurrence(Tablet[1], At(23), [At(12), At(16)]) == At(23)
  {
    Targets.AtOrAfterNone([At(12), At(16)], At(19));
  }

  lemma RepairAtTwentySix()
    ensures Tracking.AllEligible(Tablet)
    ensures Tracking.SafetyAt(Tablet, [Occ(12, 12), Occ(16, 16), Occ(26, 26), Occ(23, 23)], At(26)) == At(27)
  {
    var hist := [At(12), At(16), At(23)];
    BeforeTwentySix();
    DailyAtTwentySix();
    HourlyAtTwentySix();
    TabletSafety([Occ(12, 12), Occ(16, 16), Occ(26, 26), Occ(23, 23)], At(26), hist);
  }

  lemma BeforeTwentySix()
    ensures Tracking.SafetiesBefore([Occ(12, 12), Occ(16, 16), Occ(26, 26), Occ(23, 23)], At(26))
         == [At(12), At(16), At(23)]
  {
    var l := [Occ(12, 12), Occ(16, 16), Occ(26, 26), Occ(23, 23)];
    assert l == [Occ(12, 12), Occ(16, 16)] + [Occ(26, 26), Occ(23, 23)];
    BeforeBoth(Occ(12, 12), Occ(16, 16), At(26));
    BeforeTwo(Occ(26, 26), Occ(23, 23), At(26));
    Tracking.SafetiesBeforeConcat([Occ(12, 12), Occ(16, 16)], [Occ(26, 26), Occ(23, 23)], At(26));
  }

  lemma DailyAtTwentySix()
    ensures Targets.GetEarliestOccurrence(Tablet[0], At(26), [At(12), At(16), At(23)]) == At(26)
  {
    Targets.AtOrAfterAll([At(12), At(16), At(23)], At(26) - TicksPerDay);
  }

  lemma HourlyAtTwentySix()
    ensures Targets.GetEarliestOccurrence(Tablet[1], At(26), [At(12), At(16), At(23)]) == At(27)
  {
    OnlyLastCounts(Tablet[1], At(26), [At(12), At(16)], At(23));
    assert [At(12), At(16), At(23)] == [At(12), At(16)] + [At(23)];
  }

  /** One occurrence per ten ticks. */
  const Single: seq<Targets.Target> := [Targets.Target(1, 10)]

  function O(actual: Ticks, safety: Ticks): Occurrence {
    Occurrence(actual, safety, None)
  }

  /** The combined prediction of a single target is that target's. */
  lemma SingleCombined(now: Ticks, past: seq<Ticks>)
    ensures Tracking.AllEligible(Single) && Tracking.EligibleTargets(Single) == Single
    ensures Tracking.Combined(Single, Tracking.Earliest, now, past)
         == Targets.GetEarliestOccurrence(Single[0], now, past)
  {
    Tracking.EligibleTargetsAll(Single);
  }

  /** The safety timestamp a single-target entry at `stamp` gets from
      `list`, given the safety timestamps of the entries before it, all
      inside the window: free at once below the limit, otherwise when the
      entry `qty` places from the end of the window ages out. */
  lemma SingleSafety(stamp: Ticks, list: seq<Occurrence>, before: seq<Ticks>, expected: Ticks)
    requires Tracking.SafetiesBefore(list, stamp) == before
    requires forall i :: 0 <= i < |before| ==> before[i] >= stamp - 10
    requires expected == if |before| == 0 then stamp else before[|before| - 1] + 10
    ensures Tracking.AllEligible(Single)
    ensures Tracking.SafetyAt(Single, list, stamp) == expected
  {
    SingleCombined(stamp, before);
    Targets.AtOrAfterAll(before, stamp - 10);
    if |before| == 1 {
      assert Targets.SeqMin(before) == before[0];
    }
  }

  /** Recording into an empty history: the first entry is free at once. */
  lemma SingleFirst(at: Ticks)
    ensures Tracking.AddOccurrence(Item(Single, []), at, None) == Item(Single, [O(at, at)])
  {
    SingleFirstStep(at, Item(Single, []));
  }

  lemma SingleFirstStep(at: Ticks, item: Tracking.TrackedItem)
    requires item == Item(Single, [])
    ensures Tracking.AddOccurrence(item, at, None) == item.(pastOccurrences := [O(at, at)])
  {
    assert |item.targets| > 0 && Tracking.AllEligible(item.targets)
        && Tracking.SafetyAt(item.targets, item.pastOccurrences, at) == at by {
      assert Tracking.SafetiesBefore([], at) == [];
      SingleSafety(at, [], [], at);
    }
    InOrderStep(item, at, at, [O(at, at)]);
  }

  /** Forward, second step: `t + 5` after `t` waits for `t` to age out,
      until `t + 10`. */
  lemma ForwardSecond(t: Ticks)
    ensures Tracking.AddOccurrence(Item(Single, [O(t, t)]), t + 5, None) == Item(Single, [O(t, t), O(t + 5, t + 10)])
  {
    ForwardSecondStep(t, Item(Single, [O(t, t)]));
  }

  lemma ForwardSecondStep(t: Ticks, item: Tracking.TrackedItem)
    requires item == Item(Single, [O(t, t)])
    ensures Tracking.AddOccurrence(item, t + 5, None) == item.(pastOccurrences := [O(t, t), O(t + 5, t + 10)])
  {
    assert |item.targets| > 0 && Tracking.AllEligible(item.targets)
        && Tracking.SafetyAt(item.targets, item.pastOccurrences, t + 5) == t + 10 by {
      ForwardSecondSafety(t);
    }
    InOrderAfterOne(item, O(t, t), t + 5, t + 10);
  }

  /** An in-order recording into a one-entry history. */
  lemma InOrderAfterOne(item: Tracking.TrackedItem, first: Occurrence, stamp: Ticks, safety: Ticks)
    requires item.pastOccurrences == [first] && first.actual <= stamp
    requires |item.targets| > 0 && Tracking.AllEligible(item.targets)
    requires Tracking.SafetyAt(item.targets, item.pastOccurrences, stamp) == safety
    ensures Tracking.AddOccurrence(item, stamp, None) == item.(pastOccurrences := [first, O(stamp, safety)])
  {
    assert [first] + [O(stamp, safety)] == [first, O(stamp, safety)];
    InOrderStep(item, stamp, safety, [first, O(stamp, safety)]);
  }

  /** An in-order recording into an unconstrained-stock item, with the
      resulting history named. */
  lemma InOrderStep(item: Tracking.TrackedItem, stamp: Ticks, safety: Ticks, extended: seq<Occurrence>)
    requires |item.targets| > 0 && Tracking.AllEligible(item.targets)
    requires Tracking.SafetyAt(item.targets, item.pastOccurrences, stamp) == safety
    requires forall j :: 0 <= j < |item.pastOccurrences| ==> item.pastOccurrences[j].actual <= stamp
    requires extended == item.pastOccurrences + [O(stamp, safety)]
    ensures Tracking.AddOccurrence(item, stamp, None) == item.(pastOccurrences := extended)
  {
    Tracking.AddOccurrenceInOrder(item, stamp, None, safety);
  }

  /** Forward, third step: `t + 10` after `t` and `t + 5` (counted from
      `t + 10`) is over-full and waits for the later one, until `t + 20`. */
  lemma ForwardThird(t: Ticks)
    ensures Tracking.AddOccurrence(Item(Single, [O(t, t), O(t + 5, t + 10)]), t + 10, None)
         == Item(Single, [O(t, t), O(t + 5, t + 10), O(t + 10, t + 20)])
  {
    ForwardThirdStep(t, Item(Single, [O(t, t), O(t + 5, t + 10)]));
  }

  lemma ForwardThirdStep(t: Ticks, item: Tracking.TrackedItem)
    requires item == Item(Single, [O(t, t), O(t + 5, t + 10)])
    ensures Tracking.AddOccurrence(item, t + 10, None)
         == item.(pastOccurrences := [O(t, t), O(t + 5, t + 10), O(t + 10, t + 20)])
  {
    assert |item.targets| > 0 && Tracking.AllEligible(item.targets)
        && Tracking.SafetyAt(item.targets, item.pastOccurrences, t + 10) == t + 20 by {
      ForwardThirdSafety(t);
    }
    InOrderStep(item, t + 10, t + 20, [O(t, t), O(t + 5, t + 10), O(t + 10, t + 20)]);
  }

  /** Backward, second step: `t + 5` before `t + 10` is free at once, and
      `t + 10` is repaired to wait for it, until `t + 15`. */
  lemma BackwardSecond(t: Ticks)
    ensures Tracking.AddOccurrence(Item(Single, [O(t + 10, t + 10)]), t + 5, None)
         == Item(Single, [O(t + 10, t + 15), O(t + 5, t + 5)])
  {
    BackwardSecondStep(t, Item(Single, [O(t + 10, t + 10)]));
  }

  lemma BackwardSecondStep(t: Ticks, item: Tracking.TrackedItem)
    requires item == Item(Single, [O(t + 10, t + 10)])
    ensures Tracking.AddOccurrence(item, t + 5, None) == item.(pastOccurrences := [O(t + 10, t + 15), O(t + 5, t + 5)])
  {
    assert |item.targets| > 0 && Tracking.AllEligible(item.targets)
        && Tracking.SafetyAt(item.targets, item.pastOccurrences, t + 5) == t + 5 by {
      BackwardSecondSafety(t);
    }
    var list := item.pastOccurrences + [Occurrence(t + 5, t + 5, None)];
    assert Tracking.Recompute(item.targets, t + 5, list, 0) == [O(t + 10, t + 15), O(t + 5, t + 5)] by {
      BackwardSecondRecompute(t, list);
    }
    Tracking.AddOccurrenceStep(item, t + 5, None, t + 5, [O(t + 10, t + 15), O(t + 5, t + 5)]);
  }

  lemma BackwardSecondRecompute(t: Ticks, list: seq<Occurrence>)
    requires list == [O(t + 10, t + 10), O(t + 5, t + 5)]
    ensures Tracking.AllEligible(Single)
    ensures Tracking.Recompute(Single, t + 5, list, 0) == [O(t + 10, t + 15), O(t + 5, t + 5)]
  {
    var repaired := [O(t + 10, t + 15), O(t + 5, t + 5)];
    assert Tracking.AllEligible(Single) && Tracking.SafetyAt(Single, list, list[0].actual) == t + 15 by {
      BackwardSecondRepairSafety(t);
    }
    assert repaired == list[0 := list[0].(safety := t + 15)];
    Tracking.RecomputeRepairs(Single, t + 5, list, 0, t + 15, repaired);
    Tracking.RecomputeNothingLater(Single, t + 5, repaired, 1);
  }

  /** Backward, third step: `t` before both is free at once; `t + 10` is
      repaired first, over the list as it stands (`t + 5` and `t` relevant,
      so it waits for the later-listed `t`, until `t + 10`), then `t + 5`
      (waiting for `t`, until `t + 10`). */
  lemma BackwardThird(t: Ticks)
    ensures Tracking.AddOccurrence(Item(Single, [O(t + 10, t + 15), O(t + 5, t + 5)]), t, None)
         == Item(Single, [O(t + 10, t + 10), O(t + 5, t + 10), O(t, t)])
  {
    BackwardThirdStep(t, Item(Single, [O(t + 10, t + 15), O(t + 5, t + 5)]));
  }

  lemma BackwardThirdStep(t: Ticks, item: Tracking.TrackedItem)
    requires item == Item(Single, [O(t + 10, t + 15), O(t + 5, t + 5)])
    ensures Tracking.AddOccurrence(item, t, None) == item.(pastOccurrences := [O(t + 10, t + 10), O(t + 5, t + 10), O(t, t)])
  {
    assert |item.targets| > 0 && Tracking.AllEligible(item.targets)
        && Tracking.SafetyAt(item.targets, item.pastOccurrences, t) == t by {
      BackwardThirdSafety(t);
    }
    var list := item.pastOccurrences + [Occurrence(t, t, None)];
    var middle := [O(t + 10, t + 10), O(t + 5, t + 5), O(t, t)];
    assert Tracking.Recompute(item.targets, t, list, 0) == Tracking.Recompute(item.targets, t, middle, 1) by {
      BackwardThirdFirstRepair(t, list, middle);
    }
    assert Tracking.Recompute(item.targets, t, middle, 1) == [O(t + 10, t + 10), O(t + 5, t + 10), O(t, t)] by {
      BackwardThirdSecondRepair(t, middle);
    }
    Tracking.AddOccurrenceStep(item, t, None, t, [O(t + 10, t + 10), O(t + 5, t + 10), O(t, t)]);
  }

  lemma BackwardThirdFirstRepair(t: Ticks, list: seq<Occurrence>, updated: seq<Occurrence>)
    requires list == [O(t + 10, t + 15), O(t + 5, t + 5), O(t, t)]
    requires updated == [O(t + 10, t + 10), O(t + 5, t + 5), O(t, t)]
    ensures Tracking.AllEligible(Single)
    ensures Tracking.Recompute(Single, t, list, 0) == Tracking.Recompute(Single, t, updated, 1)
  {
    assert Tracking.AllEligible(Single) && Tracking.SafetyAt(Single, list, list[0].actual) == t + 10 by {
      BackwardThirdFirstSafety(t);
    }
    assert updated == list[0 := list[0].(safety := t + 10)];
    Tracking.RecomputeRepairs(Single, t, list, 0, t + 10, updated);
  }

  lemma BackwardThirdSecondRepair(t: Ticks, list: seq<Occurrence>)
    requires list == [O(t + 10, t + 10), O(t + 5, t + 5), O(t, t)]
    ensures Tracking.AllEligible(Single)
    ensures Tracking.Recompute(Single, t, list, 1) == [O(t + 10, t + 10), O(t + 5, t + 10), O(t, t)]
  {
    var repaired := [O(t + 10, t + 10), O(t + 5, t + 10), O(t, t)];
    assert Tracking.AllEligible(Single) && Tracking.SafetyAt(Single, list, list[1].actual) == t + 10 by {
      BackwardThirdSecondSafety(t);
    }
    assert repaired == list[1 := list[1].(safety := t + 10)];
    Tracking.RecomputeRepairs(Single, t, list, 1, t + 10, repaired);
    Tracking.RecomputeNothingLater(Single, t, repaired, 2);
  }

  // The safety timestamps the single-target steps read.
  lemma ForwardSecondSafety(t: Ticks)
    ensures Tracking.AllEligible(Single)
    ensures Tracking.SafetyAt(Single, [O(t, t)], t + 5) == t + 10
  {
    BeforeOne(O(t, t), t + 5);
    SingleSafety(t + 5, [O(t, t)], [t], t + 10);
  }

  lemma ForwardThirdSafety(t: Ticks)
    ensures Tracking.AllEligible(Single)
    ensures Tracking.SafetyAt(Single, [O(t, t), O(t + 5, t + 10)], t + 10) == t + 20
  {
    BeforeTwo(O(t, t), O(t + 5, t + 10), t + 10);
    SingleSafety(t + 10, [O(t, t), O(t + 5, t + 10)], [t, t + 10], t + 20);
  }

  lemma BackwardSecondSafety(t: Ticks)
    ensures Tracking.AllEligible(Single)
    ensures Tracking.SafetyAt(Single, [O(t + 10, t + 10)], t + 5) == t + 5
  {
    BeforeOne(O(t + 10, t + 10), t + 5);
    SingleSafety(t + 5, [O(t + 10, t + 10)], [], t + 5);
  }

  lemma BackwardSecondRepairSafety(t: Ticks)
    ensures Tracking.AllEligible(Single)
    ensures Tracking.SafetyAt(Single, [O(t + 10, t + 10), O(t + 5, t + 5)], t + 10) == t + 15
  {
    BeforeTwo(O(t + 10, t + 10), O(t + 5, t + 5), t + 10);
    SingleSafety(t + 10, [O(t + 10, t + 10), O(t + 5, t + 5)], [t + 5], t + 15);
  }

  lemma BackwardThirdSafety(t: Ticks)
    ensures Tracking.AllEligible(Single)
    ensures Tracking.SafetyAt(Single, [O(t + 10, t + 15), O(t + 5, t + 5)], t) == t
  {
    BeforeTwo(O(t + 10, t + 15), O(t + 5, t + 5), t);
    SingleSafety(t, [O(t + 10, t + 15), O(t + 5, t + 5)], [], t);
  }

  lemma BackwardThirdFirstSafety(t: Ticks)
    ensures Tracking.AllEligible(Single)
    ensures Tracking.SafetyAt(Single, [O(t + 10, t + 15), O(t + 5, t + 5), O(t, t)], t + 10) == t + 10
  {
    BeforeThree(O(t + 10, t + 15), O(t + 5, t + 5), O(t, t), t + 10);
    SingleSafety(t + 10, [O(t + 10, t + 15), O(t + 5, t + 5), O(t, t)], [t + 5, t], t + 10);
  }

  lemma BackwardThirdSecondSafety(t: Ticks)
    ensures Tracking.AllEligible(Single)
    ensures Tracking.SafetyAt(Single, [O(t + 10, t + 10), O(t + 5, t + 5), O(t, t)], t + 5) == t + 10
  {
    BeforeThree(O(t + 10, t + 10), O(t + 5, t + 5), O(t, t), t + 5);
    SingleSafety(t + 5, [O(t + 10, t + 10), O(t + 5, t + 5), O(t, t)], [t], t + 10);
  }

  /** Recording the same three occurrences in two orders leaves different
      safety timestamps: the repair reads the list as already repaired, in
      list order, so the outcome depends on the order of recording. Here
      the entry at `t + 10` ends up counted from `t + 20` in one order and
      from `t + 10` in the other. */
  lemma ReplayOrderMatters(t: Ticks)
    ensures Tracking.AddOccurrence(Tracking.AddOccurrence(Tracking.AddOccurrence(
              Item(Single, []), t, None), t + 5, None), t + 10, None).pastOccurrences
         == [O(t, t), O(t + 5, t + 10), O(t + 10, t + 20)]
    ensures Tracking.AddOccurrence(Tracking.AddOccurrence(Tracking.AddOccurrence(
              Item(Single, []), t + 10, None), t + 5, None), t, None).pastOccurrences
         == [O(t + 10, t + 10), O(t + 5, t + 10), O(t, t)]
  {
    SingleFirst(t);
    ForwardSecond(t);
    ForwardThird(t);
    SingleFirst(t + 10);
    BackwardSecond(t);
    BackwardThird(t);
  }
}
