/** A single rate constraint, "at most `qty` occurrences per rolling window of
    length `frequency`", and the three window computations of
    Shared/Target.cs. All three are pure functions of `now` and a history of
    timestamps, given in the order the caller supplies them. */
module Targets {
  import opened Wrappers
  import opened Clock

  /** Status of one constraint, ordered Ok < AtLimit < OverLimit. */
  datatype Status = Ok | AtLimit | OverLimit

  function Rank(s: Status): nat {
    match s
    case Ok => 0
    case AtLimit => 1
    case OverLimit => 2
  }

  /** The worse of two statuses (`Max()` over the enum). */
  function MaxStatus(a: Status, b: Status): (r: Status)
    ensures r == a || r == b
    ensures Rank(a) <= Rank(r) && Rank(b) <= Rank(r)
  {
    if Rank(a) >= Rank(b) then a else b
  }

  datatype Target = Target(qty: int, frequency: Ticks)

  /** Only these targets take part in scheduling. */
  predicate Eligible(t: Target) {
    t.qty > 0 && t.frequency > 0
  }

  // ---------------------------------------------------------------------
  // Window counting, defined once by positions and once by recursion.
  // ---------------------------------------------------------------------

  /** Positions of `s` strictly after `lo` (the window of `GetStatus`). */
  ghost function AfterPositions(s: seq<Ticks>, lo: Ticks): set<nat> {
    set i: nat | i < |s| && s[i] > lo
  }

  /** Positions of `s` at or after `lo` (the window of the two predictions). */
  ghost function AtOrAfterPositions(s: seq<Ticks>, lo: Ticks): set<nat> {
    set i: nat | i < |s| && s[i] >= lo
  }

  /** How many timestamps of `s` lie strictly after `lo`. */
  function CountAfter(s: seq<Ticks>, lo: Ticks): (n: nat)
    ensures n == |AfterPositions(s, lo)|
  {
    if |s| == 0 then 0
    else
      var init := s[..|s| - 1];
      var n := CountAfter(init, lo) + (if s[|s| - 1] > lo then 1 else 0);
      assert AfterPositions(s, lo) ==
        AfterPositions(init, lo) + (if s[|s| - 1] > lo then {|s| - 1} else {});
      n
  }

  /** The timestamps of `s` at or after `lo`, in the order of `s`
      (`Where(o => o >= lo).ToList()`; nothing is sorted). */
  function AtOrAfter(s: seq<Ticks>, lo: Ticks): (r: seq<Ticks>)
    ensures |r| == |AtOrAfterPositions(s, lo)|
    ensures forall x :: x in r <==> x in s && x >= lo
  {
    if |s| == 0 then []
    else
      var init := s[..|s| - 1];
      var r := AtOrAfter(init, lo) + (if s[|s| - 1] >= lo then [s[|s| - 1]] else []);
      assert AtOrAfterPositions(s, lo) ==
        AtOrAfterPositions(init, lo) + (if s[|s| - 1] >= lo then {|s| - 1} else {});
      assert forall x :: x in s <==> x in init || x == s[|s| - 1];
      r
  }

  /** Filtering distributes over concatenation, so the filtered list keeps
      the order of the history. */
  lemma {:induction false} AtOrAfterConcat(a: seq<Ticks>, b: seq<Ticks>, lo: Ticks)
    ensures AtOrAfter(a + b, lo) == AtOrAfter(a, lo) + AtOrAfter(b, lo)
    decreases |b|
  {
    if |b| == 0 {
      assert a + b == a;
    } else {
      var b' := b[..|b| - 1];
      assert (a + b)[..|a + b| - 1] == a + b';
      AtOrAfterConcat(a, b', lo);
    }
  }

  /** A history entirely inside the window is kept whole. */
  lemma {:induction false} AtOrAfterAll(s: seq<Ticks>, lo: Ticks)
    requires forall i :: 0 <= i < |s| ==> s[i] >= lo
    ensures AtOrAfter(s, lo) == s
  {
    if |s| > 0 {
      AtOrAfterAll(s[..|s| - 1], lo);
    }
  }

  /** A history entirely before the window is dropped. */
  lemma {:induction false} AtOrAfterNone(s: seq<Ticks>, lo: Ticks)
    requires forall i :: 0 <= i < |s| ==> s[i] < lo
    ensures AtOrAfter(s, lo) == []
  {
    if |s| > 0 {
      AtOrAfterNone(s[..|s| - 1], lo);
    }
  }

  /** Two window bounds that no element of `s` tells apart select the same
      elements. */
  lemma {:induction false} AtOrAfterSameCut(s: seq<Ticks>, lo: Ticks, lo': Ticks)
    requires forall x :: x in s ==> (x >= lo <==> x >= lo')
    ensures AtOrAfter(s, lo) == AtOrAfter(s, lo')
  {
    if |s| > 0 {
      var init := s[..|s| - 1];
      assert s == init + [s[|s| - 1]];
      assert forall x :: x in init ==> x in s;
      assert s[|s| - 1] in s;
      AtOrAfterSameCut(init, lo, lo');
    }
  }

  /** The smallest element of a non-empty sequence (LINQ `Min()`). */
  function SeqMin(s: seq<Ticks>): (m: Ticks)
    requires |s| > 0
    ensures m in s
    ensures forall x :: x in s ==> m <= x
  {
    var init := s[..|s| - 1];
    var last := s[|s| - 1];
    assert forall x :: x in s <==> x in init || x == last;
    if |init| == 0 then last
    else
      var m' := SeqMin(init);
      if m' <= last then m' else last
  }

  /** The smallest element of `s` that is at most `hi`, if there is one
      (`Where(a => a <= hi).Min()` on a possibly empty list). */
  function MinBelow(s: seq<Ticks>, hi: Ticks): (m: Option<Ticks>)
    ensures m.None? <==> forall x :: x in s ==> x > hi
    ensures m.Some? ==> m.value in s && m.value <= hi && forall x :: x in s && x <= hi ==> m.value <= x
  {
    if |s| == 0 then None
    else
      var init := s[..|s| - 1];
      var last := s[|s| - 1];
      assert forall x :: x in s <==> x in init || x == last;
      assert last in s;
      var m' := MinBelow(init, hi);
      if last > hi then m'
      else if m'.Some? && m'.value <= last then m'
      else Some(last)
  }

  /** The smallest element of `s` that is at most `hi`, or `default` when
      there is none (`Where(a => a <= hi).DefaultIfEmpty().Min()`). */
  function MinAtMost(s: seq<Ticks>, hi: Ticks, default: Ticks): (m: Ticks)
    ensures (exists x :: x in s && x <= hi) ==>
              m in s && m <= hi && forall x :: x in s && x <= hi ==> m <= x
    ensures (forall x :: x in s ==> x > hi) ==> m == default
  {
    MinBelow(s, hi).GetOr(default)
  }

  // ---------------------------------------------------------------------
  // Target.GetStatus
  // ---------------------------------------------------------------------

  /** Counts the history strictly inside the window `(now - frequency, now]`
      and compares the count with `qty`. */
  function GetStatus(t: Target, now: Ticks, past: seq<Ticks>): (r: Status)
    ensures r == Ok <==> |AfterPositions(past, now - t.frequency)| < t.qty
    ensures r == AtLimit <==> |AfterPositions(past, now - t.frequency)| == t.qty
    ensures r == OverLimit <==> |AfterPositions(past, now - t.frequency)| > t.qty
  {
    var count := CountAfter(past, now - t.frequency);
    if count < t.qty then Ok
    else if count == t.qty then AtLimit
    else OverLimit
  }

  // ---------------------------------------------------------------------
  // Target.GetEarliestOccurrence
  // ---------------------------------------------------------------------

  /** The moment a full or over-full window frees a slot: the oldest
      relevant element ages out when exactly `qty` are relevant; otherwise
      the element `qty` places from the end of the filtered list, taken in
      history order, ages out. */
  function AgeOut(t: Target, relevant: seq<Ticks>): (r: Ticks)
    requires t.qty > 0 && |relevant| >= t.qty
    ensures exists x :: x in relevant && r == x + t.frequency
  {
    if |relevant| == t.qty then SeqMin(relevant) + t.frequency
    else
      var x := relevant[|relevant| - t.qty];
      assert x in relevant;
      x + t.frequency
  }

  /** The earliest moment at or after `now` at which one more occurrence
      is allowed ("first fit"). */
  function GetEarliestOccurrence(t: Target, now: Ticks, past: seq<Ticks>): (r: Ticks)
    requires t.qty > 0
    ensures r >= now
    ensures |AtOrAfterPositions(past, now - t.frequency)| < t.qty ==> r == now
    ensures |AtOrAfterPositions(past, now - t.frequency)| >= t.qty ==>
              exists x :: x in past && x >= now - t.frequency && r == x + t.frequency
    ensures |AtOrAfterPositions(past, now - t.frequency)| == t.qty ==>
              forall x :: x in past && x >= now - t.frequency ==> r <= x + t.frequency
    ensures |AtOrAfterPositions(past, now - t.frequency)| > t.qty ==>
              var relevant := AtOrAfter(past, now - t.frequency);
              r == relevant[|relevant| - t.qty] + t.frequency
  {
    var relevant := AtOrAfter(past, now - t.frequency);
    if |relevant| < t.qty then now else AgeOut(t, relevant)
  }

  // ---------------------------------------------------------------------
  // Target.GetSpacedOccurrence
  // ---------------------------------------------------------------------

  /** The pro-rata advance for `used` occupied slots: `frequency / qty`
      per slot, in whole ticks. */
  function ProRata(t: Target, used: int): (d: Ticks)
    requires Eligible(t) && 0 <= used
    ensures 0 <= d
    ensures used <= t.qty ==> d <= t.frequency
  {
    assert used <= t.qty ==> t.frequency * used <= t.frequency * t.qty;
    t.frequency * used / t.qty
  }

  /** Like the earliest occurrence, but while the window still has room
      the next occurrence is pushed `frequency * count / qty` past the
      anchor, so that repeats are spread through the window. The anchor is
      the smallest relevant element not after `now`, or `DateTime.MinValue`
      when there is none. */
  function GetSpacedOccurrence(t: Target, now: Ticks, past: seq<Ticks>): (r: Ticks)
    requires Eligible(t)
    ensures r >= GetEarliestOccurrence(t, now, past) >= now
    ensures |AtOrAfterPositions(past, now - t.frequency)| == 0 ==> r == now
    ensures |AtOrAfterPositions(past, now - t.frequency)| >= t.qty ==>
              r == GetEarliestOccurrence(t, now, past)
    ensures 0 < |AtOrAfterPositions(past, now - t.frequency)| < t.qty ==>
              var relevant := AtOrAfter(past, now - t.frequency);
              var anchor := MinAtMost(relevant, now, MinValue);
              r == if anchor + ProRata(t, |relevant|) > now then anchor + ProRata(t, |relevant|) else now
  {
    var relevant := AtOrAfter(past, now - t.frequency);
    if |relevant| == 0 then now
    else if |relevant| < t.qty then
      var mostRecentOccurrence := MinAtMost(relevant, now, MinValue);
      // `Target.GetSpacedOccurrence` computes `qty - (qty - count)`, which is `count`.
      var diff := t.qty - (t.qty - |relevant|);
      var next := mostRecentOccurrence + ProRata(t, diff);
      if next > now then next else now
    else AgeOut(t, relevant)
  }

  // ---------------------------------------------------------------------
  // Properties relating the three computations
  // ---------------------------------------------------------------------

  /** Boundary asymmetry: a timestamp exactly `frequency` before `now` has
      left the window of `GetStatus` but still occupies a slot of the
      window used by the predictions. */
  lemma BoundaryAsymmetry(t: Target, now: Ticks, past: seq<Ticks>)
    ensures GetStatus(t, now, past + [now - t.frequency]) == GetStatus(t, now, past)
    ensures |AtOrAfter(past + [now - t.frequency], now - t.frequency)|
         == |AtOrAfter(past, now - t.frequency)| + 1
  {
    var s := past + [now - t.frequency];
    assert s[..|s| - 1] == past;
  }

  /** Within the window of a full (not over-full) target the prediction is
      constant up to the moment it names: asking again at any time between
      `now` and that moment gives the same answer, and in particular asking
      at that moment returns the moment itself. No earlier time is
      allowed. */
  lemma EarliestStableUntilDue(t: Target, now: Ticks, past: seq<Ticks>, later: Ticks)
    requires t.qty > 0
    requires |AtOrAfterPositions(past, now - t.frequency)| <= t.qty
    requires now <= later <= GetEarliestOccurrence(t, now, past)
    ensures GetEarliestOccurrence(t, later, past) == GetEarliestOccurrence(t, now, past)
  {
    var lo, lo' := now - t.frequency, later - t.frequency;
    var relevant := AtOrAfter(past, lo);
    if |relevant| == t.qty {
      assert GetEarliestOccurrence(t, now, past) == SeqMin(relevant) + t.frequency;
      assert AtOrAfter(past, lo') == relevant by {
        SameCutUpToMin(past, lo, lo', relevant);
      }
      assert GetEarliestOccurrence(t, later, past) == SeqMin(relevant) + t.frequency;
    }
  }

  /** Moving the cut forward, but not past the smallest timestamp it kept,
      keeps the same timestamps. */
  lemma SameCutUpToMin(past: seq<Ticks>, lo: Ticks, lo': Ticks, relevant: seq<Ticks>)
    requires relevant == AtOrAfter(past, lo) && |relevant| > 0
    requires lo <= lo' <= SeqMin(relevant)
    ensures AtOrAfter(past, lo') == relevant
  {
    forall x | x in past
      ensures x >= lo <==> x >= lo'
    {
      if x >= lo {
        assert x in relevant;
      }
    }
    AtOrAfterSameCut(past, lo, lo');
  }

  /** A history in non-decreasing order. */
  predicate Sorted(s: seq<Ticks>) {
    forall i, j :: 0 <= i < j < |s| ==> s[i] <= s[j]
  }

  lemma {:induction false} AtOrAfterSorted(s: seq<Ticks>, lo: Ticks)
    requires Sorted(s)
    ensures Sorted(AtOrAfter(s, lo))
  {
    if |s| > 0 {
      var init := s[..|s| - 1];
      var last := s[|s| - 1];
      assert Sorted(init);
      AtOrAfterSorted(init, lo);
      var a := AtOrAfter(init, lo);
      if last >= lo {
        assert forall x :: x in a ==> x <= last by {
          assert s == init + [last];
          SortedLastIsMax(init, last);
        }
        SortedAppend(a, last);
      }
    }
  }

  /** The last element of a sorted sequence bounds every earlier one. */
  lemma SortedLastIsMax(init: seq<Ticks>, last: Ticks)
    requires Sorted(init + [last])
    ensures forall x :: x in init ==> x <= last
  {
    forall x | x in init ensures x <= last {
      var i :| 0 <= i < |init| && init[i] == x;
      assert (init + [last])[i] == x && (init + [last])[|init|] == last;
    }
  }

  /** Appending an upper bound keeps a sequence sorted. */
  lemma SortedAppend(a: seq<Ticks>, last: Ticks)
    requires Sorted(a) && forall x :: x in a ==> x <= last
    ensures Sorted(a + [last])
  {
    var r := a + [last];
    forall i, j | 0 <= i < j < |r| ensures r[i] <= r[j] {
      if j == |a| {
        assert r[i] == a[i] && a[i] in a;
      }
    }
  }

  /** In a sorted sequence, when at least `k` elements exceed `lo`, the
      element `k` places from the end exceeds `lo` too. */
  lemma SortedTailAbove(s: seq<Ticks>, k: nat, lo: Ticks)
    requires Sorted(s) && 0 < k <= |s|
    requires |AfterPositions(s, lo)| >= k
    ensures s[|s| - k] > lo
  {
    var p := |s| - k;
    if s[p] <= lo {
      var big := AfterPositions(s, lo);
      assert big <= RangeSet(p + 1, |s|);
      RangeSetSize(p + 1, |s|);
      SubsetSize(big, RangeSet(p + 1, |s|));
      assert false;
    }
  }

  /** In a sorted sequence, when the element `k` places from the end
      exceeds `lo`, so do the `k` elements from it on. */
  lemma SortedTailCount(s: seq<Ticks>, k: nat, lo: Ticks)
    requires Sorted(s) && 0 < k <= |s|
    requires s[|s| - k] > lo
    ensures |AfterPositions(s, lo)| >= k
  {
    assert RangeSet(|s| - k, |s|) <= AfterPositions(s, lo);
    RangeSetSize(|s| - k, |s|);
    SubsetSize(RangeSet(|s| - k, |s|), AfterPositions(s, lo));
  }

  /** The smallest element of a sorted sequence is its first. */
  lemma SortedMin(s: seq<Ticks>)
    requires Sorted(s) && |s| > 0
    ensures SeqMin(s) == s[0]
  {
    var i :| 0 <= i < |s| && s[i] == SeqMin(s);
    assert s[0] <= s[i] || i == 0;
  }

  function RangeSet(lo: nat, hi: nat): (r: set<nat>)
    ensures forall i: nat :: i in r <==> lo <= i < hi
    decreases hi - lo
  {
    if lo >= hi then {} else {lo} + RangeSet(lo + 1, hi)
  }

  lemma {:induction false} RangeSetSize(lo: nat, hi: nat)
    ensures lo <= hi ==> |RangeSet(lo, hi)| == hi - lo
    decreases hi - lo
  {
    if lo < hi {
      RangeSetSize(lo + 1, hi);
      assert lo !in RangeSet(lo + 1, hi);
    }
  }

  lemma SubsetSize(a: set<nat>, b: set<nat>)
    requires a <= b
    ensures |a| <= |b|
  {
    assert b == a + (b - a);
  }

  /** With a sorted history, an over-limit status always means the next
      occurrence lies strictly in the future. */
  lemma OverLimitDelaysSorted(t: Target, now: Ticks, past: seq<Ticks>)
    requires t.qty > 0 && Sorted(past)
    requires GetStatus(t, now, past) == OverLimit
    ensures GetEarliestOccurrence(t, now, past) > now
  {
    OverFullSortedTail(t.qty, now - t.frequency, past);
    OverFullDelayed(t, now, past);
  }

  /** When more than `qty` elements are in the window and the one `qty`
      places from the end of the filtered list is strictly inside it, the
      next occurrence lies strictly in the future. */
  lemma OverFullDelayed(t: Target, now: Ticks, past: seq<Ticks>)
    requires t.qty > 0 && |AtOrAfterPositions(past, now - t.frequency)| > t.qty
    requires AtOrAfter(past, now - t.frequency)[|AtOrAfter(past, now - t.frequency)| - t.qty] > now - t.frequency
    ensures GetEarliestOccurrence(t, now, past) > now
  {
  }

  /** In a sorted history with more than `qty` elements after `lo`, more
      than `qty` are at or after `lo`, and the one `qty` places from the
      end of the filtered list is after `lo`. */
  lemma OverFullSortedTail(qty: nat, lo: Ticks, past: seq<Ticks>)
    requires qty > 0 && Sorted(past)
    requires |AfterPositions(past, lo)| > qty
    ensures |AtOrAfterPositions(past, lo)| > qty
    ensures AtOrAfter(past, lo)[|AtOrAfter(past, lo)| - qty] > lo
  {
    var relevant := AtOrAfter(past, lo);
    assert |AtOrAfterPositions(past, lo)| > qty by {
      assert AfterPositions(past, lo) <= AtOrAfterPositions(past, lo);
      SubsetSize(AfterPositions(past, lo), AtOrAfterPositions(past, lo));
    }
    assert relevant[|relevant| - qty] > lo by {
      AtOrAfterSorted(past, lo);
      CountAfterFiltered(past, lo);
      assert |AfterPositions(relevant, lo)| > qty;
      SortedTailAbove(relevant, qty, lo);
    }
  }

  /** With a sorted history the earliest prediction is `now` exactly when
      the status is Ok: fewer than `qty` timestamps lie strictly inside
      the window. (Counting the boundary as `GetEarliestOccurrence` does,
      "fewer than `qty` at or after `now - frequency`" is only sufficient:
      a full window whose oldest entry sits on the boundary frees a slot
      right now.) */
  lemma EarliestNowIffOkSorted(t: Target, now: Ticks, past: seq<Ticks>)
    requires t.qty > 0 && Sorted(past)
    ensures GetEarliestOccurrence(t, now, past) == now <==> GetStatus(t, now, past) == Ok
  {
    var lo := now - t.frequency;
    var relevant := AtOrAfter(past, lo);
    assert |AfterPositions(past, lo)| <= |AtOrAfterPositions(past, lo)| by {
      assert AfterPositions(past, lo) <= AtOrAfterPositions(past, lo);
      SubsetSize(AfterPositions(past, lo), AtOrAfterPositions(past, lo));
    }
    if |AtOrAfterPositions(past, lo)| >= t.qty {
      var x := relevant[|relevant| - t.qty];
      assert Sorted(relevant) by {
        AtOrAfterSorted(past, lo);
      }
      assert GetEarliestOccurrence(t, now, past) == x + t.frequency by {
        EarliestIsAgeOut(t, now, past);
        AgeOutSorted(t, relevant);
      }
      assert x >= lo by {
        assert x in relevant;
      }
      assert |AfterPositions(relevant, lo)| == |AfterPositions(past, lo)| by {
        CountAfterFiltered(past, lo);
      }
      SortedKthFromEnd(relevant, t.qty, lo);
    }
  }

  /** In a sorted sequence the element `k` places from the end exceeds
      `lo` exactly when at least `k` elements do. */
  lemma SortedKthFromEnd(s: seq<Ticks>, k: nat, lo: Ticks)
    requires Sorted(s) && 0 < k <= |s|
    ensures s[|s| - k] > lo <==> |AfterPositions(s, lo)| >= k
  {
    if s[|s| - k] > lo {
      SortedTailCount(s, k, lo);
    } else if |AfterPositions(s, lo)| >= k {
      SortedTailAbove(s, k, lo);
    }
  }

  /** A full or over-full window frees its slot when `AgeOut` says. */
  lemma EarliestIsAgeOut(t: Target, now: Ticks, past: seq<Ticks>)
    requires t.qty > 0 && |AtOrAfterPositions(past, now - t.frequency)| >= t.qty
    ensures GetEarliestOccurrence(t, now, past) == AgeOut(t, AtOrAfter(past, now - t.frequency))
  {
  }

  /** Over a sorted filtered list, the element that ages out is the one
      `qty` places from the end: for a full window that is the minimum. */
  lemma AgeOutSorted(t: Target, relevant: seq<Ticks>)
    requires t.qty > 0 && |relevant| >= t.qty && Sorted(relevant)
    ensures AgeOut(t, relevant) == relevant[|relevant| - t.qty] + t.frequency
  {
    if |relevant| == t.qty {
      SortedMin(relevant);
    }
  }

  /** Filtering by `>= lo` keeps every element strictly after `lo`. */
  lemma {:induction false} CountAfterFiltered(s: seq<Ticks>, lo: Ticks)
    ensures CountAfter(AtOrAfter(s, lo), lo) == CountAfter(s, lo)
  {
    if |s| > 0 {
      var init := s[..|s| - 1];
      var last := s[|s| - 1];
      CountAfterFiltered(init, lo);
      var a := AtOrAfter(init, lo);
      if last >= lo {
        assert (a + [last])[..|a + [last]| - 1] == a;
      } else {
        assert a + [] == a;
      }
    }
  }

  /** The as-written filter keeps history order, so for an unsorted history
      the "over-full" branch can pick an element on the window boundary:
      here the status is OverLimit yet an occurrence is allowed right now. */
  lemma OverLimitNotDelayedUnsorted()
    ensures GetStatus(Target(1, 10), 10, [5, 7, 0]) == OverLimit
    ensures GetEarliestOccurrence(Target(1, 10), 10, [5, 7, 0]) == 10
  {
    var past: seq<Ticks> := [5, 7, 0];
    assert past[..2] == [5, 7];
    assert past[..2][..1] == [5];
    assert past[..2][..1][..0] == [];
    assert AtOrAfter(past, 0) == [5, 7, 0];
    assert CountAfter(past, 0) == 2;
  }

  /** Spacing: with `k` (fewer than `qty`) occurrences all at the same
      moment `a` inside the window, the next one is due `k` slots of
      `frequency / qty` after `a`, or now if that has already passed. */
  lemma SpacedSpreadsEvenly(t: Target, now: Ticks, a: Ticks, past: seq<Ticks>)
    requires Eligible(t) && 0 < |past| < t.qty
    requires forall i :: 0 <= i < |past| ==> past[i] == a
    requires now - t.frequency <= a <= now
    ensures GetSpacedOccurrence(t, now, past) ==
              if a + ProRata(t, |past|) > now then a + ProRata(t, |past|) else now
  {
    assert AtOrAfter(past, now - t.frequency) == past && MinAtMost(past, now, MinValue) == a by {
      AllSameWindow(past, a, now - t.frequency, now);
    }
    SpacedWithRoom(t, now, past, past, a);
  }

  /** The branch of `GetSpacedOccurrence` for a window with room left,
      named by the relevant timestamps and the anchor. */
  lemma SpacedWithRoom(t: Target, now: Ticks, past: seq<Ticks>, relevant: seq<Ticks>, anchor: Ticks)
    requires Eligible(t)
    requires relevant == AtOrAfter(past, now - t.frequency) && 0 < |relevant| < t.qty
    requires anchor == MinAtMost(relevant, now, MinValue)
    ensures GetSpacedOccurrence(t, now, past) ==
              if anchor + ProRata(t, |relevant|) > now then anchor + ProRata(t, |relevant|) else now
  {
    assert 0 < |AtOrAfterPositions(past, now - t.frequency)| < t.qty;
  }

  lemma AllSameWindow(past: seq<Ticks>, a: Ticks, lo: Ticks, now: Ticks)
    requires 0 < |past|
    requires forall i :: 0 <= i < |past| ==> past[i] == a
    requires lo <= a <= now
    ensures AtOrAfter(past, lo) == past
    ensures |AtOrAfterPositions(past, lo)| == |past|
    ensures MinAtMost(past, now, MinValue) == a
  {
    AtOrAfterAll(past, lo);
    assert past[0] in past;
  }
}
