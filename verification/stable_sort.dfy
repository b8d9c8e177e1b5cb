/** A stable sort of occurrences by actual timestamp (LINQ `OrderBy`, which
    keeps entries with equal keys in their original order). */
module StableSort {
  import opened Clock
  import opened Records

  predicate SortedByActual(s: seq<Occurrence>) {
    forall i, j :: 0 <= i < j < |s| ==> s[i].actual <= s[j].actual
  }

  /** The entries of `s` whose actual timestamp is `k`, in the order of `s`.
      A sort is stable exactly when it leaves this sequence unchanged for
      every `k`. */
  function WithActual(s: seq<Occurrence>, k: Ticks): seq<Occurrence> {
    if |s| == 0 then []
    else (if s[0].actual == k then [s[0]] else []) + WithActual(s[1..], k)
  }

  lemma {:induction false} WithActualConcat(a: seq<Occurrence>, b: seq<Occurrence>, k: Ticks)
    ensures WithActual(a + b, k) == WithActual(a, k) + WithActual(b, k)
  {
    if |a| == 0 {
      assert a + b == b;
    } else {
      var head := if a[0].actual == k then [a[0]] else [];
      assert (a + b)[0] == a[0];
      assert (a + b)[1..] == a[1..] + b;
      assert WithActual(a + b, k) == head + WithActual(a[1..] + b, k);
      assert WithActual(a, k) == head + WithActual(a[1..], k);
      WithActualConcat(a[1..], b, k);
      assert head + (WithActual(a[1..], k) + WithActual(b, k)) == (head + WithActual(a[1..], k)) + WithActual(b, k);
    }
  }

  lemma WithActualSnoc(a: seq<Occurrence>, x: Occurrence)
    ensures forall k :: WithActual(a + [x], k) == WithActual(a, k) + (if x.actual == k then [x] else [])
  {
    forall k ensures WithActual(a + [x], k) == WithActual(a, k) + (if x.actual == k then [x] else []) {
      WithActualConcat(a, [x], k);
      assert [x][1..] == [];
    }
  }

  lemma {:induction false} WithActualAbsent(s: seq<Occurrence>, k: Ticks)
    requires forall i :: 0 <= i < |s| ==> s[i].actual != k
    ensures WithActual(s, k) == []
  {
    if |s| > 0 {
      WithActualAbsent(s[1..], k);
    }
  }

  /** Inserts `x` after every entry whose actual timestamp is not later. */
  function Insert(s: seq<Occurrence>, x: Occurrence): (r: seq<Occurrence>)
    requires SortedByActual(s)
    ensures SortedByActual(r)
    ensures multiset(r) == multiset(s) + multiset{x}
    ensures forall y :: y in r ==> y == x || y in s
  {
    if |s| == 0 then [x]
    else if x.actual < s[0].actual then [x] + s
    else
      var rest := Insert(s[1..], x);
      InsertBehindHead(s, x, rest);
      assert s == [s[0]] + s[1..];
      [s[0]] + rest
  }

  /** The head of a sorted list, followed by what inserting a later entry
      into its tail gives, is sorted. */
  lemma InsertBehindHead(s: seq<Occurrence>, x: Occurrence, rest: seq<Occurrence>)
    requires SortedByActual(s) && |s| > 0 && s[0].actual <= x.actual
    requires SortedByActual(rest)
    requires forall y :: y in rest ==> y == x || y in s[1..]
    ensures SortedByActual([s[0]] + rest)
  {
    assert forall j :: 0 <= j < |rest| ==> s[0].actual <= rest[j].actual by {
      forall j | 0 <= j < |rest| ensures s[0].actual <= rest[j].actual {
        assert rest[j] in rest;
        if rest[j] != x {
          var k :| 0 <= k < |s[1..]| && s[1..][k] == rest[j];
          assert s[1..][k] == s[k + 1];
        }
      }
    }
    var r := [s[0]] + rest;
    forall i, j | 0 <= i < j < |r| ensures r[i].actual <= r[j].actual {
      assert r[j] == rest[j - 1];
      if i > 0 {
        assert r[i] == rest[i - 1];
      }
    }
  }

  /** Insertion after the entries with the same key keeps them in order. */
  lemma {:induction false} InsertStable(s: seq<Occurrence>, x: Occurrence, k: Ticks)
    requires SortedByActual(s)
    ensures WithActual(Insert(s, x), k) == WithActual(s, k) + (if x.actual == k then [x] else [])
  {
    if |s| == 0 {
      assert [x][1..] == [];
    } else if x.actual < s[0].actual {
      assert ([x] + s)[1..] == s;
      if x.actual == k {
        WithActualAbsent(s, k);
      }
    } else {
      var tail := s[1..];
      assert SortedByActual(tail);
      var rest := Insert(tail, x);
      var head := if s[0].actual == k then [s[0]] else [];
      assert Insert(s, x) == [s[0]] + rest;
      assert ([s[0]] + rest)[1..] == rest;
      assert WithActual(Insert(s, x), k) == head + WithActual(rest, k);
      assert WithActual(s, k) == head + WithActual(tail, k);
      InsertStable(tail, x, k);
    }
  }

  lemma {:induction false} InsertUsage(s: seq<Occurrence>, x: Occurrence)
    requires SortedByActual(s)
    ensures TotalUsed(Insert(s, x)) == TotalUsed(s) + Usage(x)
  {
    if |s| == 0 {
      assert [x][1..] == [];
    } else if x.actual < s[0].actual {
      assert ([x] + s)[1..] == s;
    } else {
      var tail := s[1..];
      assert SortedByActual(tail);
      var rest := Insert(tail, x);
      assert Insert(s, x) == [s[0]] + rest;
      assert ([s[0]] + rest)[1..] == rest;
      InsertUsage(tail, x);
    }
  }

  /** Stable ascending sort: sorted, a permutation, entries with equal keys
      in their original order, and the same stock usage in total. */
  function SortByActual(s: seq<Occurrence>): (r: seq<Occurrence>)
    ensures SortedByActual(r)
    ensures multiset(r) == multiset(s)
    ensures |r| == |s|
    ensures forall k :: WithActual(r, k) == WithActual(s, k)
    ensures TotalUsed(r) == TotalUsed(s)
  {
    if |s| == 0 then []
    else
      var init := s[..|s| - 1];
      var last := s[|s| - 1];
      var sorted := SortByActual(init);
      assert s == init + [last];
      SortStep(init, last, sorted);
      Insert(sorted, last)
  }

  lemma SortStep(init: seq<Occurrence>, last: Occurrence, sorted: seq<Occurrence>)
    requires SortedByActual(sorted)
    requires forall k :: WithActual(sorted, k) == WithActual(init, k)
    requires TotalUsed(sorted) == TotalUsed(init)
    ensures forall k :: WithActual(Insert(sorted, last), k) == WithActual(init + [last], k)
    ensures TotalUsed(Insert(sorted, last)) == TotalUsed(init + [last])
  {
    WithActualSnoc(init, last);
    forall k ensures WithActual(Insert(sorted, last), k) == WithActual(init + [last], k) {
      InsertStable(sorted, last, k);
    }
    InsertUsage(sorted, last);
    TotalUsedConcat(init, [last]);
    assert [last][1..] == [];
  }
}
