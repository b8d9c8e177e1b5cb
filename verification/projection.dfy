/** Finite, restartable generators: the explicit-state form of the
    `yield return` loops of Shared/TrackedItem.cs, where every produced
    value is appended to the simulated history before the next one. */
module Projection {
  import opened Clock

  /** `k` values; each is `step` applied to the history extended by the
      values produced before it. */
  function Unfold(step: seq<Ticks> --> Ticks, history: seq<Ticks>, k: nat): (r: seq<Ticks>)
    requires forall h :: step.requires(h)
    ensures |r| == k
    ensures forall i :: 0 <= i < k ==> r[i] == step(history + r[..i])
    decreases k
  {
    if k == 0 then []
    else
      var next := step(history);
      var rest := Unfold(step, history + [next], k - 1);
      var r := [next] + rest;
      assert history + r[..0] == history;
      assert forall i :: 0 < i < k ==> r[i] == step(history + r[..i]) by {
        forall i | 0 < i < k ensures r[i] == step(history + r[..i]) {
          assert r[..i] == [next] + rest[..i - 1];
          assert history + r[..i] == (history + [next]) + rest[..i - 1];
        }
      }
      r
  }

  /** A value no earlier than `lo`, followed by a non-decreasing sequence
      that never goes below it, is a non-decreasing sequence never below
      `lo`. */
  lemma ConsMonotone(lo: Ticks, next: Ticks, rest: seq<Ticks>)
    requires lo <= next
    requires forall i :: 0 <= i < |rest| ==> next <= rest[i]
    requires forall i, j :: 0 <= i <= j < |rest| ==> rest[i] <= rest[j]
    ensures var r := [next] + rest; forall i :: 0 <= i < |r| ==> lo <= r[i]
    ensures var r := [next] + rest; forall i, j :: 0 <= i <= j < |r| ==> r[i] <= r[j]
  {
    var r := [next] + rest;
    assert forall i :: 0 < i < |r| ==> r[i] == rest[i - 1];
  }

  /** Position `i` of `[next] + rest`, and the history before it, in terms
      of `rest`. */
  lemma ConsIndex(history: seq<Ticks>, next: Ticks, rest: seq<Ticks>, i: nat)
    requires 0 < i <= |rest|
    ensures ([next] + rest)[i] == rest[i - 1]
    ensures ([next] + rest)[i - 1] == if i == 1 then next else rest[i - 2]
    ensures history + ([next] + rest)[..i] == history + [next] + rest[..i - 1]
  {
    assert ([next] + rest)[..i] == [next] + rest[..i - 1];
  }
}
