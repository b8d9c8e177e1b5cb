/** The plain records of Shared/Occurrence.cs, Shared/StockAcquisition.cs and
    Shared/TrackedItemArchive.cs, with the stock-usage sum over a history. */
module Records {
  import opened Wrappers
  import opened Clock

  /** A recorded event: when it really happened, the moment it counts as
      having happened for the rate limits, and the stock it consumed. */
  datatype Occurrence = Occurrence(actual: Ticks, safety: Ticks, stockUsed: Option<real>)

  datatype StockAcquisition = StockAcquisition(dateAcquired: Ticks, quantity: real, note: string)

  /** A batch of old occurrences detached from a tracked item. */
  datatype TrackedItemArchive = TrackedItemArchive(
    trackedItemId: nat,
    archiveNumber: int,
    archivedOccurrences: seq<Occurrence>,
    createdAt: Ticks)

  /** Stock consumed by one occurrence; an absent amount counts as zero. */
  function Usage(o: Occurrence): real {
    o.stockUsed.GetOr(0.0)
  }

  function TotalUsed(s: seq<Occurrence>): real {
    if |s| == 0 then 0.0 else Usage(s[0]) + TotalUsed(s[1..])
  }

  lemma {:induction false} TotalUsedConcat(a: seq<Occurrence>, b: seq<Occurrence>)
    ensures TotalUsed(a + b) == TotalUsed(a) + TotalUsed(b)
  {
    if |a| == 0 {
      assert a + b == b;
    } else {
      assert (a + b)[1..] == a[1..] + b;
      TotalUsedConcat(a[1..], b);
    }
  }

  /** The usage total reads nothing but the stock amounts. */
  lemma {:induction false} TotalUsedSameStock(a: seq<Occurrence>, b: seq<Occurrence>)
    requires |a| == |b|
    requires forall j :: 0 <= j < |a| ==> a[j].stockUsed == b[j].stockUsed
    ensures TotalUsed(a) == TotalUsed(b)
  {
    if |a| > 0 {
      TotalUsedSameStock(a[1..], b[1..]);
    }
  }

  function TotalAcquired(s: seq<StockAcquisition>): real {
    if |s| == 0 then 0.0 else s[0].quantity + TotalAcquired(s[1..])
  }
}
