/**
  * The ring of per-second buckets of `internal/pool/traffic/record.go`, measured against the complete
  * log of request seconds it stands in for.
  */
module TrafficRing {
  import opened Remainders

  datatype Bucket = Bucket(second: int, requests: nat)

  /** Go's `%`: the remainder takes the sign of the dividend. */
  function TruncatedRemainder(a: int, n: int): int
    requires n > 0
  {
    if a >= 0 then a % n else -((-a) % n)
  }

  /** `bucketIndex`: the correction for negative seconds makes it the mathematical residue. */
  function BucketIndex(unixSecond: int, bucketCount: int): (index: int)
    requires bucketCount > 0
    ensures index == unixSecond % bucketCount
  {
    var index := TruncatedRemainder(unixSecond, bucketCount);
    assert index < 0 ==> unixSecond % bucketCount == index + bucketCount by {
      if index < 0 {
        RemainderIsUnique(unixSecond, bucketCount, -((-unixSecond) / bucketCount) - 1, index + bucketCount);
      }
    }
    assert unixSecond < 0 && index == 0 ==> unixSecond % bucketCount == 0 by {
      if unixSecond < 0 && index == 0 {
        RemainderIsUnique(unixSecond, bucketCount, -((-unixSecond) / bucketCount), 0);
      }
    }
    if index < 0 then index + bucketCount else index
  }

  /** The bucket at `index` after the requests of `log` have arrived in that order. */
  function BucketAfter(log: seq<int>, width: int, index: int): Bucket
    requires width > 0
  {
    if log == [] then Bucket(0, 0)
    else
      var before := BucketAfter(log[..|log| - 1], width, index);
      var second := log[|log| - 1];
      if second % width != index then before
      else if before.second == second then Bucket(second, before.requests + 1)
      else Bucket(second, 1)
  }

  /** Number of requests logged for one second. */
  function Count(log: seq<int>, second: int): nat {
    if log == [] then 0
    else Count(log[..|log| - 1], second) + if log[|log| - 1] == second then 1 else 0
  }

  predicate InWindow(second: int, now: int, width: int) {
    now - width < second <= now
  }

  /** Number of requests logged within the window that ends at `now`. */
  function WindowCount(log: seq<int>, now: int, width: int): nat {
    if log == [] then 0
    else WindowCount(log[..|log| - 1], now, width) + if InWindow(log[|log| - 1], now, width) then 1 else 0
  }

  /** The positions of the log whose second lies in the `width` seconds that end with `now`. */
  function Recent(log: seq<int>, now: int, width: int): set<int> {
    set i | 0 <= i < |log| && now - width < log[i] <= now
  }

  lemma {:induction false} WindowCountIsRecent(log: seq<int>, now: int, width: int)
    ensures WindowCount(log, now, width) == |Recent(log, now, width)|
  {
    if log == [] {
      assert Recent(log, now, width) == {};
    } else {
      var n := |log| - 1;
      WindowCountIsRecent(log[..n], now, width);
      if now - width < log[n] <= now {
        assert Recent(log, now, width) == Recent(log[..n], now, width) + {n};
      } else {
        assert Recent(log, now, width) == Recent(log[..n], now, width);
      }
    }
  }

  /** What `requestsInWindow` adds for one bucket. */
  function WindowPart(bucket: Bucket, now: int, width: int): nat {
    var delta := now - bucket.second;
    if 0 <= delta < width then bucket.requests else 0
  }

  function RingTotal(log: seq<int>, now: int, width: int, n: nat): nat
    requires width > 0
  {
    if n == 0 then 0 else RingTotal(log, now, width, n - 1) + WindowPart(BucketAfter(log, width, n - 1), now, width)
  }

  /** The one second of the window that belongs to bucket `index`. */
  function SecondAt(now: int, width: int, index: int): (second: int)
    requires width > 0
  {
    now - (now - index) % width
  }

  lemma SecondAtIsTheOne(now: int, width: int, index: int, second: int)
    requires 0 <= index < width
    ensures InWindow(SecondAt(now, width, index), now, width) && SecondAt(now, width, index) % width == index
    ensures InWindow(second, now, width) && second % width == index ==> second == SecondAt(now, width, index)
  {
    var r := (now - index) % width;
    var q := (now - index) / width;
    assert now - index == q * width + r;
    RemainderIsUnique(now - r, width, q, index);
    if InWindow(second, now, width) && second % width == index {
      var q' := second / width;
      assert now - index == q' * width + (now - second);
      RemainderIsUnique(now - index, width, q', now - second);
    }
  }

  /** A bucket holds a second of its own residue, or has never been used. */
  lemma {:induction false} BucketResidue(log: seq<int>, width: int, index: int)
    requires 0 <= index < width
    ensures BucketAfter(log, width, index).requests > 0 ==> BucketAfter(log, width, index).second % width == index
  {
    if log != [] {
      BucketResidue(log[..|log| - 1], width, index);
    }
  }

  /** Some request for `second` was pushed out of its bucket by a later request for another second. */
  ghost predicate Displaced(log: seq<int>, width: int, second: int)
    requires width > 0
  {
    exists p, q :: 0 <= p < q < |log| && log[p] == second && log[q] != second && log[q] % width == second % width
  }

  function Held(bucket: Bucket, second: int): nat {
    if bucket.second == second then bucket.requests else 0
  }

  lemma {:induction false} CountIsPositiveIff(log: seq<int>, second: int)
    ensures Count(log, second) > 0 <==> second in log
  {
    if log != [] {
      CountIsPositiveIff(log[..|log| - 1], second);
      assert log == log[..|log| - 1] + [log[|log| - 1]];
    }
  }

  /** A bucket never overcounts a second, and is exact for it exactly when nothing displaced that second. */
  lemma {:induction false} HeldIsCountIff(log: seq<int>, width: int, second: int)
    requires width > 0
    ensures Held(BucketAfter(log, width, second % width), second) <= Count(log, second)
    ensures Held(BucketAfter(log, width, second % width), second) == Count(log, second) <==> !Displaced(log, width, second)
  {
    if log != [] {
      var n := |log| - 1;
      var front, last := log[..n], log[n];
      HeldIsCountIff(front, width, second);
      DisplacedStep(log, width, second);
      CountIsPositiveIff(front, second);
    }
  }

  lemma DisplacedStep(log: seq<int>, width: int, second: int)
    requires width > 0 && log != []
    ensures Displaced(log, width, second) <==>
      || Displaced(log[..|log| - 1], width, second)
      || (second in log[..|log| - 1] && log[|log| - 1] != second && log[|log| - 1] % width == second % width)
  {
    var n := |log| - 1;
    var front := log[..n];
    if Displaced(front, width, second) {
      var p, q :| 0 <= p < q < |front| && front[p] == second && front[q] != second && front[q] % width == second % width;
      assert log[p] == second && log[q] != second;
    }
    if second in front && log[n] != second && log[n] % width == second % width {
      var p :| 0 <= p < n && front[p] == second;
      assert log[p] == second && log[n] != second;
    }
    if Displaced(log, width, second) {
      var p, q :| 0 <= p < q < |log| && log[p] == second && log[q] != second && log[q] % width == second % width;
      assert front[p] == second;
      assert q < n ==> front[q] != second;
    }
  }

  function SumCounts(log: seq<int>, now: int, width: int, n: nat): nat
    requires width > 0
  {
    if n == 0 then 0 else SumCounts(log, now, width, n - 1) + Count(log, SecondAt(now, width, n - 1))
  }

  lemma {:induction false} SumCountsStep(log: seq<int>, now: int, width: int, n: nat)
    requires 0 <= n <= width && width > 0 && log != []
    ensures var last := log[|log| - 1];
      SumCounts(log, now, width, n) == SumCounts(log[..|log| - 1], now, width, n)
        + if InWindow(last, now, width) && last % width < n then 1 else 0
  {
    if n > 0 {
      SumCountsStep(log, now, width, n - 1);
      SecondAtIsTheOne(now, width, n - 1, log[|log| - 1]);
    }
  }

  /** The window is partitioned by the buckets. */
  lemma {:induction false} WindowCountBySecond(log: seq<int>, now: int, width: int)
    requires width > 0
    ensures SumCounts(log, now, width, width) == WindowCount(log, now, width)
  {
    if log == [] {
      EmptySum(now, width, width);
    } else {
      SumCountsStep(log, now, width, width);
      WindowCountBySecond(log[..|log| - 1], now, width);
    }
  }

  lemma {:induction false} EmptySum(now: int, width: int, n: nat)
    requires width > 0
    ensures SumCounts([], now, width, n) == 0
  {
    if n > 0 {
      EmptySum(now, width, n - 1);
    }
  }

  lemma PartIsHeld(log: seq<int>, now: int, width: int, index: int)
    requires 0 <= index < width
    ensures WindowPart(BucketAfter(log, width, index), now, width)
         == Held(BucketAfter(log, width, index), SecondAt(now, width, index))
  {
    var bucket := BucketAfter(log, width, index);
    SecondAtIsTheOne(now, width, index, bucket.second);
    BucketResidue(log, width, index);
  }

  ghost predicate DisplacedBelow(log: seq<int>, now: int, width: int, n: nat)
    requires width > 0
  {
    exists index :: 0 <= index < n && Displaced(log, width, SecondAt(now, width, index))
  }

  lemma {:induction false} TotalIsSumIff(log: seq<int>, now: int, width: int, n: nat)
    requires 0 <= n <= width && width > 0
    ensures RingTotal(log, now, width, n) <= SumCounts(log, now, width, n)
    ensures RingTotal(log, now, width, n) == SumCounts(log, now, width, n) <==> !DisplacedBelow(log, now, width, n)
  {
    if n > 0 {
      var second := SecondAt(now, width, n - 1);
      TotalIsSumIff(log, now, width, n - 1);
      PartIsHeld(log, now, width, n - 1);
      SecondAtIsTheOne(now, width, n - 1, second);
      HeldIsCountIff(log, width, second);
      assert DisplacedBelow(log, now, width, n) <==>
        DisplacedBelow(log, now, width, n - 1) || Displaced(log, width, second);
    }
  }

  /** Some request of the window was pushed out by a later request for another second of the same residue. */
  ghost predicate Overwritten(log: seq<int>, now: int, width: int)
    requires width > 0
  {
    exists p, q :: 0 <= p < q < |log| && InWindow(log[p], now, width) && log[q] != log[p] && log[q] % width == log[p] % width
  }

  /** The ring never overcounts the window, for any order of arrival, and is exact if and only if no request
      of the window was overwritten. */
  lemma RingIsExactIff(log: seq<int>, now: int, width: int)
    requires width > 0
    ensures RingTotal(log, now, width, width) <= WindowCount(log, now, width)
    ensures RingTotal(log, now, width, width) == WindowCount(log, now, width) <==> !Overwritten(log, now, width)
  {
    TotalIsSumIff(log, now, width, width);
    WindowCountBySecond(log, now, width);
    if DisplacedBelow(log, now, width, width) {
      var index :| 0 <= index < width && Displaced(log, width, SecondAt(now, width, index));
      var second := SecondAt(now, width, index);
      SecondAtIsTheOne(now, width, index, second);
      var p, q :| 0 <= p < q < |log| && log[p] == second && log[q] != second && log[q] % width == second % width;
      assert InWindow(log[p], now, width) && log[q] != log[p];
    }
    if Overwritten(log, now, width) {
      var p, q :| 0 <= p < q < |log| && InWindow(log[p], now, width) && log[q] != log[p] && log[q] % width == log[p] % width;
      var index := log[p] % width;
      SecondAtIsTheOne(now, width, index, log[p]);
      assert Displaced(log, width, SecondAt(now, width, index));
    }
  }

  /** With a clock at or past every request, and no request a whole window late, the ring equals the log. */
  lemma RingIsExactWhenTimely(log: seq<int>, now: int, width: int)
    requires width > 0
    requires forall p :: 0 <= p < |log| ==> log[p] <= now
    requires forall p, q :: 0 <= p < q < |log| ==> log[q] > log[p] - width
    ensures RingTotal(log, now, width, width) == WindowCount(log, now, width)
  {
    RingIsExactIff(log, now, width);
    if Overwritten(log, now, width) {
      var p, q :| 0 <= p < q < |log| && InWindow(log[p], now, width) && log[q] != log[p] && log[q] % width == log[p] % width;
      SameResidueApart(log[p], log[q], width);
      assert false;
    }
  }

  /** Two buckets, one request in second 5, then one in second 7: both fall into bucket 1. */
  lemma LateReaderUndercounts()
    ensures WindowCount([5, 7], 6, 2) == 1 && RingTotal([5, 7], 6, 2, 2) == 0
  {
    var log := [5, 7];
    assert log[..1] == [5] && [5][..0] == [];
    assert BucketAfter([5], 2, 1) == Bucket(5, 1) && BucketAfter([5], 2, 0) == Bucket(0, 0);
    assert BucketAfter(log, 2, 1) == Bucket(7, 1) && BucketAfter(log, 2, 0) == Bucket(0, 0);
    assert WindowCount([5], 6, 2) == 1;
    assert RingTotal(log, 6, 2, 1) == 0;
  }
}
