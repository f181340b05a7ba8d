/** Per-service traffic records of `internal/pool/traffic/record.go`, with every `bucketAdd` taken as one step. */
module TrafficRecord {
  import opened TrafficRing
  import opened Wrappers

  /** Durations and instants are nanoseconds. */
  const SECOND: int := 1_000_000_000
  const DEFAULT_WINDOW: int := 60 * SECOND

  /** `newRecorder`: the window actually used, a whole positive number of seconds. */
  function EffectiveWindow(window: int): (effective: int)
    ensures effective >= SECOND && effective % SECOND == 0
    ensures SECOND <= window ==> effective <= window < effective + SECOND
    ensures 0 < window < SECOND ==> effective == SECOND
    ensures window <= 0 ==> effective == DEFAULT_WINDOW
  {
    var positive := if window <= 0 then DEFAULT_WINDOW else window;
    var atLeastSecond := if positive < SECOND then SECOND else positive;
    atLeastSecond - atLeastSecond % SECOND
  }

  /** `bucketCount`: Go's division truncates, so a negative window also gives one bucket. */
  function BucketCount(window: int): (count: int)
    ensures count >= 1
    ensures window >= SECOND && window % SECOND == 0 ==> count * SECOND == window
  {
    var count := if window >= 0 then window / SECOND else -((-window) / SECOND);
    if count < 1 then 1 else count
  }

  datatype TrafficStatus = TrafficStatus(
    configKey: string,
    inFlight: int,
    startedRequests: nat,
    finishedRequests: nat,
    requestsInWindow: nat,
    rps: real,
    averageLatency: int,
    window: int,
    lastSeenAt: Option<int>)

  /** The traffic of one service. `log` is the complete history the ring summarises. */
  class ConfigRecord {
    var inFlight: int
    var startedRequests: nat
    var finishedRequests: nat
    var totalLatency: int
    var lastSeen: int
    const buckets: array<Bucket>
    ghost var log: seq<int>

    ghost predicate Valid()
      reads this, buckets
    {
      && buckets.Length > 0
      && (forall i :: 0 <= i < buckets.Length ==> buckets[i] == BucketAfter(log, buckets.Length, i))
      && inFlight == startedRequests - finishedRequests
      && finishedRequests <= startedRequests == |log|
      && totalLatency >= 0
    }

    constructor (window: int)
      ensures Valid() && fresh(buckets)
      ensures buckets.Length == BucketCount(window) && log == []
      ensures startedRequests == 0
    {
      inFlight, startedRequests, finishedRequests, totalLatency, lastSeen := 0, 0, 0, 0, 0;
      buckets := new Bucket[BucketCount(window)](_ => Bucket(0, 0));
      log := [];
    }

    /** `bucketAdd`, first branch or locked branch alike: one more request for `second`. */
    method BucketAdd(second: int)
      requires buckets.Length > 0
      requires forall i :: 0 <= i < buckets.Length ==> buckets[i] == BucketAfter(log, buckets.Length, i)
      modifies this`log, buckets
      ensures log == old(log) + [second]
      ensures forall i :: 0 <= i < buckets.Length ==> buckets[i] == BucketAfter(log, buckets.Length, i)
    {
      var index := BucketIndex(second, buckets.Length);
      if buckets[index].second == second {
        buckets[index] := Bucket(second, buckets[index].requests + 1);
      } else {
        buckets[index] := Bucket(second, 0);
        buckets[index] := Bucket(second, buckets[index].requests + 1);
      }
      log := log + [second];
      assert log[..|log| - 1] == old(log);
    }

    /** `Start` on an existing record. */
    method Start(startedAt: int) returns (completion: Completion)
      requires Valid()
      modifies this, buckets
      ensures Valid() && fresh(completion)
      ensures log == old(log) + [startedAt / SECOND]
      ensures inFlight == old(inFlight) + 1 && startedRequests == old(startedRequests) + 1
      ensures finishedRequests == old(finishedRequests) && totalLatency == old(totalLatency) && lastSeen == startedAt
      ensures completion.record == this && completion.startedAt == startedAt && !completion.fired
    {
      inFlight := inFlight + 1;
      startedRequests := startedRequests + 1;
      lastSeen := startedAt;
      BucketAdd(startedAt / SECOND);
      completion := new Completion(this, startedAt);
    }

    /** `finish`. */
    method Finish(startedAt: int, finishedAt: int)
      requires Valid() && finishedRequests < startedRequests
      modifies this
      ensures Valid() && log == old(log)
      ensures inFlight == old(inFlight) - 1 && startedRequests == old(startedRequests)
      ensures finishedRequests == old(finishedRequests) + 1 && lastSeen == finishedAt
      ensures totalLatency == old(totalLatency) + (if finishedAt < startedAt then 0 else finishedAt - startedAt)
    {
      var latency := finishedAt - startedAt;
      if latency < 0 {
        latency := 0;
      }
      inFlight := inFlight - 1;
      finishedRequests := finishedRequests + 1;
      totalLatency := totalLatency + latency;
      lastSeen := finishedAt;
    }

    /** `requestsInWindow`: never more than the log holds, and the log's own count unless something was overwritten. */
    method RequestsInWindow(nowSecond: int) returns (total: nat)
      requires Valid()
      ensures total <= WindowCount(log, nowSecond, buckets.Length)
      ensures total == WindowCount(log, nowSecond, buckets.Length) <==> !Overwritten(log, nowSecond, buckets.Length)
    {
      total := 0;
      for index := 0 to buckets.Length
        invariant total == RingTotal(log, nowSecond, buckets.Length, index)
      {
        var unixSecond, requests := buckets[index].second, buckets[index].requests;
        var delta := nowSecond - unixSecond;
        if delta >= 0 && delta < buckets.Length {
          total := total + requests;
        }
      }
      RingIsExactIff(log, nowSecond, buckets.Length);
    }

    /** `StatusFor` on an existing record of a recorder with the given effective window. */
    method StatusFor(configKey: string, now: int, window: int) returns (status: TrafficStatus)
      requires Valid() && window >= SECOND && window % SECOND == 0 && buckets.Length == BucketCount(window)
      ensures status.configKey == configKey
      ensures status.inFlight == status.startedRequests - status.finishedRequests >= 0
      ensures status.startedRequests == |log| && status.finishedRequests == finishedRequests
      ensures status.requestsInWindow <= WindowCount(log, now / SECOND, window / SECOND)
      ensures !Overwritten(log, now / SECOND, window / SECOND)
        ==> status.requestsInWindow == WindowCount(log, now / SECOND, window / SECOND)
      ensures status.rps * (window / SECOND) as real == status.requestsInWindow as real
      ensures status.averageLatency * finishedRequests <= totalLatency
      ensures finishedRequests > 0 ==> totalLatency < (status.averageLatency + 1) * finishedRequests
      ensures finishedRequests == 0 ==> status.averageLatency == 0
      ensures status.window == window && status.lastSeenAt == if lastSeen == 0 then None else Some(lastSeen)
    {
      var requests := RequestsInWindow(now / SECOND);
      var average := if finishedRequests > 0 then totalLatency / finishedRequests else 0;
      status := TrafficStatus(configKey, inFlight, startedRequests, finishedRequests, requests,
                              requests as real / (window / SECOND) as real, average, window,
                              if lastSeen == 0 then None else Some(lastSeen));
    }
  }

  /** The function `Start` returns: `sync.Once` lets only the first call count. */
  class Completion {
    const record: ConfigRecord
    const startedAt: int
    var fired: bool

    constructor (record: ConfigRecord, startedAt: int)
      ensures this.record == record && this.startedAt == startedAt && !fired
    {
      this.record, this.startedAt, fired := record, startedAt, false;
    }

    method Call(finishedAt: int)
      requires record.Valid() && (!fired ==> record.finishedRequests < record.startedRequests)
      modifies this, record
      ensures record.Valid() && fired && record.log == old(record.log)
      ensures old(fired) ==> unchanged(record)
      ensures !old(fired) ==> record.inFlight == old(record.inFlight) - 1
      ensures !old(fired) ==> record.finishedRequests == old(record.finishedRequests) + 1
      ensures record.startedRequests == old(record.startedRequests)
    {
      if !fired {
        fired := true;
        record.Finish(startedAt, finishedAt);
      }
    }
  }
}
