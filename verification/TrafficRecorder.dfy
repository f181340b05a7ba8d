/** The recorder of `internal/pool/traffic/record.go`: one record per service, made when the service is first seen. */
module TrafficRecorder {
  import opened TrafficRecord
  import opened TrafficRing
  import opened Wrappers

  datatype StatusError = KeyRequired | StatusNotFound

  class Recorder {
    const window: int
    var records: map<string, ConfigRecord>

    ghost predicate Valid()
      reads this, records.Values, Rings()
    {
      && window >= SECOND && window % SECOND == 0
      && (forall key :: key in records ==> records[key].Valid() && records[key].buckets.Length == BucketCount(window))
      && (forall k, l :: k in records && l in records && k != l ==>
            records[k] != records[l] && records[k].buckets != records[l].buckets)
    }

    ghost function Rings(): set<array<Bucket>>
      reads this, records.Values
    {
      set key | key in records :: records[key].buckets
    }

    /** All requests recorded for a service. */
    ghost function Log(key: string): seq<int>
      reads this, records.Values
    {
      if key in records then records[key].log else []
    }

    /** `newRecorder`. */
    constructor (window: int)
      ensures Valid() && records == map[] && this.window == EffectiveWindow(window)
    {
      this.window, records := EffectiveWindow(window), map[];
    }

    /** `recordFor`, whose second look under the write lock finds what another request made meanwhile. */
    method RecordFor(key: string) returns (record: ConfigRecord)
      requires Valid()
      modifies this`records
      ensures Valid() && key in records && records[key] == record
      ensures records == if key in old(records) then old(records) else old(records)[key := record]
      ensures key !in old(records) ==> fresh(record) && fresh(record.buckets) && record.log == []
    {
      if key in records {
        return records[key];
      }
      record := new ConfigRecord(window);
      records := records[key := record];
    }

    /** `Start`: the request enters the log of its service and of no other. */
    method Start(key: string, now: int) returns (completion: Option<Completion>)
      requires Valid()
      modifies this`records, records.Values, Rings()
      ensures Valid()
      ensures key == "" ==> completion == None && records == old(records) && unchanged(old(records.Values), old(Rings()))
      ensures key != "" ==>
        && completion.Some? && key in records && completion.value.record == records[key] && !completion.value.fired
        && records.Keys == old(records.Keys) + {key}
        && Log(key) == old(Log(key)) + [now / SECOND]
        && (forall other :: other != key ==> Log(other) == old(Log(other)))
    {
      if key == "" {
        return None;
      }
      var record := RecordFor(key);
      var done := record.Start(now);
      return Some(done);
    }

    /** `StatusFor`: unknown services are an error; the others report their own log. */
    method StatusFor(key: string, now: int) returns (r: Result<TrafficStatus, StatusError>)
      requires Valid()
      ensures r == Failure(KeyRequired) <==> key == ""
      ensures r == Failure(StatusNotFound) <==> key != "" && key !in records
      ensures r.Success? ==>
        && key in records && r.value.configKey == key && r.value.window == window
        && r.value.finishedRequests == records[key].finishedRequests
        && r.value.rps * (window / SECOND) as real == r.value.requestsInWindow as real
        && (r.value.finishedRequests == 0 ==> r.value.averageLatency == 0)
        && (r.value.finishedRequests > 0 ==>
              r.value.averageLatency * r.value.finishedRequests <= records[key].totalLatency
                < (r.value.averageLatency + 1) * r.value.finishedRequests)
        && r.value.lastSeenAt == (if records[key].lastSeen == 0 then None else Some(records[key].lastSeen))
        && r.value.startedRequests == |Log(key)|
        && r.value.inFlight == r.value.startedRequests - r.value.finishedRequests >= 0
        && r.value.requestsInWindow <= WindowCount(Log(key), now / SECOND, window / SECOND)
        && (!Overwritten(Log(key), now / SECOND, window / SECOND) ==>
              r.value.requestsInWindow == WindowCount(Log(key), now / SECOND, window / SECOND))
    {
      if key == "" {
        return Failure(KeyRequired);
      }
      if key !in records {
        return Failure(StatusNotFound);
      }
      var status := records[key].StatusFor(key, now, window);
      return Success(status);
    }
  }
}
