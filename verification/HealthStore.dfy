/** The status store of `internal/health/store.go`: writers copy the record map and publish the copy whole. */
module HealthStore {
  import opened HealthModel
  import opened Wrappers

  datatype StatusRecord = StatusRecord(status: Status, failures: nat, successes: nat, generation: nat)

  type Records = map<string, StatusRecord>

  /** What routing asks: only a record that says Unhealthy excludes a key. */
  predicate Routable(records: Records, healthKey: string) {
    healthKey == "" || healthKey !in records || records[healthKey].status != Unhealthy
  }

  function WithUnknown(records: Records, healthKey: string, generation: nat): Records {
    if healthKey == "" then records else records[healthKey := StatusRecord(Unknown, 0, 0, generation)]
  }

  function WithoutKey(records: Records, healthKey: string): Records {
    if healthKey == "" then records else records - {healthKey}
  }

  /** A result is for the record only if it carries the record's generation. */
  predicate IsCurrent(records: Records, healthKey: string, generation: nat) {
    healthKey != "" && healthKey in records && records[healthKey].generation == generation
  }

  function WithResult(records: Records, healthKey: string, next: StatusRecord): Records {
    if IsCurrent(records, healthKey, next.generation) then records[healthKey := next] else records
  }

  class Store {
    /** The published map; a reader works on the one it loaded. */
    var records: Records

    constructor ()
      ensures records == map[]
    {
      records := map[];
    }

    method IsRoutableKey(healthKey: string) returns (routable: bool)
      ensures routable == Routable(records, healthKey)
    {
      if healthKey == "" {
        return true;
      }
      var loaded := records;
      if healthKey !in loaded {
        return true;
      }
      return loaded[healthKey].status != Unhealthy;
    }

    /** The copying loop of `update`. */
    method CopyRecords() returns (next: Records)
      ensures next == records
    {
      next := map[];
      var keys := records.Keys;
      while keys != {}
        invariant keys <= records.Keys
        invariant next == map key | key in records && key !in keys :: records[key]
        decreases keys
      {
        var key :| key in keys;
        next := next[key := records[key]];
        keys := keys - {key};
      }
    }

    method SetUnknown(healthKey: string, generation: nat)
      modifies this
      ensures records == WithUnknown(old(records), healthKey, generation)
    {
      if healthKey == "" {
        return;
      }
      var next := CopyRecords();
      next := next[healthKey := StatusRecord(Unknown, 0, 0, generation)];
      records := next;
    }

    method Delete(healthKey: string)
      modifies this
      ensures records == WithoutKey(old(records), healthKey)
    {
      if healthKey == "" {
        return;
      }
      var next := CopyRecords();
      next := next - {healthKey};
      records := next;
    }

    /** `UpdateStatus`: reports the record found, and whether the result was taken. */
    method UpdateStatus(healthKey: string, generation: nat, status: Status, failures: nat, successes: nat)
      returns (previous: Option<StatusRecord>, updated: bool)
      modifies this
      ensures records == WithResult(old(records), healthKey, StatusRecord(status, failures, successes, generation))
      ensures updated == IsCurrent(old(records), healthKey, generation)
      ensures previous == if healthKey != "" && healthKey in old(records) then Some(old(records)[healthKey]) else None
    {
      if healthKey == "" {
        return None, false;
      }
      var next := CopyRecords();
      previous := if healthKey in next then Some(next[healthKey]) else None;
      updated := false;
      if previous.Some? && previous.value.generation == generation {
        next := next[healthKey := StatusRecord(status, failures, successes, generation)];
        updated := true;
      }
      records := next;
    }
  }
}
