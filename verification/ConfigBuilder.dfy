/**
  * The snapshot builder of `internal/config/snapshot.go` on the heap: wildcard and instance lists are slices over
  * backing arrays that are compacted, appended to and overwritten in place.
  */
module ConfigBuilder {
  import opened ConfigIndex
  import opened ConfigModel
  import opened ConfigNormalize
  import opened Wrappers

  /** A service as a snapshot stores it: copies of the record share the instance array. */
  datatype StoredService = StoredService(
    serviceName: string,
    global: GlobalSettings,
    health: HealthSettings,
    threshold: Option<ThresholdSettings>,
    endpoints: seq<EndpointSettings>,
    instances: array<InstanceSettings>)

  ghost function ServiceView(service: StoredService): ServiceSettings
    reads service.instances
  {
    ServiceSettings(service.serviceName, service.global, service.health, service.threshold, service.endpoints,
      service.instances[..])
  }

  class LiveSnapshot {
    var revision: nat
    var services: map<string, StoredService>
    var routes: map<RouteKey, RouteEntry>
    /** The slice `WildcardRoutes` is the first `wildcardCount` elements of its backing array. */
    var wildcards: array<RouteEntry>
    var wildcardCount: nat

    constructor ()
      ensures Valid() && View() == EmptySnapshot && fresh(wildcards)
    {
      revision, services, routes, wildcardCount := 0, map[], map[], 0;
      wildcards := new RouteEntry[0];
    }

    ghost predicate Valid()
      reads `wildcards, `wildcardCount
    {
      wildcardCount <= wildcards.Length
    }

    ghost function InstanceArrays(): set<array<InstanceSettings>>
      reads `services
    {
      set name | name in services :: services[name].instances
    }

    ghost function ServicesView(): map<string, ServiceSettings>
      reads `services, InstanceArrays()
    {
      map name | name in services :: ServiceView(services[name])
    }

    /** The slice of wildcard entries. */
    ghost function Wildcards(): seq<RouteEntry>
      requires Valid()
      reads `wildcards, `wildcardCount, wildcards
    {
      wildcards[..wildcardCount]
    }

    /** The snapshot as a value. */
    ghost function View(): Snapshot
      requires Valid()
      reads this, wildcards, InstanceArrays()
    {
      Snapshot(revision, ServicesView(), routes, Wildcards())
    }
  }

  /** A snapshot none of whose objects is written to keeps its value. */
  twostate lemma ViewSurvives(snapshot: LiveSnapshot)
    requires unchanged(snapshot) && unchanged(snapshot.wildcards)
    requires forall a :: a in snapshot.InstanceArrays() ==> unchanged(a)
    requires snapshot.Valid()
    ensures old(snapshot.Valid()) && snapshot.View() == old(snapshot.View())
  {
    forall name | name in snapshot.services
      ensures ServiceView(snapshot.services[name]) == old(ServiceView(snapshot.services[name]))
    {
      assert snapshot.services[name].instances in snapshot.InstanceArrays();
    }
  }

  /** `upsertInstanceSettings`, in place when the address is known. */
  method UpsertInstance(instances: array<InstanceSettings>, next: InstanceSettings) returns (result: array<InstanceSettings>)
    modifies instances
    ensures result == instances || fresh(result)
    ensures result[..] == Upsert(old(instances[..]), next)
  {
    ghost var before := instances[..];
    for index := 0 to instances.Length
      invariant instances[..] == before
      invariant forall i :: 0 <= i < index ==> !SameAddress(before[i], next)
    {
      if SameAddress(instances[index], next) {
        instances[index] := next;
        UpsertReplacesFirst(before, index, next);
        return instances;
      }
    }
    result := new InstanceSettings[instances.Length + 1];
    forall i | 0 <= i < instances.Length {
      result[i] := instances[i];
    }
    result[instances.Length] := next;
    assert result[..] == before + [next];
    UpsertNewAppends(before, next);
  }

  /** The wildcard part of `removeServiceRoutes`: entries that stay move to the front, the rest is blanked. */
  method CompactWildcards(entries: array<RouteEntry>, count: nat, serviceName: string) returns (nextIndex: nat)
    requires count <= entries.Length
    modifies entries
    ensures nextIndex <= count
    ensures entries[..nextIndex] == WithoutService(old(entries[..count]), serviceName)
  {
    ghost var before := entries[..];
    assert before[..count] == entries[..count];
    nextIndex := 0;
    for index := 0 to count
      invariant nextIndex <= index
      invariant entries[..nextIndex] == WithoutService(before[..index], serviceName)
      invariant forall i :: index <= i < count ==> entries[i] == before[i]
    {
      assert before[..index + 1][..index] == before[..index];
      if entries[index].serviceName != serviceName {
        entries[nextIndex] := entries[index];
        nextIndex := nextIndex + 1;
      }
    }
    for index := nextIndex to count
      invariant entries[..nextIndex] == WithoutService(before[..count], serviceName)
    {
      entries[index] := RouteEntry("", "", "", []);
    }
  }

  /** `append` to the wildcard slice: in place while the array has room, else into a larger array. */
  method AppendEntry(entries: array<RouteEntry>, count: nat, entry: RouteEntry) returns (result: array<RouteEntry>)
    requires count <= entries.Length
    modifies entries
    ensures count < result.Length && (result == entries || fresh(result))
    ensures result[..count + 1] == old(entries[..count]) + [entry]
  {
    result := entries;
    if count == entries.Length {
      result := new RouteEntry[2 * count + 1];
      forall i | 0 <= i < count {
        result[i] := entries[i];
      }
      assert result[..count] == entries[..count];
    }
    result[count] := entry;
    assert result[..count + 1] == result[..count] + [entry];
  }

  class SnapshotBuilder {
    const candidate: LiveSnapshot

    /** `newSnapshotBuilder`: maps are copied, the wildcard slice gets its own array, instance arrays stay shared. */
    constructor (current: LiveSnapshot)
      requires current.Valid()
      ensures fresh(candidate) && fresh(candidate.wildcards) && candidate.Valid()
      ensures candidate.services == current.services
      ensures candidate.revision == current.revision && candidate.routes == current.routes
      ensures candidate.Wildcards() == current.Wildcards()
    {
      var copy := new LiveSnapshot();
      copy.revision := current.revision;
      copy.services := current.services;
      copy.routes := current.routes;
      copy.wildcards := new RouteEntry[current.wildcardCount];
      forall i | 0 <= i < current.wildcardCount {
        copy.wildcards[i] := current.wildcards[i];
      }
      copy.wildcardCount := current.wildcardCount;
      assert copy.Wildcards() == current.Wildcards();
      candidate := copy;
    }

    /** The map part of `removeServiceRoutes`. */
    method RemoveServiceRoutes(serviceName: string)
      modifies candidate`routes
      ensures candidate.routes == OthersRoutes(old(candidate.routes), serviceName)
    {
      var keys := candidate.routes.Keys;
      ghost var routes := candidate.routes;
      while keys != {}
        invariant keys <= routes.Keys
        invariant candidate.routes
          == map key | key in routes && (key in keys || routes[key].serviceName != serviceName) :: routes[key]
        decreases keys
      {
        var key :| key in keys;
        if candidate.routes[key].serviceName == serviceName {
          candidate.routes := candidate.routes - {key};
        }
        keys := keys - {key};
      }
    }

    /** The loop body of `addServiceRoutes`. */
    method AddRoute(serviceName: string, route: RouteEntry) returns (conflict: Option<ConfigError>)
      requires candidate.Valid()
      modifies candidate`routes, candidate`wildcards, candidate`wildcardCount, candidate.wildcards
      ensures candidate.Valid() && (candidate.wildcards == old(candidate.wildcards) || fresh(candidate.wildcards))
      ensures conflict ==
        if KeyOf(route) in old(candidate.routes) && old(candidate.routes)[KeyOf(route)].serviceName != serviceName
        then Some(RouteOwned(KeyOf(route), old(candidate.routes)[KeyOf(route)].serviceName)) else None
      ensures conflict == None ==> candidate.routes == old(candidate.routes)[KeyOf(route) := route]
      ensures conflict == None ==> candidate.Wildcards() == old(candidate.Wildcards()) + Wildcards([route])
    {
      var key := KeyOf(route);
      if key in candidate.routes && candidate.routes[key].serviceName != serviceName {
        return Some(RouteOwned(key, candidate.routes[key].serviceName));
      }
      candidate.routes := candidate.routes[key := route];
      assert [route][..0] == [];
      if IsWildcardPath(route.path) {
        candidate.wildcards := AppendEntry(candidate.wildcards, candidate.wildcardCount, route);
        candidate.wildcardCount := candidate.wildcardCount + 1;
      }
      return None;
    }

    /** `addServiceRoutes`: stops at the first key that belongs to another service. */
    method AddServiceRoutes(serviceName: string, entries: seq<RouteEntry>, ghost original: map<RouteKey, RouteEntry>)
      returns (conflict: Option<ConfigError>)
      requires candidate.Valid() && DistinctKeys(entries)
      requires forall i :: 0 <= i < |entries| ==> entries[i].serviceName == serviceName
      requires candidate.routes == OthersRoutes(original, serviceName)
      modifies candidate`routes, candidate`wildcards, candidate`wildcardCount, candidate.wildcards
      ensures candidate.Valid()
      ensures conflict == FirstConflict(original, serviceName, entries)
      ensures conflict == None ==> candidate.routes == WithEntries(OthersRoutes(original, serviceName), entries)
      ensures conflict == None ==> candidate.Wildcards() == old(candidate.Wildcards()) + Wildcards(entries)
    {
      ghost var others, slice := candidate.routes, candidate.Wildcards();
      for index := 0 to |entries|
        invariant candidate.Valid()
        invariant candidate.wildcards == old(candidate.wildcards) || fresh(candidate.wildcards)
        invariant candidate.routes == WithEntries(others, entries[..index])
        invariant FirstConflict(original, serviceName, entries[..index]) == None
        invariant candidate.Wildcards() == slice + Wildcards(entries[..index])
      {
        AddStep(original, others, serviceName, entries, index);
        conflict := AddRoute(serviceName, entries[index]);
        if conflict.Some? {
          return;
        }
      }
      assert entries[..|entries|] == entries;
      return None;
    }
  }

  /** One iteration of `addServiceRoutes`, on values. */
  lemma AddStep(original: map<RouteKey, RouteEntry>, others: map<RouteKey, RouteEntry>, serviceName: string,
                entries: seq<RouteEntry>, index: nat)
    requires index < |entries| && DistinctKeys(entries) && others == OthersRoutes(original, serviceName)
    requires forall i :: 0 <= i < |entries| ==> entries[i].serviceName == serviceName
    requires FirstConflict(original, serviceName, entries[..index]) == None
    ensures var held := WithEntries(others, entries[..index]);
      var key := KeyOf(entries[index]);
      && (if key in held && held[key].serviceName != serviceName
          then FirstConflict(original, serviceName, entries) == Some(RouteOwned(key, held[key].serviceName))
          else FirstConflict(original, serviceName, entries[..index + 1]) == None)
      && WithEntries(others, entries[..index + 1]) == held[key := entries[index]]
    ensures Wildcards(entries[..index + 1]) == Wildcards(entries[..index]) + Wildcards([entries[index]])
  {
    assert entries[..index + 1][..index] == entries[..index] && [entries[index]][..0] == [];
    WithEntriesLookup(others, entries[..index], KeyOf(entries[index]));
    if FirstConflict(original, serviceName, entries[..index + 1]).Some? {
      ConflictOfPrefix(original, serviceName, entries, index + 1);
    }
  }

  lemma {:induction false} ConflictOfPrefix(routes: map<RouteKey, RouteEntry>, serviceName: string, entries: seq<RouteEntry>, i: nat)
    requires i <= |entries| && FirstConflict(routes, serviceName, entries[..i]).Some?
    ensures FirstConflict(routes, serviceName, entries) == FirstConflict(routes, serviceName, entries[..i])
    decreases |entries| - i
  {
    if i == |entries| {
      assert entries[..i] == entries;
    } else {
      assert entries[..i + 1][..i] == entries[..i];
      ConflictOfPrefix(routes, serviceName, entries, i + 1);
    }
  }

  /** The record `buildService` puts into the candidate: instances are upserted into a copy of the shared array. */
  method StoreService(current: LiveSnapshot, settings: Settings) returns (stored: StoredService)
    requires current.Valid() && NormalSettings(settings)
    ensures fresh(stored.instances)
    ensures ServiceView(stored) == ServiceAfter(current.View(), settings)
  {
    var name := settings.serviceName;
    var instances;
    if name in current.services {
      var shared := current.services[name].instances;
      var copy := new InstanceSettings[shared.Length];
      forall i | 0 <= i < shared.Length {
        copy[i] := shared[i];
      }
      assert copy[..] == shared[..] == InstancesOf(current.View(), name);
      instances := UpsertInstance(copy, settings.instance.value);
    } else {
      instances := new InstanceSettings[1];
      instances[0] := settings.instance.value;
      assert instances[..] == [settings.instance.value];
    }
    stored := StoredService(name, settings.global.value, settings.health.value, settings.threshold, settings.endpoints, instances);
  }

  /** `buildCandidate`: the new snapshot shares nothing writable with the current one, which it leaves untouched. */
  method BuildCandidateSnapshot(current: LiveSnapshot, settings: Settings) returns (r: Result<LiveSnapshot, ConfigError>)
    requires current.Valid() && NormalSettings(settings)
    ensures match BuildCandidate(old(current.View()), settings)
      case Failure(error) => r == Failure(error)
      case Success(candidate) => r.Success? && fresh(r.value) && r.value.Valid() && r.value.View() == candidate
  {
    ghost var before := current.View();
    FaultDecides(before, settings);
    var entries := RouteEntriesFrom(settings.serviceName, settings.endpoints);
    if entries.Failure? {
      return Failure(entries.error);
    }
    ViewSurvives(current);
    r := ReplaceService(current, settings, entries.value.1);
    assert current.routes == before.routes;
  }

  /** Faults in the endpoints come before conflicts with other services. */
  lemma FaultDecides(before: Snapshot, settings: Settings)
    requires NormalSettings(settings)
    ensures FirstFault(settings.endpoints) == None <==> WellFormed(settings.endpoints)
    ensures FirstFault(settings.endpoints).Some? ==>
      BuildCandidate(before, settings) == Failure(FirstFault(settings.endpoints).value)
    ensures var conflict := FirstConflict(before.routes, settings.serviceName, EntriesOf(settings.serviceName, settings.endpoints));
      FirstFault(settings.endpoints) == None && conflict.Some? ==> BuildCandidate(before, settings) == Failure(conflict.value)
  {
    NoFaultIffWellFormed(settings.endpoints);
  }

  /** `replaceService` with the route entries already derived. */
  method ReplaceService(current: LiveSnapshot, settings: Settings, entries: seq<RouteEntry>)
    returns (r: Result<LiveSnapshot, ConfigError>)
    requires current.Valid() && NormalSettings(settings) && WellFormed(settings.endpoints)
    requires entries == EntriesOf(settings.serviceName, settings.endpoints)
    ensures match FirstConflict(old(current.routes), settings.serviceName, entries)
      case Some(error) => r == Failure(error)
      case None =>
        && r.Success? && fresh(r.value) && r.value.Valid()
        && BuildCandidate(old(current.View()), settings) == Success(r.value.View())
  {
    EntriesHaveDistinctKeys(settings.serviceName, settings.endpoints);
    var stored := StoreService(current, settings);
    ViewSurvives(current);
    r := CandidateWith(current, settings.serviceName, stored, entries);
    ViewSurvives(current);
    if r.Success? {
      CandidateView(current, r.value, settings, stored);
    }
  }

  lemma CandidateView(current: LiveSnapshot, candidate: LiveSnapshot, settings: Settings, stored: StoredService)
    requires current.Valid() && candidate.Valid() && NormalSettings(settings) && WellFormed(settings.endpoints)
    requires ServiceView(stored) == ServiceAfter(current.View(), settings)
    requires candidate.services == current.services[settings.serviceName := stored] && candidate.revision == current.revision + 1
    requires var entries := EntriesOf(settings.serviceName, settings.endpoints);
      && FirstConflict(current.routes, settings.serviceName, entries) == None
      && candidate.routes == WithEntries(OthersRoutes(current.routes, settings.serviceName), entries)
      && candidate.Wildcards() == WithoutService(current.Wildcards(), settings.serviceName) + Wildcards(entries)
    ensures BuildCandidate(current.View(), settings) == Success(candidate.View())
  {
    InsertedView(current, candidate, settings.serviceName, stored);
    CandidateParts(current.View(), settings, candidate.View());
  }

  /** `replaceService` on a fresh builder, once the service record is at hand. */
  method CandidateWith(current: LiveSnapshot, serviceName: string, stored: StoredService, entries: seq<RouteEntry>)
    returns (r: Result<LiveSnapshot, ConfigError>)
    requires current.Valid() && DistinctKeys(entries)
    requires forall i :: 0 <= i < |entries| ==> entries[i].serviceName == serviceName
    ensures match FirstConflict(current.routes, serviceName, entries)
      case Some(error) => r == Failure(error)
      case None =>
        && r.Success? && fresh(r.value) && r.value.Valid()
        && r.value.services == current.services[serviceName := stored] && r.value.revision == current.revision + 1
        && r.value.routes == WithEntries(OthersRoutes(current.routes, serviceName), entries)
        && r.value.Wildcards() == WithoutService(current.Wildcards(), serviceName) + Wildcards(entries)
  {
    var builder := new SnapshotBuilder(current);
    var conflict := ReplaceRoutes(builder, serviceName, entries);
    if conflict.Some? {
      return Failure(conflict.value);
    }
    var candidate := builder.candidate;
    candidate.services := candidate.services[serviceName := stored];
    candidate.revision := candidate.revision + 1;
    return Success(candidate);
  }

  lemma InsertedView(current: LiveSnapshot, candidate: LiveSnapshot, serviceName: string, stored: StoredService)
    requires candidate.services == current.services[serviceName := stored]
    ensures candidate.ServicesView() == current.ServicesView()[serviceName := ServiceView(stored)]
  {
  }

  lemma CandidateParts(before: Snapshot, settings: Settings, after: Snapshot)
    requires NormalSettings(settings) && WellFormed(settings.endpoints)
    requires var entries := EntriesOf(settings.serviceName, settings.endpoints);
      && FirstConflict(before.routes, settings.serviceName, entries) == None
      && after.routes == WithEntries(OthersRoutes(before.routes, settings.serviceName), entries)
      && after.wildcardRoutes == WithoutService(before.wildcardRoutes, settings.serviceName) + Wildcards(entries)
    requires after.services == before.services[settings.serviceName := ServiceAfter(before, settings)]
    requires after.revision == before.revision + 1
    ensures BuildCandidate(before, settings) == Success(after)
  {
    NoFaultIffWellFormed(settings.endpoints);
  }

  /** Both route steps of `replaceService`. */
  method ReplaceRoutes(builder: SnapshotBuilder, serviceName: string, entries: seq<RouteEntry>) returns (conflict: Option<ConfigError>)
    requires builder.candidate.Valid() && DistinctKeys(entries)
    requires forall i :: 0 <= i < |entries| ==> entries[i].serviceName == serviceName
    modifies builder.candidate`routes, builder.candidate`wildcards, builder.candidate`wildcardCount, builder.candidate.wildcards
    ensures builder.candidate.Valid()
    ensures conflict == FirstConflict(old(builder.candidate.routes), serviceName, entries)
    ensures conflict == None ==>
      && builder.candidate.routes == WithEntries(OthersRoutes(old(builder.candidate.routes), serviceName), entries)
      && builder.candidate.Wildcards() == WithoutService(old(builder.candidate.Wildcards()), serviceName) + Wildcards(entries)
  {
    var candidate := builder.candidate;
    ghost var original := candidate.routes;
    builder.RemoveServiceRoutes(serviceName);
    var count := CompactWildcards(candidate.wildcards, candidate.wildcardCount, serviceName);
    candidate.wildcardCount := count;
    conflict := builder.AddServiceRoutes(serviceName, entries, original);
  }

  /** `buildDeregisterCandidate`: the remaining instances go into an array of their own. */
  method BuildDeregisterSnapshot(current: LiveSnapshot, serviceName: string, instance: InstanceSettings)
    returns (r: Result<LiveSnapshot, ConfigError>)
    requires current.Valid()
    ensures match BuildDeregisterCandidate(old(current.View()), serviceName, instance)
      case Failure(error) => r == Failure(error)
      case Success(candidate) => r.Success? && fresh(r.value) && r.value.Valid() && r.value.View() == candidate
  {
    ghost var before := current.View();
    if serviceName !in current.services {
      return Failure(ServiceNotFound);
    }
    var instances := RemainingInstances(current.services[serviceName].instances, instance);
    if instances == None {
      return Failure(InstanceNotFound);
    }
    var stored := current.services[serviceName].(instances := instances.value);
    var candidate := CandidateWithService(current, serviceName, stored);
    InsertedView(current, candidate, serviceName, stored);
    return Success(candidate);
  }

  method CandidateWithService(current: LiveSnapshot, serviceName: string, stored: StoredService) returns (candidate: LiveSnapshot)
    requires current.Valid()
    ensures fresh(candidate) && candidate.Valid()
    ensures candidate.services == current.services[serviceName := stored] && candidate.revision == current.revision + 1
    ensures candidate.routes == current.routes && candidate.Wildcards() == current.Wildcards()
  {
    var builder := new SnapshotBuilder(current);
    candidate := builder.candidate;
    candidate.services := candidate.services[serviceName := stored];
    candidate.revision := candidate.revision + 1;
  }

  /** The loop of `removeServiceInstance`: nothing if no instance has the address. */
  method RemainingInstances(shared: array<InstanceSettings>, instance: InstanceSettings) returns (r: Option<array<InstanceSettings>>)
    ensures r == None <==> !HasAddress(shared[..], instance)
    ensures r.Some? ==> fresh(r.value) && r.value[..] == Without(shared[..], instance)
  {
    var kept: seq<InstanceSettings> := [];
    var removed := false;
    for i := 0 to shared.Length
      invariant kept == Without(shared[..i], instance)
      invariant removed <==> HasAddress(shared[..i], instance)
    {
      assert shared[..i + 1] == shared[..i] + [shared[i]];
      HasAddressSnoc(shared[..i], shared[i], instance);
      if SameAddress(shared[i], instance) {
        removed := true;
      } else {
        kept := kept + [shared[i]];
      }
    }
    assert shared[..shared.Length] == shared[..];
    if !removed {
      return None;
    }
    var remaining := new InstanceSettings[|kept|](i requires 0 <= i < |kept| => kept[i]);
    assert remaining[..] == kept;
    return Some(remaining);
  }
}
