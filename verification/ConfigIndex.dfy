/**
  * What the snapshot builder of `internal/config/snapshot.go` computes, on values: the route index derived from
  * the services, and how registering and deregistering change it.
  */
module ConfigIndex {
  import opened ConfigModel
  import opened ConfigNormalize
  import opened Wrappers

  predicate IsWildcardPath(path: string) {
    |path| >= 3 && path[|path| - 3..] == "/**"
  }

  // The three lists and maps the builder edits.

  /** The entries of all services but one, in their order. */
  function WithoutService(entries: seq<RouteEntry>, serviceName: string): seq<RouteEntry> {
    if entries == [] then []
    else
      var n := |entries| - 1;
      WithoutService(entries[..n], serviceName) + if entries[n].serviceName != serviceName then [entries[n]] else []
  }

  function OthersRoutes(routes: map<RouteKey, RouteEntry>, serviceName: string): map<RouteKey, RouteEntry> {
    map key | key in routes && routes[key].serviceName != serviceName :: routes[key]
  }

  function WithEntries(routes: map<RouteKey, RouteEntry>, entries: seq<RouteEntry>): map<RouteKey, RouteEntry> {
    if entries == [] then routes
    else
      var n := |entries| - 1;
      WithEntries(routes, entries[..n])[KeyOf(entries[n]) := entries[n]]
  }

  function Wildcards(entries: seq<RouteEntry>): seq<RouteEntry> {
    if entries == [] then []
    else
      var n := |entries| - 1;
      Wildcards(entries[..n]) + if IsWildcardPath(entries[n].path) then [entries[n]] else []
  }

  /** The first of the new entries whose key another service owns. */
  function FirstConflict(routes: map<RouteKey, RouteEntry>, serviceName: string, entries: seq<RouteEntry>): Option<ConfigError> {
    if entries == [] then None
    else
      var n := |entries| - 1;
      var earlier := FirstConflict(routes, serviceName, entries[..n]);
      if earlier.Some? then earlier
      else if KeyOf(entries[n]) in routes && routes[KeyOf(entries[n])].serviceName != serviceName
        then Some(RouteOwned(KeyOf(entries[n]), routes[KeyOf(entries[n])].serviceName))
      else None
  }

  predicate SameAddress(a: InstanceSettings, b: InstanceSettings) {
    a.host == b.host && a.port == b.port
  }

  /** Replaces the first instance at the address of `next`, or appends `next`. */
  function Upsert(instances: seq<InstanceSettings>, next: InstanceSettings): seq<InstanceSettings> {
    if instances == [] then [next]
    else if SameAddress(instances[0], next) then [next] + instances[1..]
    else [instances[0]] + Upsert(instances[1..], next)
  }

  function Without(instances: seq<InstanceSettings>, gone: InstanceSettings): seq<InstanceSettings> {
    if instances == [] then []
    else
      var n := |instances| - 1;
      Without(instances[..n], gone) + if SameAddress(instances[n], gone) then [] else [instances[n]]
  }

  predicate HasAddress(instances: seq<InstanceSettings>, instance: InstanceSettings) {
    exists i :: 0 <= i < |instances| && SameAddress(instances[i], instance)
  }

  // Candidates.

  function InstancesOf(snapshot: Snapshot, serviceName: string): seq<InstanceSettings> {
    if serviceName in snapshot.services then snapshot.services[serviceName].instances else []
  }

  function ServiceAfter(snapshot: Snapshot, settings: Settings): ServiceSettings
    requires NormalSettings(settings)
  {
    ServiceSettings(settings.serviceName, settings.global.value, settings.health.value, settings.threshold, settings.endpoints,
      Upsert(InstancesOf(snapshot, settings.serviceName), settings.instance.value))
  }

  /** `buildCandidate`. */
  function BuildCandidate(snapshot: Snapshot, settings: Settings): Result<Snapshot, ConfigError>
    requires NormalSettings(settings)
  {
    var name := settings.serviceName;
    var fault := FirstFault(settings.endpoints);
    if fault.Some? then Failure(fault.value) else
    var entries := EntriesOf(name, settings.endpoints);
    var conflict := FirstConflict(snapshot.routes, name, entries);
    if conflict.Some? then Failure(conflict.value) else
    Success(Snapshot(
      snapshot.revision + 1,
      snapshot.services[name := ServiceAfter(snapshot, settings)],
      WithEntries(OthersRoutes(snapshot.routes, name), entries),
      WithoutService(snapshot.wildcardRoutes, name) + Wildcards(entries)))
  }

  /** `buildDeregisterCandidate`. */
  function BuildDeregisterCandidate(snapshot: Snapshot, serviceName: string, instance: InstanceSettings): Result<Snapshot, ConfigError> {
    if serviceName !in snapshot.services then Failure(ServiceNotFound)
    else if !HasAddress(snapshot.services[serviceName].instances, instance) then Failure(InstanceNotFound)
    else
      var service := snapshot.services[serviceName];
      Success(snapshot.(
        revision := snapshot.revision + 1,
        services := snapshot.services[serviceName := service.(instances := Without(service.instances, instance))]))
  }

  // The invariant.

  /** The entry is one some registered service declares as an endpoint of its own. */
  predicate Declared(snapshot: Snapshot, entry: RouteEntry) {
    && entry.serviceName in snapshot.services
    && EndpointSettings(entry.path, entry.httpMethod, entry.roles) in snapshot.services[entry.serviceName].endpoints
  }

  predicate UniqueAddresses(instances: seq<InstanceSettings>) {
    forall i, j :: 0 <= i < j < |instances| ==> !SameAddress(instances[i], instances[j])
  }

  predicate NormalService(serviceName: string, service: ServiceSettings) {
    && serviceName != "" && service.serviceName == serviceName
    && service.endpoints != [] && WellFormed(service.endpoints) && NormalHealth(service.health)
    && (forall i :: 0 <= i < |service.instances| ==> NormalInstance(serviceName, service.instances[i]))
    && UniqueAddresses(service.instances)
  }

  predicate NormalServices(snapshot: Snapshot) {
    forall name :: name in snapshot.services ==> NormalService(name, snapshot.services[name])
  }

  /** `routes` holds exactly the declared entries, each under its own key: a disjoint union of all endpoints. */
  ghost predicate RoutesAreUnion(snapshot: Snapshot) {
    && (forall key :: key in snapshot.routes ==> KeyOf(snapshot.routes[key]) == key)
    && (forall entry :: Declared(snapshot, entry) <==>
          KeyOf(entry) in snapshot.routes && snapshot.routes[KeyOf(entry)] == entry)
  }

  predicate Distinct(entries: seq<RouteEntry>) {
    forall i, j :: 0 <= i < j < |entries| ==> entries[i] != entries[j]
  }

  /** `wildcardRoutes` lists every declared wildcard entry once and nothing else. */
  ghost predicate WildcardsAreUnion(snapshot: Snapshot) {
    && Distinct(snapshot.wildcardRoutes)
    && (forall entry :: entry in snapshot.wildcardRoutes <==> Declared(snapshot, entry) && IsWildcardPath(entry.path))
  }

  ghost predicate Indexed(snapshot: Snapshot) {
    NormalServices(snapshot) && RoutesAreUnion(snapshot) && WildcardsAreUnion(snapshot)
  }

  // Lists.

  lemma {:induction false} WithoutServiceMembers(entries: seq<RouteEntry>, serviceName: string)
    ensures forall e :: e in WithoutService(entries, serviceName) <==> e in entries && e.serviceName != serviceName
    ensures Distinct(entries) ==> Distinct(WithoutService(entries, serviceName))
  {
    if entries != [] {
      var n := |entries| - 1;
      WithoutServiceMembers(entries[..n], serviceName);
      assert entries == entries[..n] + [entries[n]];
      if Distinct(entries) {
        assert entries[n] !in entries[..n];
      }
    }
  }

  lemma {:induction false} WildcardMembers(entries: seq<RouteEntry>)
    ensures forall e :: e in Wildcards(entries) <==> e in entries && IsWildcardPath(e.path)
    ensures Distinct(entries) ==> Distinct(Wildcards(entries))
  {
    if entries != [] {
      var n := |entries| - 1;
      WildcardMembers(entries[..n]);
      assert entries == entries[..n] + [entries[n]];
      if Distinct(entries) {
        assert entries[n] !in entries[..n];
      }
    }
  }

  predicate DistinctKeys(entries: seq<RouteEntry>) {
    forall i, j :: 0 <= i < j < |entries| ==> KeyOf(entries[i]) != KeyOf(entries[j])
  }

  /** What the map holds after entries with distinct keys were stored. */
  lemma {:induction false} WithEntriesLookup(routes: map<RouteKey, RouteEntry>, entries: seq<RouteEntry>, key: RouteKey)
    requires DistinctKeys(entries)
    ensures var after := WithEntries(routes, entries);
      if exists i :: 0 <= i < |entries| && KeyOf(entries[i]) == key
      then key in after && after[key] in entries && KeyOf(after[key]) == key
      else (key in after <==> key in routes) && (key in routes ==> after[key] == routes[key])
  {
    if entries != [] {
      var n := |entries| - 1;
      WithEntriesLookup(routes, entries[..n], key);
      if KeyOf(entries[n]) != key && exists i :: 0 <= i < |entries| && KeyOf(entries[i]) == key {
        var i :| 0 <= i < |entries| && KeyOf(entries[i]) == key;
        assert entries[..n][i] == entries[i];
      }
    }
  }

  lemma {:induction false} NoConflictIff(routes: map<RouteKey, RouteEntry>, serviceName: string, entries: seq<RouteEntry>)
    ensures FirstConflict(routes, serviceName, entries) == None <==>
      forall i :: 0 <= i < |entries| && KeyOf(entries[i]) in routes ==> routes[KeyOf(entries[i])].serviceName == serviceName
  {
    if entries != [] {
      var n := |entries| - 1;
      NoConflictIff(routes, serviceName, entries[..n]);
      assert forall i :: 0 <= i < n ==> entries[..n][i] == entries[i];
    }
  }

  /** The conflict reported is that of the first new entry whose key another service owns. */
  lemma {:induction false} FirstConflictIsFirst(routes: map<RouteKey, RouteEntry>, serviceName: string, entries: seq<RouteEntry>)
    requires FirstConflict(routes, serviceName, entries).Some?
    ensures exists i ::
      && 0 <= i < |entries| && FirstConflict(routes, serviceName, entries[..i]) == None
      && KeyOf(entries[i]) in routes && routes[KeyOf(entries[i])].serviceName != serviceName
      && FirstConflict(routes, serviceName, entries).value == RouteOwned(KeyOf(entries[i]), routes[KeyOf(entries[i])].serviceName)
  {
    var n := |entries| - 1;
    var front := entries[..n];
    if FirstConflict(routes, serviceName, front).Some? {
      FirstConflictIsFirst(routes, serviceName, front);
      var i :| 0 <= i < n && FirstConflict(routes, serviceName, front[..i]) == None
        && KeyOf(front[i]) in routes && routes[KeyOf(front[i])].serviceName != serviceName
        && FirstConflict(routes, serviceName, front).value == RouteOwned(KeyOf(front[i]), routes[KeyOf(front[i])].serviceName);
      assert front[..i] == entries[..i] && front[i] == entries[i];
    }
  }

  /** The wildcard entries keep their order: those of a list are those of its parts, one after the other. */
  lemma {:induction false} WildcardsOfParts(front: seq<RouteEntry>, back: seq<RouteEntry>)
    ensures Wildcards(front + back) == Wildcards(front) + Wildcards(back)
  {
    if back == [] {
      assert front + back == front;
    } else {
      var n := |back| - 1;
      assert (front + back)[..|front| + n] == front + back[..n];
      WildcardsOfParts(front, back[..n]);
      assert (Wildcards(front) + Wildcards(back[..n])) + (if IsWildcardPath(back[n].path) then [back[n]] else [])
        == Wildcards(front) + Wildcards(back);
    }
  }

  /** A single entry is listed exactly when it is a wildcard. */
  lemma WildcardsOfOne(entry: RouteEntry)
    ensures Wildcards([entry]) == if IsWildcardPath(entry.path) then [entry] else []
  {
    assert [entry][..0] == [];
  }

  lemma EntriesMembers(serviceName: string, endpoints: seq<EndpointSettings>, entry: RouteEntry)
    ensures entry in EntriesOf(serviceName, endpoints) <==>
      entry.serviceName == serviceName && EndpointSettings(entry.path, entry.httpMethod, entry.roles) in endpoints
  {
    var entries := EntriesOf(serviceName, endpoints);
    var endpoint := EndpointSettings(entry.path, entry.httpMethod, entry.roles);
    if entry in entries {
      var i :| 0 <= i < |entries| && entries[i] == entry;
      assert endpoints[i] == endpoint;
    }
    if entry.serviceName == serviceName && endpoint in endpoints {
      var i :| 0 <= i < |endpoints| && endpoints[i] == endpoint;
      assert entries[i] == entry;
    }
  }

  lemma EntriesHaveDistinctKeys(serviceName: string, endpoints: seq<EndpointSettings>)
    requires WellFormed(endpoints)
    ensures DistinctKeys(EntriesOf(serviceName, endpoints)) && Distinct(EntriesOf(serviceName, endpoints))
  {
    var entries := EntriesOf(serviceName, endpoints);
    forall i, j | 0 <= i < j < |entries| ensures KeyOf(entries[i]) != KeyOf(entries[j]) {
      assert KeyOfEndpoint(endpoints[i]) != KeyOfEndpoint(endpoints[j]);
    }
  }

  // Instances.

  lemma {:induction false} UpsertReplacesFirst(instances: seq<InstanceSettings>, index: nat, next: InstanceSettings)
    requires index < |instances| && SameAddress(instances[index], next)
    requires forall i :: 0 <= i < index ==> !SameAddress(instances[i], next)
    ensures Upsert(instances, next) == instances[index := next]
  {
    if index > 0 {
      UpsertReplacesFirst(instances[1..], index - 1, next);
    }
  }

  /** A new instance goes to the end of the list. */
  lemma {:induction false} UpsertNewAppends(instances: seq<InstanceSettings>, next: InstanceSettings)
    requires !HasAddress(instances, next)
    ensures Upsert(instances, next) == instances + [next]
  {
    if instances != [] {
      HasAddressCons(instances[0], instances[1..], next);
      assert [instances[0]] + instances[1..] == instances;
      UpsertNewAppends(instances[1..], next);
    }
  }

  /** Upserting overwrites one position whose address is that of `next`, or appends. */
  lemma UpsertIsReplaceOrAppend(instances: seq<InstanceSettings>, next: InstanceSettings)
    ensures if HasAddress(instances, next)
      then exists i :: 0 <= i < |instances| && SameAddress(instances[i], next) && Upsert(instances, next) == instances[i := next]
      else Upsert(instances, next) == instances + [next]
  {
    if HasAddress(instances, next) {
      var i := FirstWithAddress(instances, next);
      UpsertReplacesFirst(instances, i, next);
    } else {
      UpsertNewAppends(instances, next);
    }
  }

  lemma {:induction false} FirstWithAddress(instances: seq<InstanceSettings>, x: InstanceSettings) returns (i: nat)
    requires HasAddress(instances, x)
    ensures i < |instances| && SameAddress(instances[i], x) && forall j :: 0 <= j < i ==> !SameAddress(instances[j], x)
  {
    i := 0;
    if !SameAddress(instances[0], x) {
      HasAddressCons(instances[0], instances[1..], x);
      assert [instances[0]] + instances[1..] == instances;
      i := FirstWithAddress(instances[1..], x);
      i := i + 1;
    }
  }

  lemma ReplaceKeepsInstances(instances: seq<InstanceSettings>, i: nat, next: InstanceSettings)
    requires i < |instances| && UniqueAddresses(instances) && SameAddress(instances[i], next)
    ensures UniqueAddresses(instances[i := next])
    ensures forall x :: HasAddress(instances[i := next], x) <==> HasAddress(instances, x)
  {
    var after := instances[i := next];
    forall x ensures HasAddress(after, x) <==> HasAddress(instances, x) {
      if k :| 0 <= k < |after| && SameAddress(after[k], x) {
        assert SameAddress(instances[k], x);
      }
      if k :| 0 <= k < |instances| && SameAddress(instances[k], x) {
        assert SameAddress(after[k], x);
      }
    }
  }

  lemma AppendKeepsInstances(instances: seq<InstanceSettings>, next: InstanceSettings)
    requires UniqueAddresses(instances) && !HasAddress(instances, next)
    ensures UniqueAddresses(instances + [next])
    ensures forall x :: HasAddress(instances + [next], x) <==> HasAddress(instances, x) || SameAddress(next, x)
  {
    forall x ensures HasAddress(instances + [next], x) <==> HasAddress(instances, x) || SameAddress(next, x) {
      HasAddressSnoc(instances, next, x);
    }
  }

  /** Addresses stay unique, and exactly the address of `next` is added to them. */
  lemma UpsertKeepsInstances(instances: seq<InstanceSettings>, next: InstanceSettings)
    requires UniqueAddresses(instances)
    ensures UniqueAddresses(Upsert(instances, next))
    ensures forall x :: HasAddress(Upsert(instances, next), x) <==> HasAddress(instances, x) || SameAddress(next, x)
  {
    UpsertIsReplaceOrAppend(instances, next);
    if HasAddress(instances, next) {
      var i :| 0 <= i < |instances| && SameAddress(instances[i], next) && Upsert(instances, next) == instances[i := next];
      ReplaceKeepsInstances(instances, i, next);
    } else {
      AppendKeepsInstances(instances, next);
    }
  }

  /** The list holds `next`, and otherwise only what it held before. */
  lemma UpsertMembers(instances: seq<InstanceSettings>, next: InstanceSettings)
    ensures next in Upsert(instances, next)
    ensures forall x :: x in Upsert(instances, next) ==> x == next || x in instances
  {
    UpsertIsReplaceOrAppend(instances, next);
    if HasAddress(instances, next) {
      var i :| 0 <= i < |instances| && SameAddress(instances[i], next) && Upsert(instances, next) == instances[i := next];
      assert Upsert(instances, next)[i] == next;
    }
  }

  lemma HasAddressCons(first: InstanceSettings, rest: seq<InstanceSettings>, x: InstanceSettings)
    ensures HasAddress([first] + rest, x) <==> SameAddress(first, x) || HasAddress(rest, x)
  {
    var all := [first] + rest;
    if SameAddress(first, x) {
      assert SameAddress(all[0], x);
    }
    if HasAddress(rest, x) {
      var i :| 0 <= i < |rest| && SameAddress(rest[i], x);
      assert all[i + 1] == rest[i];
    }
    if HasAddress(all, x) && !SameAddress(first, x) {
      var i :| 0 <= i < |all| && SameAddress(all[i], x);
      assert rest[i - 1] == all[i];
    }
  }

  lemma HasAddressSnoc(instances: seq<InstanceSettings>, last: InstanceSettings, x: InstanceSettings)
    ensures HasAddress(instances + [last], x) <==> HasAddress(instances, x) || SameAddress(last, x)
  {
    var all := instances + [last];
    assert all[|instances|] == last;
    if HasAddress(instances, x) {
      var i :| 0 <= i < |instances| && SameAddress(instances[i], x);
      assert all[i] == instances[i];
    }
  }

  lemma HasAddressOfPrefix(instances: seq<InstanceSettings>, n: nat, x: InstanceSettings)
    requires n <= |instances|
    ensures HasAddress(instances[..n], x) ==> HasAddress(instances, x)
  {
  }

  lemma {:induction false} WithoutMembers(instances: seq<InstanceSettings>, gone: InstanceSettings)
    ensures forall x :: x in Without(instances, gone) <==> x in instances && !SameAddress(x, gone)
  {
    if instances != [] {
      var n := |instances| - 1;
      WithoutMembers(instances[..n], gone);
      assert instances == instances[..n] + [instances[n]];
    }
  }

  lemma {:induction false} WithoutKeepsUnique(instances: seq<InstanceSettings>, gone: InstanceSettings)
    requires UniqueAddresses(instances)
    ensures UniqueAddresses(Without(instances, gone))
  {
    if instances != [] {
      var n := |instances| - 1;
      var kept := Without(instances[..n], gone);
      WithoutKeepsUnique(instances[..n], gone);
      WithoutMembers(instances[..n], gone);
      forall i | 0 <= i < |kept| ensures !SameAddress(kept[i], instances[n]) {
        assert kept[i] in kept;
        var j :| 0 <= j < n && instances[..n][j] == kept[i];
        assert instances[j] == kept[i];
      }
    }
  }

  /** Of addresses that are unique, the one given goes and the list closes up. */
  lemma {:induction false} WithoutRemovesOne(instances: seq<InstanceSettings>, gone: InstanceSettings, i: nat)
    requires UniqueAddresses(instances) && i < |instances| && SameAddress(instances[i], gone)
    ensures Without(instances, gone) == instances[..i] + instances[i + 1..]
  {
    var n := |instances| - 1;
    if i < n {
      WithoutRemovesOne(instances[..n], gone, i);
      assert instances[..n][..i] + instances[..n][i + 1..] + [instances[n]] == instances[..i] + instances[i + 1..];
    } else {
      assert !HasAddress(instances[..n], gone);
      WithoutAbsentIsSame(instances[..n], gone);
      assert instances[..n] + [] == instances[..i] + instances[i + 1..];
    }
  }

  lemma {:induction false} WithoutAbsentIsSame(instances: seq<InstanceSettings>, gone: InstanceSettings)
    requires !HasAddress(instances, gone)
    ensures Without(instances, gone) == instances
  {
    if instances != [] {
      var n := |instances| - 1;
      assert SameAddress(instances[n], gone) ==> HasAddress(instances, gone);
      HasAddressOfPrefix(instances, n, gone);
      WithoutAbsentIsSame(instances[..n], gone);
    }
  }

  /** Registering a new instance and deregistering it restores the list, order included. */
  lemma UpsertThenWithout(instances: seq<InstanceSettings>, next: InstanceSettings)
    requires !HasAddress(instances, next)
    ensures Without(Upsert(instances, next), next) == instances
  {
    UpsertNewAppends(instances, next);
    WithoutAbsentIsSame(instances, next);
    assert (instances + [next])[..|instances|] == instances;
  }

  // Candidates keep the invariant.

  lemma CandidateIsIndexed(snapshot: Snapshot, settings: Settings)
    requires Indexed(snapshot) && NormalSettings(settings)
    ensures var r := BuildCandidate(snapshot, settings);
      r.Success? ==> Indexed(r.value) && r.value.revision == snapshot.revision + 1
  {
    var r := BuildCandidate(snapshot, settings);
    if r.Success? {
      NoFaultIffWellFormed(settings.endpoints);
      CandidateServicesAreNormal(snapshot, settings);
      CandidateRoutesAreUnion(snapshot, settings);
      CandidateWildcardsAreUnion(snapshot, settings);
    }
  }

  lemma CandidateServicesAreNormal(snapshot: Snapshot, settings: Settings)
    requires NormalServices(snapshot) && NormalSettings(settings) && WellFormed(settings.endpoints)
    ensures NormalService(settings.serviceName, ServiceAfter(snapshot, settings))
  {
    var instances, next := InstancesOf(snapshot, settings.serviceName), settings.instance.value;
    UpsertKeepsInstances(instances, next);
    UpsertMembers(instances, next);
    forall i | 0 <= i < |Upsert(instances, next)| ensures NormalInstance(settings.serviceName, Upsert(instances, next)[i]) {
      assert Upsert(instances, next)[i] in Upsert(instances, next);
    }
  }

  lemma DeclaredAfter(snapshot: Snapshot, settings: Settings, entry: RouteEntry)
    requires NormalSettings(settings) && BuildCandidate(snapshot, settings).Success?
    ensures Declared(BuildCandidate(snapshot, settings).value, entry) <==>
      if entry.serviceName == settings.serviceName
      then entry in EntriesOf(settings.serviceName, settings.endpoints)
      else Declared(snapshot, entry)
  {
    EntriesMembers(settings.serviceName, settings.endpoints, entry);
  }

  lemma CandidateRoutesAreUnion(snapshot: Snapshot, settings: Settings)
    requires RoutesAreUnion(snapshot) && NormalSettings(settings)
    requires BuildCandidate(snapshot, settings).Success? && WellFormed(settings.endpoints)
    ensures RoutesAreUnion(BuildCandidate(snapshot, settings).value)
  {
    var name := settings.serviceName;
    var entries := EntriesOf(name, settings.endpoints);
    var others := OthersRoutes(snapshot.routes, name);
    var after := BuildCandidate(snapshot, settings).value;
    EntriesHaveDistinctKeys(name, settings.endpoints);
    NoConflictIff(snapshot.routes, name, entries);
    forall key | key in after.routes ensures KeyOf(after.routes[key]) == key {
      WithEntriesLookup(others, entries, key);
    }
    forall entry ensures Declared(after, entry) <==> KeyOf(entry) in after.routes && after.routes[KeyOf(entry)] == entry {
      DeclaredAfter(snapshot, settings, entry);
      HeldAfter(snapshot, name, entries, entry);
    }
  }

  /** Which entries the route map holds once a service's routes were replaced. */
  lemma HeldAfter(snapshot: Snapshot, name: string, entries: seq<RouteEntry>, entry: RouteEntry)
    requires RoutesAreUnion(snapshot) && DistinctKeys(entries) && FirstConflict(snapshot.routes, name, entries) == None
    requires forall i :: 0 <= i < |entries| ==> entries[i].serviceName == name
    ensures var routes := WithEntries(OthersRoutes(snapshot.routes, name), entries);
      (KeyOf(entry) in routes && routes[KeyOf(entry)] == entry) <==>
        if entry.serviceName == name then entry in entries else Declared(snapshot, entry)
  {
    var key, others := KeyOf(entry), OthersRoutes(snapshot.routes, name);
    NoConflictIff(snapshot.routes, name, entries);
    if i :| 0 <= i < |entries| && KeyOf(entries[i]) == key {
      HeldNew(others, entries, i);
      assert entry in entries ==> entry == entries[i];
      assert key in snapshot.routes ==> snapshot.routes[key].serviceName == name;
    } else {
      WithEntriesLookup(others, entries, key);
      assert entry !in entries;
    }
  }

  lemma HeldNew(routes: map<RouteKey, RouteEntry>, entries: seq<RouteEntry>, i: nat)
    requires DistinctKeys(entries) && i < |entries|
    ensures KeyOf(entries[i]) in WithEntries(routes, entries) && WithEntries(routes, entries)[KeyOf(entries[i])] == entries[i]
  {
    WithEntriesLookup(routes, entries, KeyOf(entries[i]));
    var j :| 0 <= j < |entries| && entries[j] == WithEntries(routes, entries)[KeyOf(entries[i])];
    assert i == j;
  }

  lemma CandidateWildcardsAreUnion(snapshot: Snapshot, settings: Settings)
    requires WildcardsAreUnion(snapshot) && NormalSettings(settings)
    requires BuildCandidate(snapshot, settings).Success? && WellFormed(settings.endpoints)
    ensures WildcardsAreUnion(BuildCandidate(snapshot, settings).value)
  {
    var name := settings.serviceName;
    var entries := EntriesOf(name, settings.endpoints);
    var after := BuildCandidate(snapshot, settings).value;
    EntriesHaveDistinctKeys(name, settings.endpoints);
    WithoutServiceMembers(snapshot.wildcardRoutes, name);
    WildcardMembers(entries);
    var kept, added := WithoutService(snapshot.wildcardRoutes, name), Wildcards(entries);
    forall entry ensures entry in after.wildcardRoutes <==> Declared(after, entry) && IsWildcardPath(entry.path) {
      DeclaredAfter(snapshot, settings, entry);
      EntriesMembers(name, settings.endpoints, entry);
    }
    forall i, j | 0 <= i < |kept| && 0 <= j < |added| ensures kept[i] != added[j] {
      assert kept[i] in kept && added[j] in added;
      EntriesMembers(name, settings.endpoints, added[j]);
    }
  }

  lemma DeregisteredIsIndexed(snapshot: Snapshot, serviceName: string, instance: InstanceSettings)
    requires Indexed(snapshot)
    ensures var r := BuildDeregisterCandidate(snapshot, serviceName, instance);
      r.Success? ==> Indexed(r.value) && r.value.revision == snapshot.revision + 1
  {
    var r := BuildDeregisterCandidate(snapshot, serviceName, instance);
    if r.Success? {
      WithoutMembers(snapshot.services[serviceName].instances, instance);
      WithoutKeepsUnique(snapshot.services[serviceName].instances, instance);
      var after := r.value;
      assert NormalService(serviceName, after.services[serviceName]) by {
        var kept := after.services[serviceName].instances;
        forall i | 0 <= i < |kept| ensures NormalInstance(serviceName, kept[i]) {
          assert kept[i] in kept;
          assert kept[i] in snapshot.services[serviceName].instances;
        }
      }
      forall entry ensures Declared(after, entry) <==> Declared(snapshot, entry) {
      }
    }
  }

  /** No two services declare the same method and path. */
  lemma OwnerIsUnique(snapshot: Snapshot, a: RouteEntry, b: RouteEntry)
    requires RoutesAreUnion(snapshot) && Declared(snapshot, a) && Declared(snapshot, b) && KeyOf(a) == KeyOf(b)
    ensures a == b
  {
  }
}
