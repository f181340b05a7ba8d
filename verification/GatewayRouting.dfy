/**
  * The pieces together: routes and instances come from a reachable snapshot, health from the checking protocol,
  * the choice from the load balancer.
  */
module GatewayRouting {
  import ConfigRuns
  import opened ConfigIndex
  import opened ConfigModel
  import opened ConfigNormalize
  import opened HealthKeySharing
  import opened HealthModel
  import opened HealthProtocol
  import opened HealthRouting
  import opened HealthStore
  import opened HealthTargets
  import opened RouteLoadBalancer
  import opened Wrappers

  // Health keys of a snapshot.

  predicate ChecksEnabled(snapshot: Snapshot, name: string)
    requires name in snapshot.services
  {
    RuntimeSettingsFrom(snapshot.services[name].health).enabled
  }

  /** No instance of the one service has the health key of an instance of the other. */
  predicate KeysApart(snapshot: Snapshot, a: string, b: string)
    requires a in snapshot.services && b in snapshot.services
  {
    forall i, j :: 0 <= i < |snapshot.services[a].instances| && 0 <= j < |snapshot.services[b].instances| ==>
      snapshot.services[a].instances[i].healthKey != snapshot.services[b].instances[j].healthKey
  }

  /** Services that are checked share no health key. */
  ghost predicate CheckedKeysApart(snapshot: Snapshot) {
    forall a, b :: a in snapshot.services && b in snapshot.services && a != b ==>
      (ChecksEnabled(snapshot, a) && ChecksEnabled(snapshot, b) ==> KeysApart(snapshot, a, b))
  }

  /** No two services share a health key. */
  ghost predicate AllKeysApart(snapshot: Snapshot) {
    forall a, b :: a in snapshot.services && b in snapshot.services && a != b ==> KeysApart(snapshot, a, b)
  }

  lemma BarFreeKeysApart(snapshot: Snapshot)
    requires Indexed(snapshot) && BarFreeNames(snapshot)
    ensures AllKeysApart(snapshot)
  {
    forall a, b, i, j | a in snapshot.services && b in snapshot.services && a != b
      && 0 <= i < |snapshot.services[a].instances| && 0 <= j < |snapshot.services[b].instances|
      ensures snapshot.services[a].instances[i].healthKey != snapshot.services[b].instances[j].healthKey
    {
      assert NormalService(a, snapshot.services[a]) && NormalService(b, snapshot.services[b]);
      if snapshot.services[a].instances[i].healthKey == snapshot.services[b].instances[j].healthKey {
        BarFreeNamesNeverCollide(a, snapshot.services[a].instances[i], b, snapshot.services[b].instances[j]);
      }
    }
  }

  /** An instance of a checked service of a reachable snapshot is a target. */
  lemma InstanceIsWanted(snapshot: Snapshot, name: string, i: nat)
    requires Indexed(snapshot) && name in snapshot.services && ChecksEnabled(snapshot, name)
    requires i < |snapshot.services[name].instances|
    ensures var instance := snapshot.services[name].instances[i];
      Wanted(snapshot, TargetKeyFor(name, instance)) && TargetKeyFor(name, instance).healthKey == instance.healthKey
  {
    assert NormalService(name, snapshot.services[name]);
    assert NormalInstance(name, snapshot.services[name].instances[i]);
  }

  lemma OneServiceTargetsDiffer(snapshot: Snapshot, k: TargetKey, l: TargetKey)
    requires Indexed(snapshot) && Wanted(snapshot, k) && Wanted(snapshot, l)
    requires k.serviceName == l.serviceName && k.healthKey == l.healthKey
    ensures k == l
  {
    var a := WantedInstance(snapshot, k);
    var b := WantedInstance(snapshot, l);
    OneServiceKeysDiffer(k.serviceName, a, b);
  }

  lemma SharersAreOneService(snapshot: Snapshot, k: TargetKey, l: TargetKey)
    requires Indexed(snapshot) && CheckedKeysApart(snapshot) && Wanted(snapshot, k) && Wanted(snapshot, l)
    requires k.healthKey == l.healthKey
    ensures k.serviceName == l.serviceName
  {
    var a := WantedInstance(snapshot, k);
    var b := WantedInstance(snapshot, l);
    var i :| 0 <= i < |snapshot.services[k.serviceName].instances| && snapshot.services[k.serviceName].instances[i] == a;
    var j :| 0 <= j < |snapshot.services[l.serviceName].instances| && snapshot.services[l.serviceName].instances[j] == b;
    assert ChecksEnabled(snapshot, k.serviceName) && ChecksEnabled(snapshot, l.serviceName);
    assert k.serviceName != l.serviceName ==> KeysApart(snapshot, k.serviceName, l.serviceName);
  }

  lemma DistinctKeysAreApart(snapshot: Snapshot, desired: Desired, hash: string -> nat, a: string, b: string)
    requires Indexed(snapshot) && IsDesired(snapshot, hash, desired) && DistinctHealthKeys(desired.Keys)
    requires a in snapshot.services && b in snapshot.services && a != b
    requires ChecksEnabled(snapshot, a) && ChecksEnabled(snapshot, b)
    ensures KeysApart(snapshot, a, b)
  {
    forall i, j | 0 <= i < |snapshot.services[a].instances| && 0 <= j < |snapshot.services[b].instances|
      ensures snapshot.services[a].instances[i].healthKey != snapshot.services[b].instances[j].healthKey
    {
      InstanceIsWanted(snapshot, a, i);
      InstanceIsWanted(snapshot, b, j);
      var k := TargetKeyFor(a, snapshot.services[a].instances[i]);
      var l := TargetKeyFor(b, snapshot.services[b].instances[j]);
      assert k in desired.Keys && l in desired.Keys && k != l;
    }
  }

  /** The targets of a reachable snapshot have distinct health keys exactly when its checked services share none. */
  lemma DesiredKeysAreDistinctIff(snapshot: Snapshot, hash: string -> nat, desired: Desired)
    requires Indexed(snapshot) && IsDesired(snapshot, hash, desired)
    ensures DistinctHealthKeys(desired.Keys) <==> CheckedKeysApart(snapshot)
  {
    if CheckedKeysApart(snapshot) {
      forall k, l | k in desired && l in desired && k.healthKey == l.healthKey ensures k == l {
        SharersAreOneService(snapshot, k, l);
        OneServiceTargetsDiffer(snapshot, k, l);
      }
    }
    if DistinctHealthKeys(desired.Keys) {
      forall a, b | a in snapshot.services && b in snapshot.services && a != b
        && ChecksEnabled(snapshot, a) && ChecksEnabled(snapshot, b) ensures KeysApart(snapshot, a, b)
      {
        DistinctKeysAreApart(snapshot, desired, hash, a, b);
      }
    }
  }

  /** Routing follows the verdicts in every run that reconciles a given reachable snapshot exactly when the snapshot's
      checked services share no health key. */
  lemma ReachableRoutingFollowsIff(validators: seq<ConfigRuns.Validator>, commands: seq<ConfigRuns.Command>,
                                   hash: string -> nat, desired: Desired)
    requires IsDesired(ConfigRuns.Run(validators, commands), hash, desired)
    ensures AlwaysFollows(iset{desired}) <==> CheckedKeysApart(ConfigRuns.Run(validators, commands))
  {
    ConfigRuns.ReachableIsIndexed(validators, commands);
    DesiredKeysAreDistinctIff(ConfigRuns.Run(validators, commands), hash, desired);
    RoutingFollowsIff(iset{desired});
  }

  // Two registrations that share a health key.

  /** A registration with one endpoint and defaults for the rest. */
  function Plain(name: string, path: string, host: string): Settings {
    Settings(name, Some(GlobalSettings("")), None, None, [EndpointSettings(path, "GET", [])],
      Some(InstanceSettings("http", host, "80", "")))
  }

  function PlainInstance(name: string, host: string): InstanceSettings {
    InstanceSettings("http", host, "80", HealthKeyFor(name, "http", host, "80"))
  }

  /** The service that a plain registration makes. */
  predicate IsPlain(snapshot: Snapshot, name: string, path: string, host: string) {
    && name in snapshot.services && snapshot.services[name].health == DefaultHealthSettings
    && snapshot.services[name].instances == [PlainInstance(name, host)]
    && snapshot.services[name].endpoints == [EndpointSettings(path, "GET", [])]
  }

  lemma PlainIsRegistered(commands: seq<ConfigRuns.Command>, name: string, path: string, host: string)
    requires name != "" && path != "" && ValidHost(host)
    requires var before := ConfigRuns.Run([], commands);
      name !in before.services && RouteKey("GET", path) !in before.routes
    ensures var before, after := ConfigRuns.Run([], commands), ConfigRuns.Run([], commands + [ConfigRuns.Register(Plain(name, path, host))]);
      && IsPlain(after, name, path, host) && after.services.Keys == before.services.Keys + {name}
      && forall other :: other in before.services ==> after.services[other] == before.services[other]
  {
    var settings, before := Plain(name, path, host), ConfigRuns.Run([], commands);
    PlainAddressIsValid();
    assert KeyOf(EntriesOf(name, settings.endpoints)[0]) == RouteKey("GET", path);
    NoConflictIff(before.routes, name, EntriesOf(name, settings.endpoints));
    ConfigRuns.RegisterCommits(commands, settings);
  }

  lemma OnlyPlainRoute(snapshot: Snapshot, name: string, path: string, host: string, key: RouteKey)
    requires Indexed(snapshot) && snapshot.services.Keys == {name} && IsPlain(snapshot, name, path, host)
    ensures key in snapshot.routes ==> key.path == path
  {
    if key in snapshot.routes {
      assert KeyOf(snapshot.routes[key]) == key && Declared(snapshot, snapshot.routes[key]);
    }
  }

  lemma TwoAreRegistered(name1: string, path1: string, host1: string, name2: string, path2: string, host2: string)
    requires name1 != "" && path1 != "" && ValidHost(host1) && name2 != "" && path2 != "" && ValidHost(host2)
    requires name1 != name2 && path1 != path2
    ensures var snapshot := ConfigRuns.Run([], TwoPlain(name1, path1, host1, name2, path2, host2));
      snapshot.services.Keys == {name1, name2} && IsPlain(snapshot, name1, path1, host1) && IsPlain(snapshot, name2, path2, host2)
  {
    var first := [ConfigRuns.Register(Plain(name1, path1, host1))];
    assert [] + first == first;
    PlainIsRegistered([], name1, path1, host1);
    var snapshot := ConfigRuns.Run([], first);
    assert snapshot.services.Keys == {name1};
    ConfigRuns.ReachableIsIndexed([], first);
    OnlyPlainRoute(snapshot, name1, path1, host1, RouteKey("GET", path2));
    PlainIsRegistered(first, name2, path2, host2);
  }

  function TwoPlain(name1: string, path1: string, host1: string, name2: string, path2: string, host2: string): seq<ConfigRuns.Command> {
    [ConfigRuns.Register(Plain(name1, path1, host1))] + [ConfigRuns.Register(Plain(name2, path2, host2))]
  }

  /** Service `a` with host `b|http|h`, and service `a|http|b` with host `h`. */
  const Both := TwoPlain("a", "/a", "b|http|h", "a|http|b", "/b", "h")

  lemma KeysCoincide()
    ensures ValidHost("b|http|h") && ValidHost("h")
    ensures PlainInstance("a", "b|http|h").healthKey == PlainInstance("a|http|b", "h").healthKey
  {
    assert HealthKeyFor("a", "http", "b|http|h", "80") == "a|http|b|http|h|80";
    assert HealthKeyFor("a|http|b", "http", "h", "80") == "a|http|b|http|h|80";
  }

  lemma BothAreRegistered()
    ensures IsPlain(ConfigRuns.Run([], Both), "a", "/a", "b|http|h") && IsPlain(ConfigRuns.Run([], Both), "a|http|b", "/b", "h")
  {
    KeysCoincide();
    TwoAreRegistered("a", "/a", "b|http|h", "a|http|b", "/b", "h");
  }

  /** Two acceptable registrations, with nothing else going on: in some run that reconciles their snapshot only, with
      the lock free, a running target judged Unhealthy is routable. */
  lemma SharedHealthKeyHidesFailure(hash: string -> nat) returns (desired: Desired, key: TargetKey, actions: seq<Action>)
    ensures IsDesired(ConfigRuns.Run([], Both), hash, desired) && !CheckedKeysApart(ConfigRuns.Run([], Both))
    ensures Asks(actions, iset{desired}) && Run(actions).phase == Unlocked
    ensures var s := Run(actions); IsDown(s.registry.targets, s.loops, key) && Routable(s.registry.records, key.healthKey)
  {
    var snapshot := ConfigRuns.Run([], Both);
    BothAreRegistered();
    KeysCoincide();
    ConfigRuns.ReachableIsIndexed([], Both);
    desired := DesiredExists(snapshot, hash);
    var other;
    key, other := PlainSharers(snapshot, "a", "/a", "b|http|h", "a|http|b", "/b", "h");
    actions := FailureIsHidden(desired, key);
  }

  lemma PlainSharers(snapshot: Snapshot, name1: string, path1: string, host1: string, name2: string, path2: string, host2: string)
    returns (k: TargetKey, l: TargetKey)
    requires Indexed(snapshot) && IsPlain(snapshot, name1, path1, host1) && IsPlain(snapshot, name2, path2, host2)
    requires name1 != name2 && PlainInstance(name1, host1).healthKey == PlainInstance(name2, host2).healthKey
    ensures Wanted(snapshot, k) && Wanted(snapshot, l) && k != l && k.healthKey == l.healthKey
    ensures !CheckedKeysApart(snapshot)
  {
    InstanceIsWanted(snapshot, name1, 0);
    InstanceIsWanted(snapshot, name2, 0);
    k, l := TargetKeyFor(name1, PlainInstance(name1, host1)), TargetKeyFor(name2, PlainInstance(name2, host2));
    assert snapshot.services[name1].instances[0] == PlainInstance(name1, host1);
    assert snapshot.services[name2].instances[0] == PlainInstance(name2, host2);
    assert !KeysApart(snapshot, name1, name2);
  }

  // Choosing an instance.

  /** Every reconciliation is asked for the targets of a reachable snapshot whose checked services share no key. */
  ghost predicate AsksForSnapshots(actions: seq<Action>, hash: string -> nat) {
    forall i :: 0 <= i < |actions| && actions[i].Lock? ==>
      exists snapshot :: Indexed(snapshot) && CheckedKeysApart(snapshot) && IsDesired(snapshot, hash, actions[i].desired)
  }

  lemma SnapshotsSeparate(actions: seq<Action>, hash: string -> nat)
    requires AsksForSnapshots(actions, hash)
    ensures SeparateDemands(actions)
  {
    forall i | 0 <= i < |actions| && actions[i].Lock? ensures DistinctHealthKeys(actions[i].desired.Keys) {
      var snapshot :| Indexed(snapshot) && CheckedKeysApart(snapshot) && IsDesired(snapshot, hash, actions[i].desired);
      DesiredKeysAreDistinctIff(snapshot, hash, actions[i].desired);
    }
  }

  /** The instance is a running target whose own published checks amount to Unhealthy. */
  predicate Down(s: System, serviceName: string, instance: InstanceSettings) {
    IsDown(s.registry.targets, s.loops, TargetKeyFor(serviceName, instance))
  }

  /** With the last reconciled snapshot, an instance is routable exactly when it is not down. */
  lemma ReadyIffNotDown(actions: seq<Action>, snapshot: Snapshot, hash: string -> nat, serviceName: string, i: nat)
    requires AsksForSnapshots(actions, hash) && Run(actions).phase == Unlocked
    requires Indexed(snapshot) && AllKeysApart(snapshot) && IsDesired(snapshot, hash, Run(actions).last)
    requires serviceName in snapshot.services && i < |snapshot.services[serviceName].instances|
    ensures var instance := snapshot.services[serviceName].instances[i];
      Routable(Run(actions).registry.records, instance.healthKey) <==> !Down(Run(actions), serviceName, instance)
  {
    var s, instance := Run(actions), snapshot.services[serviceName].instances[i];
    SnapshotsSeparate(actions, hash);
    RoutingFollowsVerdicts(actions, instance.healthKey);
    assert NormalService(serviceName, snapshot.services[serviceName]);
    assert NormalInstance(serviceName, instance);
    assert TargetKeyFor(serviceName, instance).healthKey == instance.healthKey;
    if JudgedUnhealthy(s.registry.targets, s.loops, instance.healthKey) {
      var key :| key in s.registry.targets && key.healthKey == instance.healthKey && IsDown(s.registry.targets, s.loops, key);
      assert key in s.last.Keys;
      HolderIsInstance(snapshot, key, serviceName, i);
    }
  }

  lemma HolderIsInstance(snapshot: Snapshot, key: TargetKey, serviceName: string, i: nat)
    requires Indexed(snapshot) && AllKeysApart(snapshot) && Wanted(snapshot, key)
    requires serviceName in snapshot.services && i < |snapshot.services[serviceName].instances|
    requires snapshot.services[serviceName].instances[i].healthKey == key.healthKey
    ensures key == TargetKeyFor(serviceName, snapshot.services[serviceName].instances[i])
  {
    var holder := WantedInstance(snapshot, key);
    var j :| 0 <= j < |snapshot.services[key.serviceName].instances|
      && snapshot.services[key.serviceName].instances[j] == holder;
    assert key.serviceName != serviceName ==> KeysApart(snapshot, key.serviceName, serviceName);
    InstanceIsWanted(snapshot, serviceName, i);
    OneServiceTargetsDiffer(snapshot, key, TargetKeyFor(serviceName, snapshot.services[serviceName].instances[i]));
  }

  /** The load balancer never hands out an instance that is down; where its scan is regular, it fails only when every
      instance of the service is down. */
  lemma NeverRoutedToDown(actions: seq<Action>, snapshot: Snapshot, hash: string -> nat, serviceName: string, cursor: int)
    requires AsksForSnapshots(actions, hash) && Run(actions).phase == Unlocked
    requires Indexed(snapshot) && AllKeysApart(snapshot) && IsDesired(snapshot, hash, Run(actions).last)
    requires serviceName in snapshot.services && snapshot.services[serviceName].instances != [] && IsUint64(cursor)
    ensures var instances := snapshot.services[serviceName].instances;
      match FirstReady(Ready(instances, Run(actions).registry.records), cursor, 0)
      case Some(p) => !Down(Run(actions), serviceName, instances[p])
      case None =>
        |instances| < TWO_64 && Regular(cursor, |instances|) ==>
          forall i :: 0 <= i < |instances| ==> Down(Run(actions), serviceName, instances[i])
  {
    var instances := snapshot.services[serviceName].instances;
    var ready := Ready(instances, Run(actions).registry.records);
    forall i | 0 <= i < |instances| ensures ready[i] <==> !Down(Run(actions), serviceName, instances[i]) {
      ReadyIffNotDown(actions, snapshot, hash, serviceName, i);
    }
    if |instances| < TWO_64 && Regular(cursor, |instances|) {
      ScanCoversIff(cursor, |instances|);
      CoveringScanFinds(ready, cursor);
    }
  }
}
