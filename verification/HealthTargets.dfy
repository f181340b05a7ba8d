/** The health targets a snapshot asks for (`desiredTargets` in `internal/health/config.go`). */
module HealthTargets {
  import opened ConfigIndex
  import opened ConfigModel
  import opened ConfigNormalize
  import opened HealthBackoff
  import opened HealthModel
  import opened Wrappers

  type Desired = map<TargetKey, DesiredTarget>

  /** `runtimeSettingsFrom`. */
  function RuntimeSettingsFrom(s: HealthSettings): RuntimeSettings {
    RuntimeSettings(
      s.enabled.GetOr(true),
      if s.path == "" then DEFAULT_HEALTH_PATH else s.path,
      s.interval.GetOr(DEFAULT_HEALTH_INTERVAL),
      s.timeout.GetOr(DEFAULT_HEALTH_TIMEOUT),
      s.jitter.GetOr(DEFAULT_HEALTH_JITTER),
      s.maxBackoff.GetOr(DEFAULT_HEALTH_MAX_BACKOFF),
      if s.failureThreshold <= 0 then DEFAULT_HEALTH_FAILURE_THRESHOLD else s.failureThreshold,
      if s.successThreshold <= 0 then DEFAULT_HEALTH_SUCCESS_THRESHOLD else s.successThreshold)
  }

  /** `targetKeyFor`. */
  function TargetKeyFor(serviceName: string, instance: InstanceSettings): TargetKey {
    var healthKey :=
      if instance.healthKey == "" && serviceName != "" && instance.scheme != "" && instance.host != "" && instance.port != ""
      then HealthKeyFor(serviceName, instance.scheme, instance.host, instance.port) else instance.healthKey;
    TargetKey(serviceName, instance.scheme, instance.host, instance.port, healthKey)
  }

  predicate UsableKey(key: TargetKey) {
    key.serviceName != "" && key.host != "" && key.port != "" && key.healthKey != ""
  }

  /** Some instance of a service with health checks switched on has this key. */
  ghost predicate Wanted(snapshot: Snapshot, key: TargetKey) {
    && UsableKey(key) && key.serviceName in snapshot.services
    && RuntimeSettingsFrom(snapshot.services[key.serviceName].health).enabled
    && exists i :: 0 <= i < |snapshot.services[key.serviceName].instances|
         && TargetKeyFor(key.serviceName, snapshot.services[key.serviceName].instances[i]) == key
  }

  /** `hash` stands for the FNV hash of a health key. */
  function TargetOf(service: ServiceSettings, key: TargetKey, hash: string -> nat): DesiredTarget {
    var settings := RuntimeSettingsFrom(service.health);
    DesiredTarget(settings, JitterFor(hash(key.healthKey), settings.jitter))
  }

  ghost predicate IsDesired(snapshot: Snapshot, hash: string -> nat, targets: Desired) {
    && (forall key :: key in targets <==> Wanted(snapshot, key))
    && (forall key :: key in targets ==> targets[key] == TargetOf(snapshot.services[key.serviceName], key, hash))
  }

  /** `desiredTargets`. */
  method DesiredTargets(snapshot: Snapshot, hash: string -> nat) returns (targets: Desired)
    ensures IsDesired(snapshot, hash, targets)
  {
    targets := map[];
    var names := snapshot.services.Keys;
    while names != {}
      invariant names <= snapshot.services.Keys
      invariant forall key :: key in targets <==> Wanted(snapshot, key) && key.serviceName !in names
      invariant forall key :: key in targets ==> targets[key] == TargetOf(snapshot.services[key.serviceName], key, hash)
      decreases names
    {
      var name :| name in names;
      names := names - {name};
      var service := snapshot.services[name];
      var settings := RuntimeSettingsFrom(service.health);
      if settings.enabled {
        ghost var others := targets;
        for i := 0 to |service.instances|
          invariant forall key :: key in targets <==> key in others || WantedBelow(service, name, key, i)
          invariant forall key :: key in targets ==> targets[key] == TargetOf(snapshot.services[key.serviceName], key, hash)
        {
          var key := TargetKeyFor(name, service.instances[i]);
          if UsableKey(key) {
            targets := targets[key := DesiredTarget(settings, JitterFor(hash(key.healthKey), settings.jitter))];
          }
        }
      }
    }
  }

  /** The keys of all instances. */
  function InstanceKeys(snapshot: Snapshot): set<TargetKey> {
    set name, i | name in snapshot.services && 0 <= i < |snapshot.services[name].instances| ::
      TargetKeyFor(name, snapshot.services[name].instances[i])
  }

  /** Every snapshot asks for some targets. */
  lemma DesiredExists(snapshot: Snapshot, hash: string -> nat) returns (targets: Desired)
    ensures IsDesired(snapshot, hash, targets)
  {
    targets := map key | key in InstanceKeys(snapshot) && Wanted(snapshot, key) ::
      TargetOf(snapshot.services[key.serviceName], key, hash);
    forall key | Wanted(snapshot, key) ensures key in InstanceKeys(snapshot) {
    }
  }

  ghost predicate WantedBelow(service: ServiceSettings, name: string, key: TargetKey, n: int) {
    UsableKey(key) && exists i :: 0 <= i < n && i < |service.instances| && TargetKeyFor(name, service.instances[i]) == key
  }

  ghost predicate DistinctHealthKeys(keys: set<TargetKey>) {
    && (forall k :: k in keys ==> k.healthKey != "")
    && (forall k, l :: k in keys && l in keys && k.healthKey == l.healthKey ==> k == l)
  }

  predicate BarFreeNames(snapshot: Snapshot) {
    forall name :: name in snapshot.services ==> '|' !in name
  }

  lemma WantedInstance(snapshot: Snapshot, key: TargetKey) returns (instance: InstanceSettings)
    requires Indexed(snapshot) && Wanted(snapshot, key)
    ensures NormalInstance(key.serviceName, instance)
    ensures instance == InstanceSettings(key.scheme, key.host, key.port, key.healthKey)
    ensures instance in snapshot.services[key.serviceName].instances
  {
    var instances := snapshot.services[key.serviceName].instances;
    assert NormalService(key.serviceName, snapshot.services[key.serviceName]);
    var i :| 0 <= i < |instances| && TargetKeyFor(key.serviceName, instances[i]) == key;
    instance := instances[i];
    assert NormalInstance(key.serviceName, instance);
  }

  /** A check loop runs on its service's own health settings, and its jitter is the hash of its key within their bound. */
  lemma DesiredSettingsAreServices(snapshot: Snapshot, hash: string -> nat, targets: Desired, key: TargetKey)
    requires Indexed(snapshot) && IsDesired(snapshot, hash, targets) && key in targets
    ensures key.serviceName in snapshot.services
    ensures var s, h := targets[key].settings, snapshot.services[key.serviceName].health;
      && h.enabled == Some(true) && h.interval == Some(s.interval) && h.timeout == Some(s.timeout)
      && h.jitter == Some(s.jitter) && h.maxBackoff == Some(s.maxBackoff)
      && h.path == s.path && h.failureThreshold == s.failureThreshold && h.successThreshold == s.successThreshold
      && targets[key].jitter == if s.jitter == 0 then 0 else hash(key.healthKey) % s.jitter
  {
    assert NormalService(key.serviceName, snapshot.services[key.serviceName]);
  }

  /** What stands for a value left blank. */
  lemma BlanksRunOnDefaults(h: HealthSettings)
    ensures var s := RuntimeSettingsFrom(h);
      && s.enabled == (h.enabled != Some(false))
      && s.interval == h.interval.GetOr(5_000_000_000) && s.timeout == h.timeout.GetOr(2_000_000_000)
      && s.jitter == h.jitter.GetOr(2_000_000_000) && s.maxBackoff == h.maxBackoff.GetOr(300_000_000_000)
      && (h.path != "" ==> s.path == h.path) && (h.path == "" ==> s.path == "/actuator/health")
      && s.failureThreshold == (if h.failureThreshold > 0 then h.failureThreshold else 2)
      && s.successThreshold == (if h.successThreshold > 0 then h.successThreshold else 1)
  {
  }

  /** Every loop a reachable snapshot starts has settings its thresholds and interval computation rely on. */
  lemma DesiredSettingsAreSound(snapshot: Snapshot, hash: string -> nat, targets: Desired, key: TargetKey)
    requires Indexed(snapshot) && IsDesired(snapshot, hash, targets) && key in targets
    ensures var s := targets[key].settings;
      && 0 < s.interval <= s.maxBackoff <= MAX_INT64
      && 0 < s.failureThreshold && 0 < s.successThreshold
      && 0 <= targets[key].jitter && (s.jitter > 0 ==> targets[key].jitter < s.jitter)
  {
    assert NormalService(key.serviceName, snapshot.services[key.serviceName]);
  }
}
