/** Target reconciliation of `internal/health/manager.go`: its two loops on the heap, and the steps they take. */
module HealthReconcile {
  import opened HealthModel
  import opened HealthStore
  import opened HealthTargets

  /** Targets, generation counter and published records; `cancelled` holds the generations told to stop. */
  datatype Registry = Registry(targets: map<TargetKey, Target>, generation: nat, records: Records, cancelled: set<nat>)

  predicate Keeps(targets: map<TargetKey, Target>, desired: Desired, key: TargetKey) {
    key in targets && key in desired && targets[key].settings == desired[key].settings
  }

  /** One target goes: its loop is cancelled and its record removed. */
  function Retire(r: Registry, key: TargetKey): Registry
    requires key in r.targets
  {
    Registry(r.targets - {key}, r.generation, WithoutKey(r.records, key.healthKey), r.cancelled + {r.targets[key].generation})
  }

  /** One target comes: a new generation, starting at Unknown. */
  function Start(r: Registry, key: TargetKey, d: DesiredTarget): Registry {
    var generation := r.generation + 1;
    Registry(r.targets[key := Target(d.settings, d.jitter, generation)], generation,
      WithUnknown(r.records, key.healthKey, generation), r.cancelled)
  }

  function HealthKeys(keys: set<TargetKey>): set<string> {
    set key | key in keys :: key.healthKey
  }

  function Generations(targets: map<TargetKey, Target>, keys: set<TargetKey>): set<nat> {
    set key | key in keys && key in targets :: targets[key].generation
  }

  /** Generations of running targets are distinct and at most the counter. */
  predicate Numbered(targets: map<TargetKey, Target>, generation: nat) {
    && (forall key :: key in targets ==> targets[key].generation <= generation)
    && (forall k, l :: k in targets && l in targets && targets[k].generation == targets[l].generation ==> k == l)
  }

  ghost predicate HasTarget(targets: map<TargetKey, Target>, healthKey: string) {
    exists key :: key in targets && key.healthKey == healthKey
  }

  /** Every target has a record of its own generation under its health key, and there is no other record. */
  ghost predicate Recorded(targets: map<TargetKey, Target>, records: Records) {
    && (forall key :: key in targets ==>
          key.healthKey in records && records[key.healthKey].generation == targets[key].generation)
    && (forall healthKey :: healthKey in records ==> HasTarget(targets, healthKey))
  }

  function Kept(targets: map<TargetKey, Target>, desired: Desired): map<TargetKey, Target> {
    map key | key in targets && Keeps(targets, desired, key) :: targets[key]
  }

  predicate IsNew(target: Target, d: DesiredTarget, generation: nat, counter: nat) {
    target.settings == d.settings && target.jitter == d.jitter && generation < target.generation <= counter
  }

  ghost predicate DistinctGenerations(targets: map<TargetKey, Target>, keys: set<TargetKey>)
    requires keys <= targets.Keys
  {
    forall k, l :: k in keys && l in keys && k != l ==> targets[k].generation != targets[l].generation
  }

  predicate SameOutside(before: map<TargetKey, Target>, after: map<TargetKey, Target>, keys: set<TargetKey>) {
    forall key :: key in before && key !in keys ==> key in after && after[key] == before[key]
  }

  /** Starting the targets `started` on top of `before`: the old ones stay, each new one has the desired settings and a
      generation of its own above `generation`. */
  ghost predicate StartedTargets(before: map<TargetKey, Target>, generation: nat, desired: Desired, started: set<TargetKey>,
                                 after: map<TargetKey, Target>, counter: nat) {
    && started <= desired.Keys
    && after.Keys == before.Keys + started
    && SameOutside(before, after, started)
    && AllNew(after, desired, started, generation, counter)
    && DistinctGenerations(after, started)
    && counter == generation + |started|
  }

  /** What reconciling against `desired` makes of `before`: exactly the desired targets run; those with unchanged
      settings are the same as before, the others are new, and the loops of all others are told to stop. */
  ghost predicate Reconciled(before: Registry, desired: Desired, after: Registry) {
    var kept := Kept(before.targets, desired);
    && after.targets.Keys == desired.Keys
    && StartedTargets(kept, before.generation, desired, desired.Keys - kept.Keys, after.targets, after.generation)
    && after.cancelled == before.cancelled + Generations(before.targets, before.targets.Keys - kept.Keys)
  }

  /** Health keys tell the running targets apart, and the desired ones; every running target has its record. */
  ghost predicate Separate(r: Registry, desired: Desired) {
    DistinctHealthKeys(r.targets.Keys) && DistinctHealthKeys(desired.Keys) && Recorded(r.targets, r.records)
  }

  /** The records side, when health keys tell targets apart: kept targets keep their record, new ones are Unknown. */
  ghost predicate RecordsReconciled(before: Registry, desired: Desired, after: Registry) {
    && Recorded(after.targets, after.records)
    && (forall key :: key in Kept(before.targets, desired) ==>
          && key.healthKey in before.records && key.healthKey in after.records
          && after.records[key.healthKey] == before.records[key.healthKey])
    && (forall key :: key in after.targets && key !in Kept(before.targets, desired) ==>
          && key.healthKey in after.records
          && after.records[key.healthKey] == StatusRecord(Unknown, 0, 0, after.targets[key].generation))
  }

  class Manager {
    var targets: map<TargetKey, Target>
    var generation: nat
    var cancelled: set<nat>
    var maxIdleConns: nat
    const store: Store

    ghost function View(): Registry
      reads this, store
    {
      Registry(targets, generation, store.records, cancelled)
    }

    ghost predicate Valid()
      reads this
    {
      Numbered(targets, generation)
    }

    constructor (store: Store)
      ensures Valid() && this.store == store && targets == map[] && generation == 0 && cancelled == {} && maxIdleConns == 1
    {
      this.store := store;
      targets, generation, cancelled, maxIdleConns := map[], 0, {}, 1;
    }

    /** `reconcile`. */
    method Reconcile(desired: Desired)
      requires Valid()
      modifies this, store
      ensures Valid()
      ensures Reconciled(old(View()), desired, View())
      ensures targets.Keys == desired.Keys
      ensures forall key :: key in desired ==>
        && targets[key].settings == desired[key].settings
        && (key in old(targets) && old(targets)[key].settings == desired[key].settings ==> targets[key] == old(targets)[key])
        && (!(key in old(targets) && old(targets)[key].settings == desired[key].settings) ==>
              targets[key].jitter == desired[key].jitter && old(generation) < targets[key].generation <= generation)
      ensures Separate(old(View()), desired) ==> RecordsReconciled(old(View()), desired, View())
      ensures maxIdleConns == if |desired| < 1 then 1 else |desired|
    {
      ghost var before := View();
      RetireOutdated(desired);
      ghost var between := View();
      FirstPhaseKeeps(before, desired, between);
      StartMissing(desired, desired.Keys - targets.Keys);
      maxIdleConns := if |targets| < 1 then 1 else |targets|;
      BothPhases(before, desired, between, View());
      ReconciledTargets(before, desired, View());
      assert |targets| == |targets.Keys| && |desired| == |desired.Keys|;
    }

    /** The first loop of `reconcile`. */
    method RetireOutdated(desired: Desired)
      requires Valid()
      modifies this`targets, this`cancelled, store
      ensures Valid() && VisitedFrom(old(View()), desired, {}, View())
    {
      var unvisited := targets.Keys;
      ghost var before := View();
      while unvisited != {}
        invariant unvisited <= before.targets.Keys && Valid()
        invariant VisitedFrom(before, desired, unvisited, View())
        decreases unvisited
      {
        var key :| key in unvisited;
        VisitStep(before, desired, unvisited, key, View());
        unvisited := unvisited - {key};
        if !(key in desired && targets[key].settings == desired[key].settings) {
          RetireOne(key);
        }
      }
    }

    /** The body of the first loop, for a target that goes. */
    method RetireOne(key: TargetKey)
      requires Valid() && key in targets
      modifies this`targets, this`cancelled, store
      ensures Valid() && View() == Retire(old(View()), key)
    {
      cancelled := cancelled + {targets[key].generation};
      targets := targets - {key};
      store.Delete(key.healthKey);
    }

    /** The second loop of `reconcile`. */
    method StartMissing(desired: Desired, missing: set<TargetKey>)
      requires Valid() && missing <= desired.Keys && missing !! targets.Keys
      modifies this`targets, this`generation, store
      ensures Valid() && StartedFrom(old(View()), desired, missing, missing, View())
    {
      var waiting := missing;
      ghost var before, order: seq<TargetKey> := View(), [];
      while waiting != {}
        invariant waiting <= missing && Listed(order, missing - waiting)
        invariant Valid() && View() == StartAll(before, desired, order)
        decreases waiting
      {
        var key :| key in waiting;
        StartOne(key, desired[key]);
        assert (order + [key])[..|order|] == order;
        assert missing - (waiting - {key}) == (missing - waiting) + {key};
        order := order + [key];
        waiting := waiting - {key};
      }
      assert missing - {} == missing;
      StartAllIsStarted(before, desired, missing, missing, order);
    }

    /** The body of the second loop. */
    method StartOne(key: TargetKey, d: DesiredTarget)
      requires Valid()
      modifies this`targets, this`generation, store
      ensures Valid() && View() == Start(old(View()), key, d)
    {
      generation := generation + 1;
      targets := targets[key := Target(d.settings, d.jitter, generation)];
      store.SetUnknown(key.healthKey, generation);
    }
  }

  /** After the first loop has visited all but `unvisited`. */
  ghost predicate VisitedFrom(before: Registry, desired: Desired, unvisited: set<TargetKey>, r: Registry) {
    var gone := set key | key in before.targets && key !in unvisited && !Keeps(before.targets, desired, key);
    && r.targets == before.targets - gone
    && r.generation == before.generation
    && r.cancelled == before.cancelled + Generations(before.targets, gone)
    && r.records == before.records - (HealthKeys(gone) - {""})
  }

  /** One visit of the first loop: the target is kept or retired. */
  lemma VisitStep(before: Registry, desired: Desired, unvisited: set<TargetKey>, key: TargetKey, r: Registry)
    requires key in unvisited && unvisited <= before.targets.Keys && VisitedFrom(before, desired, unvisited, r)
    ensures key in r.targets && r.targets[key] == before.targets[key]
    ensures VisitedFrom(before, desired, unvisited - {key}, if Keeps(before.targets, desired, key) then r else Retire(r, key))
  {
    var gone := set k | k in before.targets && k !in unvisited && !Keeps(before.targets, desired, k);
    var more := set k | k in before.targets && k !in unvisited - {key} && !Keeps(before.targets, desired, k);
    if Keeps(before.targets, desired, key) {
      assert more == gone;
    } else {
      assert more == gone + {key};
      assert HealthKeys(more) == HealthKeys(gone) + {key.healthKey};
      assert Generations(before.targets, more) == Generations(before.targets, gone) + {before.targets[key].generation};
    }
  }

  /** After the second loop has started `started` out of `missing`. */
  ghost predicate StartedFrom(before: Registry, desired: Desired, missing: set<TargetKey>, started: set<TargetKey>, r: Registry) {
    && StartedTargets(before.targets, before.generation, desired, started, r.targets, r.generation)
    && r.cancelled == before.cancelled
    && (DistinctHealthKeys(missing) ==> StartedRecords(before.records, started, r.targets, r.records))
  }

  /** `order` lists every key of `keys` once. */
  ghost predicate Listed(order: seq<TargetKey>, keys: set<TargetKey>) {
    && (forall i :: 0 <= i < |order| ==> order[i] in keys)
    && (forall key :: key in keys ==> key in order)
    && (forall i, j :: 0 <= i < j < |order| ==> order[i] != order[j])
  }

  function StartAll(r: Registry, desired: Desired, order: seq<TargetKey>): Registry {
    if order == [] then r
    else
      var most, key := StartAll(r, desired, order[..|order| - 1]), order[|order| - 1];
      if key in desired then Start(most, key, desired[key]) else most
  }

  lemma NothingStarted(before: Registry, desired: Desired, missing: set<TargetKey>)
    ensures StartedFrom(before, desired, missing, {}, before)
  {
  }

  lemma ListedInit(order: seq<TargetKey>, keys: set<TargetKey>)
    requires Listed(order, keys) && order != []
    ensures var n := |order| - 1;
      order[n] in keys && Listed(order[..n], keys - {order[n]}) && (keys - {order[n]}) + {order[n]} == keys
  {
  }

  lemma {:induction false} StartAllIsStarted(before: Registry, desired: Desired, missing: set<TargetKey>,
                                             started: set<TargetKey>, order: seq<TargetKey>)
    requires Listed(order, started) && started <= missing && missing <= desired.Keys && missing !! before.targets.Keys
    ensures StartedFrom(before, desired, missing, started, StartAll(before, desired, order))
  {
    if order == [] {
      assert started == {};
      NothingStarted(before, desired, missing);
    } else {
      var n := |order| - 1;
      var key, fewer := order[n], started - {order[n]};
      ListedInit(order, started);
      StartAllIsStarted(before, desired, missing, fewer, order[..n]);
      StartStep(before, desired, missing, fewer, key, StartAll(before, desired, order[..n]));
    }
  }

  lemma StartStep(before: Registry, desired: Desired, missing: set<TargetKey>, started: set<TargetKey>, key: TargetKey, r: Registry)
    requires key in desired && key !in started && key !in before.targets && started + {key} <= missing
    requires StartedFrom(before, desired, missing, started, r)
    ensures StartedFrom(before, desired, missing, started + {key}, Start(r, key, desired[key]))
  {
    StartTargetStep(before, desired, started, key, r);
    if DistinctHealthKeys(missing) {
      assert DistinctHealthKeys(started + {key});
      StartRecordStep(before.records, started, key, r, desired[key]);
    }
  }

  /** The records after `started` were set to Unknown. */
  ghost predicate StartedRecords(before: Records, started: set<TargetKey>, targets: map<TargetKey, Target>, after: Records) {
    && (forall key :: key in started ==>
          && key in targets && key.healthKey in after
          && after[key.healthKey] == StatusRecord(Unknown, 0, 0, targets[key].generation))
    && (forall healthKey :: healthKey in before && healthKey !in HealthKeys(started) ==>
          healthKey in after && after[healthKey] == before[healthKey])
    && (forall healthKey :: healthKey in after ==> healthKey in before || healthKey in HealthKeys(started))
  }

  ghost predicate AllNew(targets: map<TargetKey, Target>, desired: Desired, keys: set<TargetKey>, generation: nat, counter: nat) {
    forall key :: key in keys ==> key in targets && key in desired && IsNew(targets[key], desired[key], generation, counter)
  }

  lemma NewAfterStart(r: Registry, desired: Desired, started: set<TargetKey>, key: TargetKey, generation: nat)
    requires AllNew(r.targets, desired, started, generation, r.generation) && generation <= r.generation
    requires key in desired && key !in started
    ensures var next := Start(r, key, desired[key]);
      AllNew(next.targets, desired, started + {key}, generation, next.generation)
  {
  }

  lemma DistinctAfterStart(r: Registry, desired: Desired, started: set<TargetKey>, key: TargetKey, generation: nat)
    requires AllNew(r.targets, desired, started, generation, r.generation) && key in desired && key !in started
    requires started <= r.targets.Keys && DistinctGenerations(r.targets, started)
    ensures DistinctGenerations(Start(r, key, desired[key]).targets, started + {key})
  {
  }

  lemma OldAfterStart(before: Registry, started: set<TargetKey>, key: TargetKey, r: Registry, d: DesiredTarget)
    requires SameOutside(before.targets, r.targets, started) && r.targets.Keys == before.targets.Keys + started
    ensures SameOutside(before.targets, Start(r, key, d).targets, started + {key})
    ensures Start(r, key, d).targets.Keys == before.targets.Keys + (started + {key})
  {
  }

  lemma StartTargetStep(before: Registry, desired: Desired, started: set<TargetKey>, key: TargetKey, r: Registry)
    requires key in desired && key !in started && key !in before.targets
    requires StartedTargets(before.targets, before.generation, desired, started, r.targets, r.generation)
    ensures var next := Start(r, key, desired[key]);
      StartedTargets(before.targets, before.generation, desired, started + {key}, next.targets, next.generation)
  {
    NewAfterStart(r, desired, started, key, before.generation);
    DistinctAfterStart(r, desired, started, key, before.generation);
    OldAfterStart(before, started, key, r, desired[key]);
  }

  lemma StartRecordStep(before: Records, started: set<TargetKey>, key: TargetKey, r: Registry, d: DesiredTarget)
    requires key !in started && key !in r.targets && DistinctHealthKeys(started + {key})
    requires StartedRecords(before, started, r.targets, r.records)
    ensures var next := Start(r, key, d); StartedRecords(before, started + {key}, next.targets, next.records)
  {
    assert key in started + {key} && key.healthKey != "";
    assert HealthKeys(started + {key}) == HealthKeys(started) + {key.healthKey};
    forall k | k in started ensures k.healthKey != key.healthKey {
      assert k in started + {key};
    }
  }

  lemma BothPhases(before: Registry, desired: Desired, between: Registry, after: Registry)
    requires VisitedFrom(before, desired, {}, between)
    requires var missing := desired.Keys - between.targets.Keys; StartedFrom(between, desired, missing, missing, after)
    ensures Reconciled(before, desired, after)
    ensures Separate(before, desired) ==> RecordsReconciled(before, desired, after)
  {
    FirstPhaseKeeps(before, desired, between);
    BothPhasesKeep(before, desired, between, after);
    if Separate(before, desired) {
      BothPhasesRecord(before, desired, between, after);
    }
  }

  lemma BothPhasesKeep(before: Registry, desired: Desired, between: Registry, after: Registry)
    requires var kept := Kept(before.targets, desired);
      && between.targets == kept && between.generation == before.generation
      && between.cancelled == before.cancelled + Generations(before.targets, before.targets.Keys - kept.Keys)
    requires var missing := desired.Keys - between.targets.Keys; StartedFrom(between, desired, missing, missing, after)
    ensures Reconciled(before, desired, after)
  {
  }

  lemma BothPhasesRecord(before: Registry, desired: Desired, between: Registry, after: Registry)
    requires Separate(before, desired) && Reconciled(before, desired, after)
    requires var kept := Kept(before.targets, desired);
      && between.targets == kept
      && between.records == before.records - (HealthKeys(before.targets.Keys - kept.Keys) - {""})
    requires var missing := desired.Keys - between.targets.Keys; StartedFrom(between, desired, missing, missing, after)
    ensures RecordsReconciled(before, desired, after)
  {
    var kept := Kept(before.targets, desired);
    var missing := desired.Keys - kept.Keys;
    assert DistinctHealthKeys(missing);
    KeptAfterStart(kept, before.generation, desired, missing, after);
    PhasesKeepRecords(before, desired, before.targets.Keys - kept.Keys, between.records, after);
  }

  lemma FirstPhaseKeeps(before: Registry, desired: Desired, between: Registry)
    requires VisitedFrom(before, desired, {}, between)
    ensures var kept := Kept(before.targets, desired);
      var gone := before.targets.Keys - kept.Keys;
      && between.targets == kept && between.generation == before.generation
      && between.cancelled == before.cancelled + Generations(before.targets, gone)
      && between.records == before.records - (HealthKeys(gone) - {""})
  {
    var kept := Kept(before.targets, desired);
    var gone := set key | key in before.targets && key !in {} && !Keeps(before.targets, desired, key);
    assert gone == before.targets.Keys - kept.Keys;
    assert between.targets == kept;
  }

  lemma KeptAfterStart(kept: map<TargetKey, Target>, generation: nat, desired: Desired, started: set<TargetKey>, after: Registry)
    requires StartedTargets(kept, generation, desired, started, after.targets, after.generation) && started !! kept.Keys
    ensures forall key :: key in kept ==> key in after.targets && after.targets[key] == kept[key]
  {
  }

  lemma PhasesKeepRecords(before: Registry, desired: Desired, gone: set<TargetKey>, between: Records, after: Registry)
    requires DistinctHealthKeys(before.targets.Keys) && DistinctHealthKeys(desired.Keys)
    requires Recorded(before.targets, before.records)
    requires gone == before.targets.Keys - Kept(before.targets, desired).Keys
    requires between == before.records - (HealthKeys(gone) - {""})
    requires StartedRecords(between, desired.Keys - Kept(before.targets, desired).Keys, after.targets, after.records)
    requires after.targets.Keys == desired.Keys
    requires forall key :: key in Kept(before.targets, desired) ==> after.targets[key] == before.targets[key]
    ensures RecordsReconciled(before, desired, after)
  {
    forall key | key in Kept(before.targets, desired)
      ensures key.healthKey in before.records && key.healthKey in after.records
      ensures after.records[key.healthKey] == before.records[key.healthKey]
    {
      KeptKeepsRecord(before, desired, gone, between, after, key);
    }
    PhasesKeepRecorded(before, desired, gone, between, after);
  }

  lemma PhasesKeepRecorded(before: Registry, desired: Desired, gone: set<TargetKey>, between: Records, after: Registry)
    requires DistinctHealthKeys(before.targets.Keys) && DistinctHealthKeys(desired.Keys)
    requires Recorded(before.targets, before.records)
    requires gone == before.targets.Keys - Kept(before.targets, desired).Keys
    requires between == before.records - (HealthKeys(gone) - {""})
    requires StartedRecords(between, desired.Keys - Kept(before.targets, desired).Keys, after.targets, after.records)
    requires after.targets.Keys == desired.Keys
    requires forall key :: key in Kept(before.targets, desired) ==> after.targets[key] == before.targets[key]
    ensures Recorded(after.targets, after.records)
  {
    forall key | key in after.targets
      ensures key.healthKey in after.records && after.records[key.healthKey].generation == after.targets[key].generation
    {
      if key in Kept(before.targets, desired) {
        KeptKeepsRecord(before, desired, gone, between, after, key);
      }
    }
    forall healthKey | healthKey in after.records ensures HasTarget(after.targets, healthKey) {
      NoStrayRecord(before, desired, gone, between, after, healthKey);
    }
  }

  lemma KeptKeepsRecord(before: Registry, desired: Desired, gone: set<TargetKey>, between: Records, after: Registry, key: TargetKey)
    requires DistinctHealthKeys(before.targets.Keys) && DistinctHealthKeys(desired.Keys)
    requires Recorded(before.targets, before.records) && key in Kept(before.targets, desired)
    requires gone == before.targets.Keys - Kept(before.targets, desired).Keys
    requires between == before.records - (HealthKeys(gone) - {""})
    requires StartedRecords(between, desired.Keys - Kept(before.targets, desired).Keys, after.targets, after.records)
    ensures key.healthKey in before.records && key.healthKey in after.records
    ensures after.records[key.healthKey] == before.records[key.healthKey]
  {
    assert key.healthKey !in HealthKeys(gone);
    assert key.healthKey !in HealthKeys(desired.Keys - Kept(before.targets, desired).Keys);
  }

  lemma NoStrayRecord(before: Registry, desired: Desired, gone: set<TargetKey>, between: Records, after: Registry, healthKey: string)
    requires Recorded(before.targets, before.records) && DistinctHealthKeys(before.targets.Keys)
    requires gone == before.targets.Keys - Kept(before.targets, desired).Keys
    requires between == before.records - (HealthKeys(gone) - {""})
    requires healthKey in between || healthKey in HealthKeys(desired.Keys - Kept(before.targets, desired).Keys)
    requires after.targets.Keys == desired.Keys
    ensures HasTarget(after.targets, healthKey)
  {
    if healthKey in between {
      KeptRecordHasTarget(before, desired, gone, healthKey);
      var key :| key in Kept(before.targets, desired) && key.healthKey == healthKey;
      assert key in after.targets;
    } else {
      var key :| key in desired.Keys - Kept(before.targets, desired).Keys && key.healthKey == healthKey;
      assert key in after.targets;
    }
  }

  lemma KeptRecordHasTarget(before: Registry, desired: Desired, gone: set<TargetKey>, healthKey: string)
    requires Recorded(before.targets, before.records)
    requires gone == before.targets.Keys - Kept(before.targets, desired).Keys
    requires healthKey in before.records && (healthKey !in HealthKeys(gone) || healthKey == "")
    requires DistinctHealthKeys(before.targets.Keys)
    ensures exists key :: key in Kept(before.targets, desired) && key.healthKey == healthKey
  {
    var key :| key in before.targets && key.healthKey == healthKey;
    assert key in before.targets.Keys && key !in gone;
  }

  /** Reconciling against the same targets a second time changes nothing. */
  lemma SecondReconcileIsIdle(first: Registry, desired: Desired, second: Registry, third: Registry)
    requires Reconciled(first, desired, second) && Reconciled(second, desired, third)
    ensures third.targets == second.targets && third.generation == second.generation && third.cancelled == second.cancelled
    ensures RecordsReconciled(first, desired, second) && RecordsReconciled(second, desired, third) ==> third.records == second.records
  {
    SettingsAreDesired(first, desired, second);
    AllKept(second, desired);
    StartingNone(second, desired, third);
    if RecordsReconciled(first, desired, second) && RecordsReconciled(second, desired, third) {
      IdleKeepsRecords(second, desired, third);
    }
  }

  lemma StartingNone(second: Registry, desired: Desired, third: Registry)
    requires Reconciled(second, desired, third) && Kept(second.targets, desired) == second.targets
    requires second.targets.Keys == desired.Keys
    ensures third.targets == second.targets && third.generation == second.generation && third.cancelled == second.cancelled
  {
    assert desired.Keys - second.targets.Keys == {};
    assert second.targets.Keys - second.targets.Keys == {};
    assert Generations(second.targets, {}) == {};
    KeptAfterStart(second.targets, second.generation, desired, {}, third);
  }

  lemma IdleKeepsRecords(second: Registry, desired: Desired, third: Registry)
    requires Recorded(second.targets, second.records) && RecordsReconciled(second, desired, third)
    requires Kept(second.targets, desired) == second.targets == third.targets
    ensures third.records == second.records
  {
    forall key | key in second.targets
      ensures key.healthKey in second.records && key.healthKey in third.records
      ensures second.records[key.healthKey] == third.records[key.healthKey]
    {
      assert key in Kept(second.targets, desired);
    }
    SameRecords(second.targets, second.records, third.records);
  }

  lemma AllKept(r: Registry, desired: Desired)
    requires r.targets.Keys == desired.Keys
    requires forall key :: key in desired ==> key in r.targets && r.targets[key].settings == desired[key].settings
    ensures Kept(r.targets, desired) == r.targets
    ensures desired.Keys - Kept(r.targets, desired).Keys == {} && r.targets.Keys - Kept(r.targets, desired).Keys == {}
  {
  }

  /** What the relation says of each desired target. */
  lemma ReconciledTargets(before: Registry, desired: Desired, after: Registry)
    requires Reconciled(before, desired, after)
    ensures after.targets.Keys == desired.Keys
    ensures forall key :: key in desired ==>
      && after.targets[key].settings == desired[key].settings
      && (key in before.targets && before.targets[key].settings == desired[key].settings ==>
            after.targets[key] == before.targets[key])
      && (!(key in before.targets && before.targets[key].settings == desired[key].settings) ==>
            after.targets[key].jitter == desired[key].jitter
            && before.generation < after.targets[key].generation <= after.generation)
  {
    var kept := Kept(before.targets, desired);
    SettingsAreDesired(before, desired, after);
    forall key | key in desired
      ensures key in before.targets && before.targets[key].settings == desired[key].settings ==>
        after.targets[key] == before.targets[key]
      ensures !(key in before.targets && before.targets[key].settings == desired[key].settings) ==>
        after.targets[key].jitter == desired[key].jitter
        && before.generation < after.targets[key].generation <= after.generation
    {
      if key in before.targets && before.targets[key].settings == desired[key].settings {
        assert key in kept;
      } else {
        assert key in desired.Keys - kept.Keys;
        assert IsNew(after.targets[key], desired[key], before.generation, after.generation);
      }
    }
  }

  lemma SettingsAreDesired(before: Registry, desired: Desired, after: Registry)
    requires Reconciled(before, desired, after)
    ensures forall key :: key in desired ==> key in after.targets && after.targets[key].settings == desired[key].settings
  {
    var kept := Kept(before.targets, desired);
    var started := desired.Keys - kept.Keys;
    KeptAfterStart(kept, before.generation, desired, started, after);
    forall key | key in desired ensures after.targets[key].settings == desired[key].settings {
      if key in started {
        assert IsNew(after.targets[key], desired[key], before.generation, after.generation);
      }
    }
  }

  lemma SameRecords(targets: map<TargetKey, Target>, a: Records, b: Records)
    requires Recorded(targets, a) && Recorded(targets, b)
    requires forall key :: key in targets ==> a[key.healthKey] == b[key.healthKey]
    ensures a == b
  {
    forall healthKey ensures healthKey in a <==> healthKey in b {
    }
    forall healthKey | healthKey in a ensures a[healthKey] == b[healthKey] {
      var key :| key in targets && key.healthKey == healthKey;
    }
  }
}
