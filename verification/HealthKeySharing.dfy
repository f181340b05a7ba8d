/**
  * What happens when two targets have one health key: the status record follows the one announced last. Routing follows
  * every running target's own checks exactly when this cannot happen.
  */
module HealthKeySharing {
  import HealthChecker
  import opened HealthModel
  import opened HealthProtocol
  import opened HealthReconcile
  import opened HealthRouting
  import opened HealthStore
  import opened HealthTargets

  /** Every reconciliation is asked for one of the demands. */
  ghost predicate Asks(actions: seq<Action>, demands: iset<Desired>) {
    forall i :: 0 <= i < |actions| && actions[i].Lock? ==> actions[i].desired in demands
  }

  /** In every run that asks for the demands only, whenever the lock is free, routing follows the verdicts. */
  ghost predicate AlwaysFollows(demands: iset<Desired>) {
    forall actions, healthKey :: Asks(actions, demands) && Run(actions).phase == Unlocked ==> Follows(Run(actions), healthKey)
  }

  // A run that hides a failure.

  lemma TwoSteps(s: System, first: Action, second: Action)
    ensures RunFrom(s, [first, second]) == Step(Step(s, first), second)
  {
    assert [first, second][..1] == [first] && [first][..0] == [];
    assert RunFrom(s, [first]) == Step(s, first);
  }

  /** The loop of a target that has only failed, `n` times, and published it. */
  function FailedLoop(key: TargetKey, settings: RuntimeSettings, n: nat): Loop {
    Loop(key, settings, HealthChecker.StateAfter(Fails(n), settings), Fails(n), Fails(n), false, false)
  }

  function Fails(n: nat): seq<bool> {
    seq(n, _ => false)
  }

  /** The status record of this key, if any, belongs to another generation and is not Unhealthy. */
  predicate Hidden(records: Records, healthKey: string, generation: nat) {
    healthKey == "" || (healthKey in records && records[healthKey].generation != generation
                        && records[healthKey].status != Unhealthy)
  }

  /** Generation 1 runs for `key`; `shares` says that its record is, or is going to be, another target's. */
  ghost predicate Begun(s: System, desired: Desired, key: TargetKey, waiting: set<TargetKey>) {
    && key in desired && key !in waiting && waiting <= desired.Keys && s.registry.generation >= 1
    && key in s.registry.targets && s.registry.targets[key].generation == 1
    && 1 in s.loops && s.loops[1] == FailedLoop(key, desired[key].settings, 0)
    && (forall h :: h in s.registry.records ==> s.registry.records[h].status == Unknown)
    && (Hidden(s.registry.records, key.healthKey, 1) || exists l :: l in waiting && l.healthKey == key.healthKey)
  }

  lemma AnnounceOne(s: System, desired: Desired, key: TargetKey, waiting: set<TargetKey>, l: TargetKey)
    requires s.phase == Starting(desired, waiting) && l in waiting && Begun(s, desired, key, waiting)
    ensures var next := Step(Step(s, Launch(l)), Announce);
      && Begun(next, desired, key, waiting - {l})
      && next.phase == if waiting - {l} == {} then Unlocked else Starting(desired, waiting - {l})
  {
    var next := Step(Step(s, Launch(l)), Announce);
    if l.healthKey == key.healthKey {
      assert Hidden(next.registry.records, key.healthKey, 1);
    } else if !Hidden(s.registry.records, key.healthKey, 1) {
      var m :| m in waiting && m.healthKey == key.healthKey;
      assert m in waiting - {l};
    }
  }

  /** The reconciler starts the rest of the targets and unlocks. */
  lemma {:induction false} StartRest(s: System, desired: Desired, key: TargetKey, waiting: set<TargetKey>)
    returns (actions: seq<Action>)
    requires s.phase == if waiting == {} then Unlocked else Starting(desired, waiting)
    requires Begun(s, desired, key, waiting)
    ensures Asks(actions, iset{}) && RunFrom(s, actions).phase == Unlocked
    ensures Begun(RunFrom(s, actions), desired, key, {})
    decreases |waiting|
  {
    if waiting == {} {
      actions := [];
    } else {
      var l :| l in waiting;
      AnnounceOne(s, desired, key, waiting, l);
      TwoSteps(s, Launch(l), Announce);
      var rest := StartRest(Step(Step(s, Launch(l)), Announce), desired, key, waiting - {l});
      actions := [Launch(l), Announce] + rest;
      RunsConcatenate(s, [Launch(l), Announce], rest);
    }
  }

  lemma Begin(desired: Desired, key: TargetKey) returns (actions: seq<Action>)
    requires key in desired
    requires key.healthKey == "" || exists l :: l in desired && l != key && l.healthKey == key.healthKey
    ensures Asks(actions, iset{desired}) && Run(actions).phase == Unlocked
    ensures Begun(Run(actions), desired, key, {})
  {
    var locked := Initial.(phase := Starting(desired, desired.Keys));
    assert Step(Initial, Lock(desired)) == locked by {
      assert desired.Keys - Initial.registry.targets.Keys == desired.Keys;
      assert key in desired.Keys;
    }
    var s := Step(Step(locked, Launch(key)), Announce);
    var waiting := desired.Keys - {key};
    assert s.loops[1] == FailedLoop(key, desired[key].settings, 0);
    assert Begun(s, desired, key, waiting);
    var rest := StartRest(s, desired, key, waiting);
    actions := [Lock(desired)] + ([Launch(key), Announce] + rest);
    assert RunFrom(Initial, [Lock(desired)]) == locked by {
      assert [Lock(desired)][..0] == [];
    }
    TwoSteps(locked, Launch(key), Announce);
    RunsConcatenate(locked, [Launch(key), Announce], rest);
    RunsConcatenate(Initial, [Lock(desired)], [Launch(key), Announce] + rest);
  }

  lemma FailOnce(s: System, key: TargetKey, settings: RuntimeSettings, n: nat)
    requires 1 in s.loops && s.loops[1] == FailedLoop(key, settings, n) && Hidden(s.registry.records, key.healthKey, 1)
    ensures RunFrom(s, [Check(1, false), Publish(1)]) == s.(loops := s.loops[1 := FailedLoop(key, settings, n + 1)])
  {
    TwoSteps(s, Check(1, false), Publish(1));
    HealthChecker.TickIsVerdict(Fails(n), settings, false);
    assert Fails(n) + [false] == Fails(n + 1);
  }

  /** The target fails `n` times; nobody else does anything. */
  lemma {:induction false} FailAgain(s: System, key: TargetKey, settings: RuntimeSettings, n: nat) returns (actions: seq<Action>)
    requires 1 in s.loops && s.loops[1] == FailedLoop(key, settings, 0) && Hidden(s.registry.records, key.healthKey, 1)
    ensures Asks(actions, iset{}) && RunFrom(s, actions) == s.(loops := s.loops[1 := FailedLoop(key, settings, n)])
  {
    if n == 0 {
      actions := [];
      assert s.loops[1 := FailedLoop(key, settings, 0)] == s.loops;
    } else {
      var most := FailAgain(s, key, settings, n - 1);
      FailOnce(RunFrom(s, most), key, settings, n - 1);
      actions := most + [Check(1, false), Publish(1)];
      RunsConcatenate(s, most, [Check(1, false), Publish(1)]);
    }
  }

  lemma {:induction false} FailsTrail(n: nat)
    ensures HealthChecker.TrailingRun(Fails(n), false) == n
  {
    if n > 0 {
      assert Fails(n)[..n - 1] == Fails(n - 1);
      FailsTrail(n - 1);
    }
  }

  /** Two targets with one health key, or one without a key: in some run that asks for nothing else, with the lock free,
      a running target judged Unhealthy is routable. */
  lemma FailureIsHidden(desired: Desired, key: TargetKey) returns (actions: seq<Action>)
    requires key in desired
    requires key.healthKey == "" || exists l :: l in desired && l != key && l.healthKey == key.healthKey
    ensures Asks(actions, iset{desired}) && Run(actions).phase == Unlocked
    ensures var s := Run(actions); IsDown(s.registry.targets, s.loops, key) && Routable(s.registry.records, key.healthKey)
  {
    var settings := desired[key].settings;
    var n := if settings.failureThreshold < 1 then 1 else settings.failureThreshold;
    var started := Begin(desired, key);
    var failing := FailAgain(Run(started), key, settings, n);
    actions := started + failing;
    RunsConcatenate(Initial, started, failing);
    FailsTrail(n);
    assert Fails(n)[n - 1] == false;
  }

  /** Routing follows the verdicts, in every run that asks for the demands, exactly when in each demand health keys tell
      the targets apart. */
  lemma RoutingFollowsIff(demands: iset<Desired>)
    ensures (forall d :: d in demands ==> DistinctHealthKeys(d.Keys)) <==> AlwaysFollows(demands)
  {
    if forall d :: d in demands ==> DistinctHealthKeys(d.Keys) {
      forall actions, healthKey | Asks(actions, demands) && Run(actions).phase == Unlocked ensures Follows(Run(actions), healthKey) {
        RoutingFollowsVerdicts(actions, healthKey);
      }
    } else {
      var d :| d in demands && !DistinctHealthKeys(d.Keys);
      var key :| key in d && (key.healthKey == "" || exists l :: l in d && l != key && l.healthKey == key.healthKey);
      var actions := FailureIsHidden(d, key);
      assert Asks(actions, demands);
      assert !Follows(Run(actions), key.healthKey);
    }
  }
}
