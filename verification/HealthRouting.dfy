/** Health checking when health keys tell targets apart: routing follows each running target's own checks. */
module HealthRouting {
  import HealthChecker
  import opened HealthModel
  import opened HealthProtocol
  import opened HealthReconcile
  import opened HealthStore
  import opened HealthTargets

  /** The targets that routing knows of: a target being retired counts until its record is deleted, a target being
      started counts once its record is set. With the lock free these are the manager's targets. */
  function Live(s: System): Targets {
    match s.phase
    case Deleting(_, _, key, target) => s.registry.targets[key := target]
    case Announcing(_, _, key) => s.registry.targets - {key}
    case _ => s.registry.targets
  }

  /** A target has its loop, and its record carries its generation. */
  predicate TargetInv(key: TargetKey, target: Target, loops: Loops, records: Records) {
    && target.generation in loops
    && loops[target.generation].key == key && loops[target.generation].settings == target.settings
    && key.healthKey in records && records[key.healthKey].generation == target.generation
  }

  ghost predicate TargetsInv(targets: Targets, loops: Loops, records: Records) {
    && DistinctHealthKeys(targets.Keys)
    && (forall key :: key in targets ==> TargetInv(key, targets[key], loops, records))
    && (forall healthKey :: healthKey in records ==> HasTarget(targets, healthKey))
  }

  ghost predicate RunsAs(targets: Targets, desired: Desired, keys: set<TargetKey>) {
    forall key :: key in keys ==> Keeps(targets, desired, key)
  }

  ghost predicate PhaseInv(s: System) {
    var targets := s.registry.targets;
    match s.phase
    case Unlocked => targets.Keys == s.last.Keys && RunsAs(targets, s.last, s.last.Keys)
    case Retiring(desired, unvisited) =>
      DistinctHealthKeys(desired.Keys) && unvisited <= targets.Keys && RunsAs(targets, desired, targets.Keys - unvisited)
    case Deleting(desired, unvisited, key, _) =>
      && DistinctHealthKeys(desired.Keys) && unvisited <= targets.Keys && RunsAs(targets, desired, targets.Keys - unvisited)
      && key !in targets
    case Starting(desired, waiting) =>
      && DistinctHealthKeys(desired.Keys) && waiting <= desired.Keys
      && targets.Keys == desired.Keys - waiting && RunsAs(targets, desired, targets.Keys)
    case Announcing(desired, waiting, key) =>
      && DistinctHealthKeys(desired.Keys) && waiting <= desired.Keys
      && targets.Keys == desired.Keys - waiting && RunsAs(targets, desired, targets.Keys)
      && key in targets && targets[key].generation == s.registry.generation
  }

  ghost predicate RoutingInv(s: System) {
    TargetsInv(Live(s), s.loops, s.registry.records) && PhaseInv(s)
  }

  // Phases.

  lemma FinishKeepsPhase(s: System)
    requires s.phase.Starting? && PhaseInv(s)
    ensures PhaseInv(Finish(s))
  {
  }

  lemma TurnKeepsPhase(s: System)
    requires s.phase.Retiring? && s.phase.unvisited == {} && PhaseInv(s)
    ensures PhaseInv(s.(phase := Starting(s.phase.desired, s.phase.desired.Keys - s.registry.targets.Keys)))
  {
    var targets := s.registry.targets;
    assert targets.Keys - {} == targets.Keys;
    forall key | key in targets ensures key in s.phase.desired {
      assert Keeps(targets, s.phase.desired, key);
    }
  }

  lemma AdvanceKeepsPhase(s: System)
    requires PhaseInv(s)
    ensures PhaseInv(Advance(s))
  {
    match s.phase
    case Retiring(desired, unvisited) =>
      if unvisited == {} {
        TurnKeepsPhase(s);
        FinishKeepsPhase(s.(phase := Starting(desired, desired.Keys - s.registry.targets.Keys)));
      }
    case Starting(_, _) => FinishKeepsPhase(s);
    case _ =>
  }

  lemma AdvanceKeepsLive(s: System)
    ensures Live(Advance(s)) == Live(s)
  {
  }

  lemma AdvanceKeepsRouting(s: System)
    requires RoutingInv(s)
    ensures RoutingInv(Advance(s))
  {
    AdvanceKeepsState(s);
    AdvanceKeepsLive(s);
    AdvanceKeepsPhase(s);
  }

  lemma LockKeepsRouting(s: System, desired: Desired)
    requires RoutingInv(s) && DistinctHealthKeys(desired.Keys)
    ensures RoutingInv(Step(s, Lock(desired)))
  {
    if s.phase == Unlocked {
      AdvanceKeepsRouting(s.(phase := Retiring(desired, s.registry.targets.Keys)));
    }
  }

  lemma ForgetKeepsPhase(s: System, key: TargetKey)
    requires PhaseInv(s) && s.phase.Retiring? && key in s.phase.unvisited && key in s.registry.targets
    ensures PhaseInv(s.(registry := Forget(s.registry, key),
      phase := Deleting(s.phase.desired, s.phase.unvisited - {key}, key, s.registry.targets[key])))
  {
    var targets, left, desired := s.registry.targets, s.registry.targets - {key}, s.phase.desired;
    assert left.Keys - (s.phase.unvisited - {key}) == targets.Keys - s.phase.unvisited;
    forall k | k in targets.Keys - s.phase.unvisited ensures Keeps(left, desired, k) {
      assert Keeps(targets, desired, k);
    }
  }

  lemma KeepKeepsPhase(s: System, key: TargetKey)
    requires PhaseInv(s) && s.phase.Retiring? && key in s.phase.unvisited && Keeps(s.registry.targets, s.phase.desired, key)
    ensures PhaseInv(s.(phase := Retiring(s.phase.desired, s.phase.unvisited - {key})))
  {
    var targets := s.registry.targets;
    assert targets.Keys - (s.phase.unvisited - {key}) == (targets.Keys - s.phase.unvisited) + {key};
  }

  lemma VisitKeepsRouting(s: System, key: TargetKey)
    requires RoutingInv(s)
    ensures RoutingInv(Step(s, Visit(key)))
  {
    if s.phase.Retiring? && key in s.phase.unvisited && key in s.registry.targets {
      var targets := s.registry.targets;
      if Keeps(targets, s.phase.desired, key) {
        KeepKeepsPhase(s, key);
        AdvanceKeepsRouting(s.(phase := Retiring(s.phase.desired, s.phase.unvisited - {key})));
      } else {
        ForgetKeepsPhase(s, key);
        assert (targets - {key})[key := targets[key]] == targets;
      }
    }
  }

  lemma DropKeepsTargets(targets: Targets, key: TargetKey, loops: Loops, records: Records)
    requires key in targets && TargetsInv(targets, loops, records)
    ensures TargetsInv(targets - {key}, loops, WithoutKey(records, key.healthKey))
  {
    var left, rest := targets - {key}, WithoutKey(records, key.healthKey);
    forall k | k in left ensures TargetInv(k, left[k], loops, rest) {
      assert TargetInv(k, targets[k], loops, records);
      assert k.healthKey != key.healthKey;
    }
    forall healthKey | healthKey in rest ensures HasTarget(left, healthKey) {
      var k :| k in targets && k.healthKey == healthKey;
      assert k in left;
    }
  }

  lemma DroppedKeepsPhase(s: System, records: Records)
    requires PhaseInv(s) && s.phase.Deleting?
    ensures PhaseInv(s.(registry := s.registry.(records := records), phase := Retiring(s.phase.desired, s.phase.unvisited)))
  {
  }

  lemma DeleteKeepsRouting(s: System)
    requires RoutingInv(s)
    ensures RoutingInv(Step(s, DeleteRecord))
  {
    if s.phase.Deleting? {
      var key, records := s.phase.key, WithoutKey(s.registry.records, s.phase.key.healthKey);
      assert Live(s) - {key} == s.registry.targets;
      DropKeepsTargets(Live(s), key, s.loops, s.registry.records);
      DroppedKeepsPhase(s, records);
      AdvanceKeepsRouting(s.(registry := s.registry.(records := records), phase := Retiring(s.phase.desired, s.phase.unvisited)));
    }
  }

  lemma AdmitKeepsPhase(s: System, key: TargetKey)
    requires PhaseInv(s) && s.phase.Starting? && key in s.phase.waiting && key in s.phase.desired
    ensures PhaseInv(s.(registry := Admit(s.registry, key, s.phase.desired[key]),
      phase := Announcing(s.phase.desired, s.phase.waiting - {key}, key)))
  {
    var targets, desired := s.registry.targets, s.phase.desired;
    var more := Admit(s.registry, key, desired[key]).targets;
    assert more.Keys == targets.Keys + {key};
    forall k | k in more ensures Keeps(more, desired, k) {
      assert k != key ==> Keeps(targets, desired, k);
    }
  }

  lemma LaunchKeepsRouting(s: System, key: TargetKey)
    requires RoutingInv(s)
    ensures RoutingInv(Step(s, Launch(key)))
  {
    if s.phase.Starting? && key in s.phase.waiting && key in s.phase.desired {
      AdmitKeepsPhase(s, key);
      assert Live(Step(s, Launch(key))) == s.registry.targets;
    }
  }

  lemma AddKeepsTargets(targets: Targets, key: TargetKey, target: Target, loops: Loops, loop: Loop, records: Records)
    requires TargetsInv(targets - {key}, loops, records) && target.generation !in loops
    requires key in targets && targets[key] == target && DistinctHealthKeys(targets.Keys)
    requires loop.key == key && loop.settings == target.settings
    ensures TargetsInv(targets, loops[target.generation := loop], WithUnknown(records, key.healthKey, target.generation))
  {
    var after, next := loops[target.generation := loop], WithUnknown(records, key.healthKey, target.generation);
    assert key in targets.Keys && key.healthKey != "";
    forall k | k in targets ensures TargetInv(k, targets[k], after, next) {
      if k != key {
        assert TargetInv(k, (targets - {key})[k], loops, records);
        assert {k, key} <= targets.Keys && k.healthKey != key.healthKey;
      }
    }
    forall healthKey | healthKey in next ensures HasTarget(targets, healthKey) {
      if healthKey == key.healthKey {
        assert key in targets;
      } else {
        var k :| k in targets - {key} && k.healthKey == healthKey;
        assert k in targets;
      }
    }
  }

  lemma AnnounceKeepsRouting(s: System)
    requires RoutingInv(s) && (s.phase.Announcing? ==> s.registry.generation !in s.loops)
    ensures RoutingInv(Step(s, Announce))
  {
    if s.phase.Announcing? && s.phase.key in s.phase.desired {
      var key, g, targets, desired := s.phase.key, s.registry.generation, s.registry.targets, s.phase.desired;
      var loop := Loop(key, desired[key].settings, HealthChecker.Fresh, [], [], false, false);
      var next := System(s.registry.(records := WithUnknown(s.registry.records, key.healthKey, g)), s.loops[g := loop],
        Starting(desired, s.phase.waiting), s.last);
      assert Keeps(targets, desired, key);
      assert DistinctHealthKeys(targets.Keys) by {
        assert targets.Keys <= desired.Keys;
      }
      AddKeepsTargets(targets, key, targets[key], s.loops, loop, s.registry.records);
      AdvanceKeepsRouting(next);
    }
  }

  /** Steps of the loops: neither loops nor records come, go, or change hands. */
  lemma LoopStepKeepsTargets(targets: Targets, loops: Loops, next: Loops, records: Records, after: Records)
    requires TargetsInv(targets, loops, records)
    requires next.Keys == loops.Keys
    requires forall g :: g in loops ==> next[g].key == loops[g].key && next[g].settings == loops[g].settings
    requires after.Keys == records.Keys
    requires forall h :: h in records ==> after[h].generation == records[h].generation
    ensures TargetsInv(targets, next, after)
  {
    forall key | key in targets ensures TargetInv(key, targets[key], next, after) {
      assert TargetInv(key, targets[key], loops, records);
    }
  }

  /** Phase, targets, and who loops and records belong to are the same. */
  ghost predicate SameShape(s: System, next: System) {
    && next.phase == s.phase && next.last == s.last
    && next.registry.targets == s.registry.targets && next.registry.generation == s.registry.generation
    && next.loops.Keys == s.loops.Keys
    && (forall g :: g in s.loops ==> next.loops[g].key == s.loops[g].key && next.loops[g].settings == s.loops[g].settings)
    && next.registry.records.Keys == s.registry.records.Keys
    && (forall h :: h in s.registry.records ==>
          next.registry.records[h].generation == s.registry.records[h].generation)
  }

  lemma CheckKeepsShape(s: System, g: nat, ok: bool)
    ensures SameShape(s, Step(s, Check(g, ok)))
  {
  }

  lemma PublishKeepsShape(s: System, g: nat)
    ensures SameShape(s, Step(s, Publish(g)))
  {
  }

  lemma StopKeepsShape(s: System, g: nat)
    ensures SameShape(s, Step(s, Stop(g)))
  {
  }

  lemma SameShapeKeepsRouting(s: System, next: System)
    requires RoutingInv(s) && SameShape(s, next)
    ensures RoutingInv(next)
  {
    LoopStepKeepsTargets(Live(s), s.loops, next.loops, s.registry.records, next.registry.records);
    assert Live(next) == Live(s);
    SamePhase(s, next);
  }

  lemma SamePhase(s: System, next: System)
    requires PhaseInv(s) && next.phase == s.phase && next.last == s.last
    requires next.registry.targets == s.registry.targets && next.registry.generation == s.registry.generation
    ensures PhaseInv(next)
  {
  }

  lemma StepKeepsRouting(s: System, action: Action)
    requires RoutingInv(s) && Inv(s) && (action.Lock? ==> DistinctHealthKeys(action.desired.Keys))
    ensures RoutingInv(Step(s, action))
  {
    match action
    case Lock(desired) => LockKeepsRouting(s, desired);
    case Visit(key) => VisitKeepsRouting(s, key);
    case DeleteRecord => DeleteKeepsRouting(s);
    case Launch(key) => LaunchKeepsRouting(s, key);
    case Announce => AnnounceKeepsRouting(s);
    case Check(g, ok) =>
      CheckKeepsShape(s, g, ok);
      SameShapeKeepsRouting(s, Step(s, action));
    case Publish(g) =>
      PublishKeepsShape(s, g);
      SameShapeKeepsRouting(s, Step(s, action));
    case Stop(g) =>
      StopKeepsShape(s, g);
      SameShapeKeepsRouting(s, Step(s, action));
  }

  /** Every reconciliation is asked for targets that their health keys tell apart. */
  ghost predicate SeparateDemands(actions: seq<Action>) {
    forall i :: 0 <= i < |actions| && actions[i].Lock? ==> DistinctHealthKeys(actions[i].desired.Keys)
  }

  lemma {:induction false} RunKeepsRouting(actions: seq<Action>)
    requires SeparateDemands(actions)
    ensures RoutingInv(Run(actions))
  {
    if actions != [] {
      var before := actions[..|actions| - 1];
      RunKeepsRouting(before);
      RunKeepsInv(before);
      StepKeepsRouting(Run(before), actions[|actions| - 1]);
    }
  }

  // What routing sees.

  /** A running target's loop, by its published checks, is judged Unhealthy. */
  predicate IsDown(targets: Targets, loops: Loops, key: TargetKey) {
    key in targets && targets[key].generation in loops && LoopVerdict(loops[targets[key].generation]) == Unhealthy
  }

  ghost predicate JudgedUnhealthy(targets: Targets, loops: Loops, healthKey: string) {
    exists key :: key in targets && key.healthKey == healthKey && IsDown(targets, loops, key)
  }

  /** Routing keeps a health key out exactly when a running target with that key is judged Unhealthy. */
  ghost predicate Follows(s: System, healthKey: string) {
    !Routable(s.registry.records, healthKey) <==> JudgedUnhealthy(s.registry.targets, s.loops, healthKey)
  }

  lemma RoutingFollowsTargets(s: System, healthKey: string)
    requires Inv(s) && TargetsInv(Live(s), s.loops, s.registry.records)
    ensures !Routable(s.registry.records, healthKey) <==> JudgedUnhealthy(Live(s), s.loops, healthKey)
  {
    var targets, records := Live(s), s.registry.records;
    if !Routable(records, healthKey) {
      var key :| key in targets && key.healthKey == healthKey;
      assert TargetInv(key, targets[key], s.loops, records);
      assert RecordInv(healthKey, records[healthKey], s.loops);
      assert IsDown(targets, s.loops, key);
    }
    if JudgedUnhealthy(targets, s.loops, healthKey) {
      var key :| key in targets && key.healthKey == healthKey && IsDown(targets, s.loops, key);
      assert TargetInv(key, targets[key], s.loops, records);
      assert RecordInv(healthKey, records[healthKey], s.loops);
      assert key in targets.Keys && key.healthKey != "";
    }
  }

  /** In every interleaving: whenever the manager's lock is free, the running targets are those of the last snapshot
      reconciled, and a health key is kept out of routing exactly when it has a running target whose own
      generation's published checks amount to Unhealthy. */
  lemma RoutingFollowsVerdicts(actions: seq<Action>, healthKey: string)
    requires SeparateDemands(actions) && Run(actions).phase == Unlocked
    ensures Run(actions).registry.targets.Keys == Run(actions).last.Keys && Follows(Run(actions), healthKey)
  {
    RunKeepsRouting(actions);
    RunKeepsInv(actions);
    RoutingFollowsTargets(Run(actions), healthKey);
  }

  /** Even while a reconciliation is half way, routing follows the targets live at that moment. */
  lemma RoutingFollowsVerdictsMidway(actions: seq<Action>, healthKey: string)
    requires SeparateDemands(actions)
    ensures var s := Run(actions);
      !Routable(s.registry.records, healthKey) <==> JudgedUnhealthy(Live(s), s.loops, healthKey)
  {
    RunKeepsRouting(actions);
    RunKeepsInv(actions);
    RoutingFollowsTargets(Run(actions), healthKey);
  }

  /** A publication of a loop that no live target owns changes no record. */
  lemma LatePublicationIsIgnored(s: System, g: nat)
    requires RoutingInv(s) && forall key :: key in Live(s) ==> Live(s)[key].generation != g
    ensures Step(s, Publish(g)).registry == s.registry
  {
    if g in s.loops && s.loops[g].pending && s.loops[g].key.healthKey in s.registry.records {
      var key :| key in Live(s) && key.healthKey == s.loops[g].key.healthKey;
      assert TargetInv(key, Live(s)[key], s.loops, s.registry.records);
    }
  }

  /** A publication of a live target's own loop brings its record, and no other, up to date with all its outcomes. */
  lemma OwnPublicationCounts(s: System, g: nat, key: TargetKey)
    requires RoutingInv(s) && Inv(s) && key in Live(s) && Live(s)[key].generation == g && g in s.loops && s.loops[g].pending
    ensures var next, loop := Step(s, Publish(g)), s.loops[g];
      && key.healthKey in s.registry.records && next.loops[g].published == loop.outcomes
      && next.registry.records ==
         s.registry.records[key.healthKey := ResultOf(HealthChecker.StateAfter(loop.outcomes, loop.settings), g)]
  {
    assert TargetInv(key, Live(s)[key], s.loops, s.registry.records);
    assert key in Live(s).Keys;
    assert LoopInv(s.loops[g]);
  }
}
