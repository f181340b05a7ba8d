/**
  * One reconciliation from taking the manager's lock to giving it back, with check loops, publications and late
  * publications going on in between (`internal/health/manager.go`).
  */
module HealthSessions {
  import HealthChecker
  import opened HealthModel
  import opened HealthProtocol
  import opened HealthReconcile
  import opened HealthRouting
  import opened HealthStore
  import opened HealthTargets

  // Targets and their loops, in every run.

  /** The target's loop is there, works for it, and has not been told to stop. */
  predicate Served(s: System, key: TargetKey, target: Target) {
    && target.generation !in s.registry.cancelled
    && target.generation in s.loops && !s.loops[target.generation].stopped
    && s.loops[target.generation].key == key && s.loops[target.generation].settings == target.settings
  }

  ghost predicate ServiceInv(s: System) {
    && Numbered(s.registry.targets, s.registry.generation)
    && (forall g :: g in s.registry.cancelled ==> g <= s.registry.generation)
    && (forall g :: g in s.loops && s.loops[g].stopped ==> g in s.registry.cancelled)
    && (forall key :: key in s.registry.targets ==>
          if s.phase.Announcing? && s.phase.key == key
          then s.registry.targets[key].generation == s.registry.generation && s.registry.generation !in s.registry.cancelled
          else Served(s, key, s.registry.targets[key]))
    && (s.phase.Announcing? ==> s.phase.key in s.registry.targets)
    && (s.phase.Announcing? && s.phase.key in s.phase.desired ==>
          s.registry.targets[s.phase.key].settings == s.phase.desired[s.phase.key].settings)
  }

  lemma AdvanceKeepsService(s: System)
    requires ServiceInv(s)
    ensures ServiceInv(Advance(s))
  {
    AdvanceKeepsState(s);
  }

  lemma VisitKeepsService(s: System, key: TargetKey)
    requires ServiceInv(s)
    ensures ServiceInv(Step(s, Visit(key)))
  {
    if s.phase.Retiring? {
      AdvanceKeepsService(s.(phase := Retiring(s.phase.desired, s.phase.unvisited - {key})));
    }
  }

  lemma LaunchKeepsService(s: System, key: TargetKey)
    requires ServiceInv(s)
    ensures ServiceInv(Step(s, Launch(key)))
  {
  }

  lemma AnnounceKeepsService(s: System)
    requires ServiceInv(s) && Inv(s)
    ensures ServiceInv(Step(s, Announce))
  {
    if s.phase.Announcing? && s.phase.key in s.phase.desired {
      var key, g := s.phase.key, s.registry.generation;
      var loop := Loop(key, s.phase.desired[key].settings, HealthChecker.Fresh, [], [], false, false);
      AdvanceKeepsService(System(s.registry.(records := WithUnknown(s.registry.records, key.healthKey, g)), s.loops[g := loop],
        Starting(s.phase.desired, s.phase.waiting), s.last));
    }
  }

  lemma StepKeepsService(s: System, action: Action)
    requires ServiceInv(s) && Inv(s)
    ensures ServiceInv(Step(s, action))
  {
    match action
    case Lock(desired) =>
      if s.phase == Unlocked {
        AdvanceKeepsService(s.(phase := Retiring(desired, s.registry.targets.Keys)));
      }
    case Visit(key) => VisitKeepsService(s, key);
    case DeleteRecord =>
      if s.phase.Deleting? {
        AdvanceKeepsService(s.(registry := s.registry.(records := WithoutKey(s.registry.records, s.phase.key.healthKey)),
          phase := Retiring(s.phase.desired, s.phase.unvisited)));
      }
    case Launch(key) => LaunchKeepsService(s, key);
    case Announce => AnnounceKeepsService(s);
    case _ => LoopStepKeepsService(s, action);
  }

  lemma LoopStepKeepsService(s: System, action: Action)
    requires ServiceInv(s) && (action.Check? || action.Publish? || action.Stop?)
    ensures ServiceInv(Step(s, action))
  {
    match action
    case Check(g, ok) => CheckKeepsShape(s, g, ok);
    case Publish(g) => PublishKeepsShape(s, g);
    case Stop(g) => StopKeepsShape(s, g);
    LoopStepStops(s, action);
    SameShapeKeepsService(s, Step(s, action));
  }

  lemma LoopStepStops(s: System, action: Action)
    requires action.Check? || action.Publish? || action.Stop?
    ensures Step(s, action).registry.cancelled == s.registry.cancelled
    ensures forall g :: g in s.loops && g in Step(s, action).loops && Step(s, action).loops[g].stopped ==>
      s.loops[g].stopped || g in s.registry.cancelled
  {
  }

  lemma SameShapeKeepsService(s: System, next: System)
    requires ServiceInv(s) && SameShape(s, next) && next.registry.cancelled == s.registry.cancelled
    requires forall g :: g in s.loops && g in next.loops && next.loops[g].stopped ==>
      s.loops[g].stopped || g in s.registry.cancelled
    ensures ServiceInv(next)
  {
    forall key | key in next.registry.targets && !(next.phase.Announcing? && next.phase.key == key)
      ensures Served(next, key, next.registry.targets[key])
    {
      assert Served(s, key, s.registry.targets[key]);
    }
  }

  lemma {:induction false} RunKeepsService(s: System, actions: seq<Action>)
    requires ServiceInv(s) && Inv(s)
    ensures ServiceInv(RunFrom(s, actions)) && Inv(RunFrom(s, actions))
  {
    if actions != [] {
      RunKeepsService(s, actions[..|actions| - 1]);
      StepKeepsService(RunFrom(s, actions[..|actions| - 1]), actions[|actions| - 1]);
      StepKeepsInv(RunFrom(s, actions[..|actions| - 1]), actions[|actions| - 1]);
    }
  }

  /** With the lock free, every running target has a loop of its own that was not told to stop. */
  lemma EveryTargetIsServed(actions: seq<Action>, key: TargetKey)
    requires Run(actions).phase == Unlocked && key in Run(actions).registry.targets
    ensures Served(Run(actions), key, Run(actions).registry.targets[key])
  {
    RunKeepsService(Initial, actions);
  }

  // One reconciliation.

  /** `rest` runs from the lock for `desired`, taken after `before`, at most until the lock is free again. */
  ghost predicate WithinSession(before: seq<Action>, desired: Desired, rest: seq<Action>) {
    && Run(before).phase == Unlocked
    && forall i :: 0 <= i < |rest| ==> RunFrom(Step(Run(before), Lock(desired)), rest[..i]).phase != Unlocked
  }

  function Session(before: seq<Action>, desired: Desired, rest: seq<Action>): System {
    RunFrom(Step(Run(before), Lock(desired)), rest)
  }

  function Outdated(r: Registry, desired: Desired, unvisited: set<TargetKey>): set<TargetKey> {
    set key | key in r.targets && key !in unvisited && !Keeps(r.targets, desired, key)
  }

  ghost predicate VisitedTargets(before: Registry, desired: Desired, unvisited: set<TargetKey>, r: Registry) {
    var gone := Outdated(before, desired, unvisited);
    && unvisited <= before.targets.Keys
    && r.targets == before.targets - gone && r.generation == before.generation
    && r.cancelled == before.cancelled + Generations(before.targets, gone)
  }

  ghost predicate StartedRest(before: Registry, desired: Desired, waiting: set<TargetKey>, r: Registry) {
    var kept := Kept(before.targets, desired);
    && waiting <= desired.Keys - kept.Keys
    && StartedTargets(kept, before.generation, desired, desired.Keys - kept.Keys - waiting, r.targets, r.generation)
    && r.cancelled == before.cancelled + Generations(before.targets, before.targets.Keys - kept.Keys)
  }

  /** How far the reconciliation that began on `before` has come. */
  ghost predicate SessionInv(before: Registry, desired: Desired, s: System) {
    match s.phase
    case Retiring(d, unvisited) => d == desired && VisitedTargets(before, desired, unvisited, s.registry)
    case Deleting(d, unvisited, _, _) => d == desired && VisitedTargets(before, desired, unvisited, s.registry)
    case Starting(d, waiting) => d == desired && StartedRest(before, desired, waiting, s.registry)
    case Announcing(d, waiting, key) =>
      d == desired && StartedRest(before, desired, waiting, s.registry) && key in desired && key !in Kept(before.targets, desired)
    case Unlocked => s.last == desired && Reconciled(before, desired, s.registry)
  }

  lemma KeysAfterAll(kept: Targets, generation: nat, desired: Desired, after: Targets, counter: nat)
    requires kept.Keys <= desired.Keys
    requires StartedTargets(kept, generation, desired, desired.Keys - kept.Keys, after, counter)
    ensures after.Keys == desired.Keys
  {
    assert kept.Keys + (desired.Keys - kept.Keys) == desired.Keys;
  }

  lemma AllStarted(before: Registry, desired: Desired, r: Registry)
    requires StartedRest(before, desired, {}, r)
    ensures Reconciled(before, desired, r)
  {
    var kept := Kept(before.targets, desired);
    assert (desired.Keys - kept.Keys) - {} == desired.Keys - kept.Keys;
    KeysAfterAll(kept, before.generation, desired, r.targets, r.generation);
  }

  lemma FinishKeepsSession(before: Registry, desired: Desired, s: System)
    requires s.phase.Starting? && SessionInv(before, desired, s)
    ensures SessionInv(before, desired, Finish(s))
  {
    if s.phase.waiting == {} {
      AllStarted(before, desired, s.registry);
    }
  }

  lemma TurnKeepsSession(before: Registry, desired: Desired, r: Registry)
    requires VisitedTargets(before, desired, {}, r)
    ensures StartedRest(before, desired, desired.Keys - r.targets.Keys, r)
  {
    var kept := Kept(before.targets, desired);
    assert Outdated(before, desired, {}) == before.targets.Keys - kept.Keys;
    assert r.targets == kept;
    assert desired.Keys - kept.Keys - (desired.Keys - kept.Keys) == {};
  }

  lemma AdvanceKeepsSession(before: Registry, desired: Desired, s: System)
    requires SessionInv(before, desired, s)
    ensures SessionInv(before, desired, Advance(s))
  {
    match s.phase
    case Retiring(_, unvisited) =>
      if unvisited == {} {
        TurnKeepsSession(before, desired, s.registry);
        FinishKeepsSession(before, desired, s.(phase := Starting(desired, desired.Keys - s.registry.targets.Keys)));
      }
    case Starting(_, _) => FinishKeepsSession(before, desired, s);
    case _ =>
  }

  lemma LockBeginsSession(s: System, desired: Desired)
    requires s.phase == Unlocked
    ensures SessionInv(s.registry, desired, Step(s, Lock(desired)))
  {
    assert Outdated(s.registry, desired, s.registry.targets.Keys) == {};
    AdvanceKeepsSession(s.registry, desired, s.(phase := Retiring(desired, s.registry.targets.Keys)));
  }

  lemma VisitedOneMore(before: Registry, desired: Desired, unvisited: set<TargetKey>, key: TargetKey, r: Registry)
    requires VisitedTargets(before, desired, unvisited, r) && key in unvisited && key in r.targets
    ensures VisitedTargets(before, desired, unvisited - {key}, if Keeps(r.targets, desired, key) then r else Forget(r, key))
  {
    var gone, more := Outdated(before, desired, unvisited), Outdated(before, desired, unvisited - {key});
    if Keeps(r.targets, desired, key) {
      assert more == gone;
    } else {
      assert more == gone + {key};
      assert Generations(before.targets, more) == Generations(before.targets, gone) + {before.targets[key].generation};
    }
  }

  lemma VisitKeepsSession(before: Registry, desired: Desired, s: System, key: TargetKey)
    requires SessionInv(before, desired, s) && s.phase.Retiring?
    ensures SessionInv(before, desired, Step(s, Visit(key)))
  {
    if key in s.phase.unvisited && key in s.registry.targets {
      VisitedOneMore(before, desired, s.phase.unvisited, key, s.registry);
      if Keeps(s.registry.targets, desired, key) {
        AdvanceKeepsSession(before, desired, s.(phase := Retiring(desired, s.phase.unvisited - {key})));
      }
    }
  }

  lemma StartedOneMore(before: Registry, desired: Desired, waiting: set<TargetKey>, key: TargetKey, r: Registry)
    requires StartedRest(before, desired, waiting, r) && key in waiting
    ensures key in desired && StartedRest(before, desired, waiting - {key}, Admit(r, key, desired[key]))
  {
    var kept := Kept(before.targets, desired);
    var started := desired.Keys - kept.Keys - waiting;
    assert desired.Keys - kept.Keys - (waiting - {key}) == started + {key};
    StartTargetStep(before.(targets := kept), desired, started, key, r);
  }

  lemma LaunchKeepsSession(before: Registry, desired: Desired, s: System, key: TargetKey)
    requires SessionInv(before, desired, s) && s.phase.Starting?
    ensures SessionInv(before, desired, Step(s, Launch(key)))
  {
    if key in s.phase.waiting {
      StartedOneMore(before, desired, s.phase.waiting, key, s.registry);
    }
  }

  lemma AnnounceKeepsSession(before: Registry, desired: Desired, s: System)
    requires SessionInv(before, desired, s) && s.phase.Announcing?
    ensures SessionInv(before, desired, Step(s, Announce))
  {
    if s.phase.key in desired {
      var key, g := s.phase.key, s.registry.generation;
      var loop := Loop(key, desired[key].settings, HealthChecker.Fresh, [], [], false, false);
      AdvanceKeepsSession(before, desired,
        System(s.registry.(records := WithUnknown(s.registry.records, key.healthKey, g)), s.loops[g := loop],
          Starting(desired, s.phase.waiting), s.last));
    }
  }

  lemma SessionStep(before: Registry, desired: Desired, s: System, action: Action)
    requires SessionInv(before, desired, s) && s.phase != Unlocked
    ensures SessionInv(before, desired, Step(s, action))
  {
    match action
    case Visit(key) =>
      if s.phase.Retiring? {
        VisitKeepsSession(before, desired, s, key);
      }
    case DeleteRecord =>
      if s.phase.Deleting? {
        AdvanceKeepsSession(before, desired,
          s.(registry := s.registry.(records := WithoutKey(s.registry.records, s.phase.key.healthKey)),
             phase := Retiring(desired, s.phase.unvisited)));
      }
    case Launch(key) =>
      if s.phase.Starting? {
        LaunchKeepsSession(before, desired, s, key);
      }
    case Announce =>
      if s.phase.Announcing? {
        AnnounceKeepsSession(before, desired, s);
      }
    case _ =>
  }

  lemma {:induction false} SessionRun(before: seq<Action>, desired: Desired, rest: seq<Action>)
    requires WithinSession(before, desired, rest)
    ensures SessionInv(Run(before).registry, desired, Session(before, desired, rest))
  {
    if rest == [] {
      LockBeginsSession(Run(before), desired);
    } else {
      var most := rest[..|rest| - 1];
      assert forall i :: 0 <= i < |most| ==> most[..i] == rest[..i];
      SessionRun(before, desired, most);
      SessionStep(Run(before).registry, desired, Session(before, desired, most), rest[|rest| - 1]);
    }
  }

  /** In every interleaving: from the lock for `desired` to the next free lock, reconciling makes exactly what it makes
      of the registry alone. The desired targets run, with the desired settings; those that ran with these settings
      before are the same, the others are new generations; all other loops, and only they, are told to stop. */
  lemma ReconciliationIsWhole(before: seq<Action>, desired: Desired, rest: seq<Action>)
    requires WithinSession(before, desired, rest) && Session(before, desired, rest).phase == Unlocked
    ensures var was, s := Run(before).registry, Session(before, desired, rest);
      && s.last == desired && Reconciled(was, desired, s.registry)
      && s.registry.targets.Keys == desired.Keys
      && forall key :: key in desired ==>
        && s.registry.targets[key].settings == desired[key].settings
        && (key in was.targets && was.targets[key].settings == desired[key].settings ==>
              s.registry.targets[key] == was.targets[key])
        && (!(key in was.targets && was.targets[key].settings == desired[key].settings) ==>
              s.registry.targets[key].jitter == desired[key].jitter
              && was.generation < s.registry.targets[key].generation <= s.registry.generation)
  {
    SessionRun(before, desired, rest);
    ReconciledTargets(Run(before).registry, desired, Session(before, desired, rest).registry);
  }

  lemma KeptInSession(before: Registry, desired: Desired, s: System, key: TargetKey)
    requires SessionInv(before, desired, s)
    requires key in before.targets && key in desired && before.targets[key].settings == desired[key].settings
    ensures key in s.registry.targets && s.registry.targets[key] == before.targets[key]
    ensures s.phase.Announcing? ==> s.phase.key != key
  {
    var kept := Kept(before.targets, desired);
    assert key in kept && kept[key] == before.targets[key];
    if s.phase.Unlocked? {
      ReconciledTargets(before, desired, s.registry);
    }
  }

  lemma SessionKeepsInvs(before: seq<Action>, desired: Desired, rest: seq<Action>)
    ensures Inv(Run(before)) && Inv(Session(before, desired, rest)) && ServiceInv(Session(before, desired, rest))
  {
    RunKeepsService(Initial, before);
    StepKeepsService(Run(before), Lock(desired));
    StepKeepsInv(Run(before), Lock(desired));
    RunKeepsService(Step(Run(before), Lock(desired)), rest);
  }

  /** At every moment of it, a target that is to stay as it is has kept its generation, and its loop runs on. */
  lemma UnchangedTargetsStay(before: seq<Action>, desired: Desired, rest: seq<Action>, key: TargetKey)
    requires WithinSession(before, desired, rest)
    requires key in Run(before).registry.targets && key in desired
    requires Run(before).registry.targets[key].settings == desired[key].settings
    ensures var target, s := Run(before).registry.targets[key], Session(before, desired, rest);
      key in s.registry.targets && s.registry.targets[key] == target && Served(s, key, target)
  {
    SessionRun(before, desired, rest);
    KeptInSession(Run(before).registry, desired, Session(before, desired, rest), key);
    SessionKeepsInvs(before, desired, rest);
  }

  /** A loop's published checks change only when it publishes. */
  lemma {:induction false} OnlyOwnPublications(s: System, actions: seq<Action>, g: nat)
    requires Inv(s) && g in s.loops && forall i :: 0 <= i < |actions| ==> actions[i] != Publish(g)
    ensures var next := RunFrom(s, actions);
      && Inv(next) && g in next.loops
      && next.loops[g].published == s.loops[g].published && next.loops[g].settings == s.loops[g].settings
  {
    if actions != [] {
      var most, last := actions[..|actions| - 1], actions[|actions| - 1];
      OnlyOwnPublications(s, most, g);
      StepKeepsInv(RunFrom(s, most), last);
      OtherStepsKeepPublished(RunFrom(s, most), last, g);
    }
  }

  lemma OtherStepsKeepPublished(s: System, action: Action, g: nat)
    requires Inv(s) && g in s.loops && action != Publish(g)
    ensures var next := Step(s, action);
      g in next.loops && next.loops[g].published == s.loops[g].published && next.loops[g].settings == s.loops[g].settings
  {
    match action
    case Check(h, ok) => CheckKeepsShape(s, h, ok);
    case Publish(h) => PublishKeepsShape(s, h);
    case Stop(h) => StopKeepsShape(s, h);
    case Announce => AnnounceKeepsLoops(s, g);
    case _ => ReconcilerKeepsLoops(s, action);
  }

  lemma AnnounceKeepsLoops(s: System, g: nat)
    requires Inv(s) && g in s.loops
    ensures g in Step(s, Announce).loops && Step(s, Announce).loops[g] == s.loops[g]
  {
  }

  lemma ReconcilerKeepsLoops(s: System, action: Action)
    requires action.Lock? || action.Visit? || action.DeleteRecord? || action.Launch?
    ensures Step(s, action).loops == s.loops
  {
  }

  lemma SilentSession(before: seq<Action>, desired: Desired, rest: seq<Action>, g: nat)
    requires g in Run(before).loops && Publish(g) !in rest
    ensures var was, s := Run(before), Session(before, desired, rest);
      g in s.loops && s.loops[g].published == was.loops[g].published && s.loops[g].settings == was.loops[g].settings
  {
    RunKeepsInv(before);
    StepKeepsInv(Run(before), Lock(desired));
    OtherStepsKeepPublished(Run(before), Lock(desired), g);
    OnlyOwnPublications(Step(Run(before), Lock(desired)), rest, g);
  }

  lemma SessionIsRun(before: seq<Action>, desired: Desired, rest: seq<Action>)
    ensures Session(before, desired, rest) == Run(before + ([Lock(desired)] + rest))
  {
    RunsConcatenate(Initial, before, [Lock(desired)] + rest);
    RunsConcatenate(Run(before), [Lock(desired)], rest);
    assert [Lock(desired)][..0] == [];
    assert RunFrom(Run(before), [Lock(desired)]) == Step(Run(before), Lock(desired));
  }

  /** The record of a live target is what its loop last published. */
  lemma RecordOfLive(s: System, key: TargetKey)
    requires Inv(s) && RoutingInv(s) && key in Live(s)
    ensures var g := Live(s)[key].generation;
      && key.healthKey in s.registry.records && g in s.loops
      && s.registry.records[key.healthKey] == PublishedRecord(s.loops[g], g)
  {
    assert TargetInv(key, Live(s)[key], s.loops, s.registry.records);
    assert RecordInv(key.healthKey, s.registry.records[key.healthKey], s.loops);
  }

  lemma SessionKeepsRouting(before: seq<Action>, desired: Desired, rest: seq<Action>)
    requires SeparateDemands(before + ([Lock(desired)] + rest))
    ensures RoutingInv(Run(before)) && RoutingInv(Session(before, desired, rest))
  {
    assert SeparateDemands(before) by {
      assert forall i :: 0 <= i < |before| ==> (before + ([Lock(desired)] + rest))[i] == before[i];
    }
    RunKeepsRouting(before);
    SessionIsRun(before, desired, rest);
    RunKeepsRouting(before + ([Lock(desired)] + rest));
  }

  lemma StaysLive(before: Registry, desired: Desired, s: System, key: TargetKey)
    requires SessionInv(before, desired, s) && PhaseInv(s)
    requires key in before.targets && key in desired && before.targets[key].settings == desired[key].settings
    ensures key in Live(s) && Live(s)[key] == before.targets[key]
  {
    KeptInSession(before, desired, s, key);
  }

  /** And, where health keys tell targets apart, its record stays as it was until its own loop publishes. */
  lemma UnchangedTargetsKeepRecords(before: seq<Action>, desired: Desired, rest: seq<Action>, key: TargetKey)
    requires WithinSession(before, desired, rest) && SeparateDemands(before + ([Lock(desired)] + rest))
    requires key in Run(before).registry.targets && key in desired
    requires Run(before).registry.targets[key].settings == desired[key].settings
    ensures var g, was, s := Run(before).registry.targets[key].generation, Run(before), Session(before, desired, rest);
      && key.healthKey in was.registry.records && key.healthKey in s.registry.records && g in s.loops
      && s.registry.records[key.healthKey] == PublishedRecord(s.loops[g], g)
      && (Publish(g) !in rest ==> s.registry.records[key.healthKey] == was.registry.records[key.healthKey])
  {
    var was, s := Run(before), Session(before, desired, rest);
    var g := was.registry.targets[key].generation;
    SessionKeepsInvs(before, desired, rest);
    SessionKeepsRouting(before, desired, rest);
    SessionRun(before, desired, rest);
    StaysLive(was.registry, desired, s, key);
    RecordOfLive(was, key);
    RecordOfLive(s, key);
    if Publish(g) !in rest {
      SilentSession(before, desired, rest, g);
    }
  }

  // A reconciliation never gets stuck.

  /** A phase with a set of keys still has some left. */
  predicate Busy(s: System) {
    (s.phase.Retiring? ==> s.phase.unvisited != {}) && (s.phase.Starting? ==> s.phase.waiting != {})
  }

  lemma AdvanceIsBusy(s: System)
    ensures Busy(Advance(s))
  {
  }

  lemma StepKeepsBusy(s: System, action: Action)
    requires Busy(s)
    ensures Busy(Step(s, action))
  {
    match action
    case Lock(desired) => AdvanceIsBusy(s.(phase := Retiring(desired, s.registry.targets.Keys)));
    case Visit(key) =>
      if s.phase.Retiring? {
        AdvanceIsBusy(s.(phase := Retiring(s.phase.desired, s.phase.unvisited - {key})));
      }
    case DeleteRecord =>
      if s.phase.Deleting? {
        AdvanceIsBusy(s.(registry := s.registry.(records := WithoutKey(s.registry.records, s.phase.key.healthKey)),
          phase := Retiring(s.phase.desired, s.phase.unvisited)));
      }
    case _ =>
  }

  lemma {:induction false} RunIsBusy(s: System, actions: seq<Action>)
    requires Busy(s)
    ensures Busy(RunFrom(s, actions))
  {
    if actions != [] {
      RunIsBusy(s, actions[..|actions| - 1]);
      StepKeepsBusy(RunFrom(s, actions[..|actions| - 1]), actions[|actions| - 1]);
    }
  }

  /** How much the reconciler has left to do. */
  function WorkLeft(phase: Phase): (nat, nat) {
    match phase
    case Unlocked => (0, 0)
    case Starting(_, waiting) => (1, 2 * |waiting|)
    case Announcing(_, waiting, _) => (1, 2 * |waiting| + 1)
    case Retiring(_, unvisited) => (2, 2 * |unvisited|)
    case Deleting(_, unvisited, _, _) => (2, 2 * |unvisited| + 1)
  }

  predicate Less(now: (nat, nat), before: (nat, nat)) {
    now.0 < before.0 || (now.0 == before.0 && now.1 < before.1)
  }

  lemma AdvanceAddsNoWork(s: System)
    ensures WorkLeft(Advance(s).phase) == WorkLeft(s.phase) || Less(WorkLeft(Advance(s).phase), WorkLeft(s.phase))
  {
  }

  lemma VisitLessens(s: System, key: TargetKey)
    requires s.phase.Retiring? && key in s.phase.unvisited && key in s.registry.targets
    ensures Less(WorkLeft(Step(s, Visit(key)).phase), WorkLeft(s.phase))
  {
    var kept := s.(phase := Retiring(s.phase.desired, s.phase.unvisited - {key}));
    assert |s.phase.unvisited - {key}| == |s.phase.unvisited| - 1;
    AdvanceAddsNoWork(kept);
  }

  lemma DeleteLessens(s: System)
    requires s.phase.Deleting?
    ensures Less(WorkLeft(Step(s, DeleteRecord).phase), WorkLeft(s.phase))
  {
    AdvanceAddsNoWork(s.(registry := s.registry.(records := WithoutKey(s.registry.records, s.phase.key.healthKey)),
      phase := Retiring(s.phase.desired, s.phase.unvisited)));
  }

  lemma LaunchLessens(s: System, key: TargetKey)
    requires s.phase.Starting? && key in s.phase.waiting && key in s.phase.desired
    ensures Less(WorkLeft(Step(s, Launch(key)).phase), WorkLeft(s.phase))
  {
    assert |s.phase.waiting - {key}| == |s.phase.waiting| - 1;
  }

  lemma AnnounceLessens(s: System)
    requires s.phase.Announcing? && s.phase.key in s.phase.desired
    ensures Less(WorkLeft(Step(s, Announce).phase), WorkLeft(s.phase))
  {
    var key, g := s.phase.key, s.registry.generation;
    AdvanceAddsNoWork(System(
      s.registry.(records := WithUnknown(s.registry.records, key.healthKey, g)),
      s.loops[g := Loop(key, s.phase.desired[key].settings, HealthChecker.Fresh, [], [], false, false)],
      Starting(s.phase.desired, s.phase.waiting), s.last));
  }

  /** The reconciler's next step. */
  lemma NextStep(before: Registry, desired: Desired, s: System) returns (action: Action)
    requires SessionInv(before, desired, s) && Busy(s) && s.phase != Unlocked
    ensures !action.Lock? && !action.Check? && !action.Publish? && !action.Stop?
    ensures Less(WorkLeft(Step(s, action).phase), WorkLeft(s.phase))
  {
    match s.phase
    case Retiring(_, unvisited) =>
      var key :| key in unvisited;
      assert key in s.registry.targets;
      action := Visit(key);
      VisitLessens(s, key);
    case Deleting(_, _, _, _) =>
      action := DeleteRecord;
      DeleteLessens(s);
    case Starting(_, waiting) =>
      var key :| key in waiting;
      action := Launch(key);
      LaunchLessens(s, key);
    case Announcing(_, _, _) =>
      action := Announce;
      AnnounceLessens(s);
  }

  /** Steps of the reconciler other than taking the lock. */
  predicate Reconciles(actions: seq<Action>) {
    forall i :: 0 <= i < |actions| ==>
      actions[i].Visit? || actions[i].DeleteRecord? || actions[i].Launch? || actions[i].Announce?
  }

  lemma Progress(before: Registry, desired: Desired, s: System) returns (action: Action, next: System)
    requires SessionInv(before, desired, s) && Busy(s) && s.phase != Unlocked
    ensures Reconciles([action])
    ensures next == Step(s, action) && SessionInv(before, desired, next) && Busy(next)
    ensures Less(WorkLeft(next.phase), WorkLeft(s.phase))
  {
    action := NextStep(before, desired, s);
    next := Step(s, action);
    SessionStep(before, desired, s, action);
    StepKeepsBusy(s, action);
  }

  lemma FirstStep(s: System, action: Action, rest: seq<Action>)
    ensures RunFrom(s, [action] + rest) == RunFrom(Step(s, action), rest)
    ensures Reconciles(rest) && Reconciles([action]) ==> Reconciles([action] + rest)
  {
    assert [action][..0] == [];
    assert RunFrom(s, [action]) == Step(s, action);
    RunsConcatenate(s, [action], rest);
  }

  lemma {:induction false} Completes(before: Registry, desired: Desired, s: System, left: nat, more: nat) returns (actions: seq<Action>)
    requires SessionInv(before, desired, s) && Busy(s) && WorkLeft(s.phase) == (left, more)
    ensures RunFrom(s, actions).phase == Unlocked && Reconciles(actions)
    decreases left, more
  {
    if s.phase == Unlocked {
      actions := [];
    } else {
      var action, next := Progress(before, desired, s);
      var rest := Completes(before, desired, next, WorkLeft(next.phase).0, WorkLeft(next.phase).1);
      actions := [action] + rest;
      FirstStep(s, action, rest);
    }
  }

  /** At every moment of a reconciliation, whatever went on before, further steps of the reconciler alone end it. */
  lemma ReconciliationCanEnd(before: seq<Action>, desired: Desired, rest: seq<Action>) returns (more: seq<Action>)
    requires WithinSession(before, desired, rest)
    ensures RunFrom(Session(before, desired, rest), more).phase == Unlocked && Reconciles(more)
  {
    SessionRun(before, desired, rest);
    RunIsBusy(Initial, before);
    StepKeepsBusy(Run(before), Lock(desired));
    RunIsBusy(Step(Run(before), Lock(desired)), rest);
    var s := Session(before, desired, rest);
    more := Completes(Run(before).registry, desired, s, WorkLeft(s.phase).0, WorkLeft(s.phase).1);
  }
}
