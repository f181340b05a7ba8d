/**
  * The health checking protocol (`internal/health`): one reconciler holding the manager's lock, any number of check
  * loops that check and publish on their own, and readers of the published records, interleaved at will. A loop that
  * was told to stop may go on checking and publishing for as long as it likes.
  */
module HealthProtocol {
  import opened HealthChecker
  import opened HealthModel
  import opened HealthReconcile
  import opened HealthStore
  import opened HealthTargets
  import opened Wrappers

  /** One check loop. `outcomes` are all results of its checks, `published` those up to its last publication;
      between a check and its publication the loop is `pending`. */
  datatype Loop = Loop(
    key: TargetKey,
    settings: RuntimeSettings,
    state: LoopState,
    outcomes: seq<bool>,
    published: seq<bool>,
    pending: bool,
    stopped: bool)

  type Loops = map<nat, Loop>

  type Targets = map<TargetKey, Target>

  /** What the holder of the manager's lock is doing. While `Deleting`, `target` is off the target map but its record
      is still there; while `Announcing`, the target under `key` has neither record nor loop yet. */
  datatype Phase =
    | Unlocked
    | Retiring(desired: Desired, unvisited: set<TargetKey>)
    | Deleting(desired: Desired, unvisited: set<TargetKey>, key: TargetKey, target: Target)
    | Starting(desired: Desired, waiting: set<TargetKey>)
    | Announcing(desired: Desired, waiting: set<TargetKey>, key: TargetKey)

  /** `last` is the snapshot's targets as of the last finished reconciliation. */
  datatype System = System(registry: Registry, loops: Loops, phase: Phase, last: Desired)

  const Initial := System(Registry(map[], 0, map[], {}), map[], Unlocked, map[])

  datatype Action =
    | Lock(desired: Desired)
    | Visit(key: TargetKey)
    | DeleteRecord
    | Launch(key: TargetKey)
    | Announce
    | Check(generation: nat, ok: bool)
    | Publish(generation: nat)
    | Stop(generation: nat)

  /** One atomic step. A step that is not possible leaves the system alone. */
  function Step(s: System, action: Action): System {
    match action
    case Lock(desired) =>
      if s.phase == Unlocked then Advance(s.(phase := Retiring(desired, s.registry.targets.Keys))) else s
    case Visit(key) => if s.phase.Retiring? then VisitTarget(s, key) else s
    case DeleteRecord =>
      if s.phase.Deleting? then
        Advance(s.(registry := s.registry.(records := WithoutKey(s.registry.records, s.phase.key.healthKey)),
          phase := Retiring(s.phase.desired, s.phase.unvisited)))
      else s
    case Launch(key) =>
      if s.phase.Starting? && key in s.phase.waiting && key in s.phase.desired then
        s.(registry := Admit(s.registry, key, s.phase.desired[key]),
           phase := Announcing(s.phase.desired, s.phase.waiting - {key}, key))
      else s
    case Announce => if s.phase.Announcing? && s.phase.key in s.phase.desired then AnnounceTarget(s) else s
    case Check(g, ok) =>
      if g in s.loops && !s.loops[g].pending && !s.loops[g].stopped then
        var loop := s.loops[g];
        s.(loops := s.loops[g :=
          loop.(state := Tick(loop.state, loop.settings, ok), outcomes := loop.outcomes + [ok], pending := true)])
      else s
    case Publish(g) =>
      if g in s.loops && s.loops[g].pending then
        var loop := s.loops[g];
        s.(registry := s.registry.(records := WithResult(s.registry.records, loop.key.healthKey, ResultOf(loop.state, g))),
           loops := s.loops[g := loop.(published := loop.outcomes, pending := false)])
      else s
    case Stop(g) =>
      if g in s.loops && g in s.registry.cancelled && !s.loops[g].pending then
        s.(loops := s.loops[g := s.loops[g].(stopped := true)])
      else s
  }

  /** One iteration of the first loop, up to the deletion of the record. */
  function VisitTarget(s: System, key: TargetKey): System
    requires s.phase.Retiring?
  {
    var desired, rest := s.phase.desired, s.phase.unvisited - {key};
    if key !in s.phase.unvisited || key !in s.registry.targets then s
    else if Keeps(s.registry.targets, desired, key) then Advance(s.(phase := Retiring(desired, rest)))
    else s.(registry := Forget(s.registry, key), phase := Deleting(desired, rest, key, s.registry.targets[key]))
  }

  /** The rest of an iteration of the second loop: the record is set to Unknown and the loop started. */
  function AnnounceTarget(s: System): System
    requires s.phase.Announcing? && s.phase.key in s.phase.desired
  {
    var key, generation := s.phase.key, s.registry.generation;
    Advance(System(
      s.registry.(records := WithUnknown(s.registry.records, key.healthKey, generation)),
      s.loops[generation := Loop(key, s.phase.desired[key].settings, Fresh, [], [], false, false)],
      Starting(s.phase.desired, s.phase.waiting),
      s.last))
  }

  /** The target leaves the map, and its loop is to be told to stop. */
  function Forget(r: Registry, key: TargetKey): Registry
    requires key in r.targets
  {
    r.(targets := r.targets - {key}, cancelled := r.cancelled + {r.targets[key].generation})
  }

  /** A target of a new generation enters the map. */
  function Admit(r: Registry, key: TargetKey, d: DesiredTarget): Registry {
    r.(generation := r.generation + 1, targets := r.targets[key := Target(d.settings, d.jitter, r.generation + 1)])
  }

  function ResultOf(state: LoopState, generation: nat): StatusRecord {
    StatusRecord(state.status, state.failures, state.successes, generation)
  }

  /** The reconciler passes to its second loop, and then unlocks, as soon as nothing is left to do. */
  function Advance(s: System): System {
    match s.phase
    case Retiring(desired, unvisited) =>
      if unvisited == {} then Finish(s.(phase := Starting(desired, desired.Keys - s.registry.targets.Keys))) else s
    case Starting(_, _) => Finish(s)
    case _ => s
  }

  function Finish(s: System): System
    requires s.phase.Starting?
  {
    if s.phase.waiting == {} then s.(phase := Unlocked, last := s.phase.desired) else s
  }

  lemma AdvanceKeepsState(s: System)
    ensures Advance(s).registry == s.registry && Advance(s).loops == s.loops
    ensures !Advance(s).phase.Announcing? || Advance(s) == s
  {
  }

  /** The two steps of an iteration of the first loop are together the retirement of one target. */
  lemma VisitAndDeleteRetire(s: System, key: TargetKey)
    requires s.phase.Retiring? && key in s.phase.unvisited && key in s.registry.targets
    requires !Keeps(s.registry.targets, s.phase.desired, key)
    ensures Step(Step(s, Visit(key)), DeleteRecord).registry == Retire(s.registry, key)
  {
  }

  /** The two steps of an iteration of the second loop are together the start of one target. */
  lemma LaunchAndAnnounceStart(s: System, key: TargetKey)
    requires s.phase.Starting? && key in s.phase.waiting && key in s.phase.desired
    ensures Step(Step(s, Launch(key)), Announce).registry == Start(s.registry, key, s.phase.desired[key])
  {
  }

  function RunFrom(s: System, actions: seq<Action>): System {
    if actions == [] then s else Step(RunFrom(s, actions[..|actions| - 1]), actions[|actions| - 1])
  }

  function Run(actions: seq<Action>): System {
    RunFrom(Initial, actions)
  }

  lemma {:induction false} RunsConcatenate(s: System, before: seq<Action>, after: seq<Action>)
    ensures RunFrom(s, before + after) == RunFrom(RunFrom(s, before), after)
  {
    if after == [] {
      assert before + after == before;
    } else {
      RunsConcatenate(s, before, after[..|after| - 1]);
      assert (before + after)[..|before + after| - 1] == before + after[..|after| - 1];
    }
  }

  // What holds for any targets, whatever their health keys.

  predicate LoopInv(loop: Loop) {
    && loop.state == StateAfter(loop.outcomes, loop.settings)
    && (if loop.pending then loop.outcomes != [] && loop.published == loop.outcomes[..|loop.outcomes| - 1]
        else loop.published == loop.outcomes)
  }

  ghost predicate LoopsInv(loops: Loops, generation: nat) {
    forall g :: g in loops ==> g <= generation && LoopInv(loops[g])
  }

  function PublishedRecord(loop: Loop, generation: nat): StatusRecord {
    ResultOf(StateAfter(loop.published, loop.settings), generation)
  }

  /** The record is what the loop of its generation last published. */
  predicate RecordInv(healthKey: string, record: StatusRecord, loops: Loops) {
    && healthKey != "" && record.generation in loops
    && loops[record.generation].key.healthKey == healthKey
    && record == PublishedRecord(loops[record.generation], record.generation)
  }

  ghost predicate RecordsInv(records: Records, loops: Loops) {
    forall healthKey :: healthKey in records ==> RecordInv(healthKey, records[healthKey], loops)
  }

  ghost predicate Inv(s: System) {
    && LoopsInv(s.loops, s.registry.generation)
    && RecordsInv(s.registry.records, s.loops)
    && (s.phase.Announcing? ==> s.registry.generation !in s.loops)
  }

  lemma AdvanceKeepsInv(s: System)
    requires Inv(s)
    ensures Inv(Advance(s))
  {
    AdvanceKeepsState(s);
  }

  lemma AnnounceKeepsInv(s: System)
    requires Inv(s)
    ensures Inv(Step(s, Announce))
  {
    if s.phase.Announcing? && s.phase.key in s.phase.desired {
      var key, g := s.phase.key, s.registry.generation;
      var loops := s.loops[g := Loop(key, s.phase.desired[key].settings, Fresh, [], [], false, false)];
      var records := WithUnknown(s.registry.records, key.healthKey, g);
      forall h | h in records ensures RecordInv(h, records[h], loops) {
        assert h in s.registry.records ==> RecordInv(h, s.registry.records[h], s.loops);
      }
      AdvanceKeepsInv(System(s.registry.(records := records), loops, Starting(s.phase.desired, s.phase.waiting), s.last));
    }
  }

  /** A change of a loop that publishes nothing. */
  lemma LoopStepKeepsRecords(records: Records, loops: Loops, g: nat, loop: Loop)
    requires RecordsInv(records, loops) && g in loops
    requires loop.key == loops[g].key && loop.settings == loops[g].settings && loop.published == loops[g].published
    ensures RecordsInv(records, loops[g := loop])
  {
    forall h | h in records ensures RecordInv(h, records[h], loops[g := loop]) {
      assert RecordInv(h, records[h], loops);
    }
  }

  lemma CheckKeepsInv(s: System, g: nat, ok: bool)
    requires Inv(s)
    ensures Inv(Step(s, Check(g, ok)))
  {
    if g in s.loops && !s.loops[g].pending && !s.loops[g].stopped {
      var loop := s.loops[g];
      var next := Step(s, Check(g, ok)).loops[g];
      TickIsVerdict(loop.outcomes, loop.settings, ok);
      assert next.outcomes[..|next.outcomes| - 1] == loop.outcomes;
      LoopStepKeepsRecords(s.registry.records, s.loops, g, next);
    }
  }

  lemma PublishKeepsInv(s: System, g: nat)
    requires Inv(s)
    ensures Inv(Step(s, Publish(g)))
  {
    if g in s.loops && s.loops[g].pending {
      var next := Step(s, Publish(g));
      forall h | h in next.registry.records ensures RecordInv(h, next.registry.records[h], next.loops) {
        assert RecordInv(h, s.registry.records[h], s.loops);
      }
    }
  }

  lemma DeleteKeepsInv(s: System)
    requires Inv(s)
    ensures Inv(Step(s, DeleteRecord))
  {
    if s.phase.Deleting? {
      AdvanceKeepsInv(s.(registry := s.registry.(records := WithoutKey(s.registry.records, s.phase.key.healthKey)),
        phase := Retiring(s.phase.desired, s.phase.unvisited)));
    }
  }

  /** Every step keeps the records tied to what the loops of their generations published. */
  lemma StepKeepsInv(s: System, action: Action)
    requires Inv(s)
    ensures Inv(Step(s, action))
  {
    match action
    case Lock(desired) =>
      if s.phase == Unlocked {
        AdvanceKeepsInv(s.(phase := Retiring(desired, s.registry.targets.Keys)));
      }
    case Visit(key) =>
      if s.phase.Retiring? {
        AdvanceKeepsInv(s.(phase := Retiring(s.phase.desired, s.phase.unvisited - {key})));
      }
    case DeleteRecord => DeleteKeepsInv(s);
    case Launch(_) =>
    case Announce => AnnounceKeepsInv(s);
    case Check(g, ok) => CheckKeepsInv(s, g, ok);
    case Publish(g) => PublishKeepsInv(s, g);
    case Stop(g) =>
      if Step(s, action) != s {
        LoopStepKeepsRecords(s.registry.records, s.loops, g, Step(s, action).loops[g]);
      }
  }

  lemma {:induction false} RunKeepsInv(actions: seq<Action>)
    ensures Inv(Run(actions))
  {
    if actions != [] {
      RunKeepsInv(actions[..|actions| - 1]);
      StepKeepsInv(Run(actions[..|actions| - 1]), actions[|actions| - 1]);
    }
  }

  /** The outcomes of the checks that the loop of generation `g` made, in order: it checks when it is there, has
      published its last check, and has not stopped. */
  function Checked(actions: seq<Action>, g: nat): seq<bool> {
    if actions == [] then []
    else
      var before, last := actions[..|actions| - 1], actions[|actions| - 1];
      var loops := Run(before).loops;
      if last.Check? && last.generation == g && g in loops && !loops[g].pending && !loops[g].stopped
      then Checked(before, g) + [last.ok] else Checked(before, g)
  }

  /** In every run a loop has seen the outcomes of its own checks, and published all of them or all but the last. */
  lemma {:induction false} LoopSeesItsChecks(actions: seq<Action>, g: nat)
    ensures g !in Run(actions).loops ==> Checked(actions, g) == []
    ensures g in Run(actions).loops ==>
      var loop, checked := Run(actions).loops[g], Checked(actions, g);
      && loop.outcomes == checked
      && (loop.published == checked || (checked != [] && loop.published == checked[..|checked| - 1]))
  {
    if actions != [] {
      var before, last := actions[..|actions| - 1], actions[|actions| - 1];
      LoopSeesItsChecks(before, g);
      RunKeepsInv(before);
      RunKeepsInv(actions);
      StepExtendsOutcomes(Run(before), last, g);
      if g in Run(actions).loops {
        assert LoopInv(Run(actions).loops[g]);
      }
    }
  }

  lemma StepExtendsOutcomes(s: System, action: Action, g: nat)
    requires Inv(s)
    ensures g in s.loops ==>
      var checks := action.Check? && action.generation == g && !s.loops[g].pending && !s.loops[g].stopped;
      g in Step(s, action).loops
      && Step(s, action).loops[g].outcomes == s.loops[g].outcomes + if checks then [action.ok] else []
    ensures g !in s.loops && g in Step(s, action).loops ==> Step(s, action).loops[g].outcomes == []
  {
  }

  /** The generation a health key's routing goes by: the one last announced under the key, unless a target with the
      key was retired since. */
  function Owner(actions: seq<Action>, healthKey: string): Option<nat> {
    if actions == [] then None
    else OwnerAfter(Owner(actions[..|actions| - 1], healthKey), Run(actions[..|actions| - 1]), actions[|actions| - 1], healthKey)
  }

  function OwnerAfter(owner: Option<nat>, s: System, action: Action, healthKey: string): Option<nat> {
    if healthKey == "" then None
    else if action.DeleteRecord? && s.phase.Deleting? && s.phase.key.healthKey == healthKey then None
    else if action.Announce? && s.phase.Announcing? && s.phase.key in s.phase.desired && s.phase.key.healthKey == healthKey
    then Some(s.registry.generation)
    else owner
  }

  predicate Owns(records: Records, owner: Option<nat>, healthKey: string) {
    if owner.Some? then healthKey in records && records[healthKey].generation == owner.value else healthKey !in records
  }

  lemma ResultKeepsGeneration(records: Records, healthKey: string, next: StatusRecord, owner: Option<nat>, h: string)
    requires Owns(records, owner, h)
    ensures Owns(WithResult(records, healthKey, next), owner, h)
  {
  }

  lemma OwnerStep(s: System, action: Action, owner: Option<nat>, healthKey: string)
    requires Owns(s.registry.records, owner, healthKey) && healthKey != ""
    ensures Owns(Step(s, action).registry.records, OwnerAfter(owner, s, action, healthKey), healthKey)
  {
    if action.Publish? && action.generation in s.loops && s.loops[action.generation].pending {
      var loop := s.loops[action.generation];
      ResultKeepsGeneration(s.registry.records, loop.key.healthKey, ResultOf(loop.state, action.generation), owner, healthKey);
    }
  }

  lemma {:induction false} OwnerOwns(actions: seq<Action>, healthKey: string)
    ensures Owns(Run(actions).registry.records, Owner(actions, healthKey), healthKey)
  {
    if actions != [] {
      var before := actions[..|actions| - 1];
      OwnerOwns(before, healthKey);
      if healthKey == "" {
        RunKeepsInv(actions);
        assert healthKey in Run(actions).registry.records ==>
          !RecordInv(healthKey, Run(actions).registry.records[healthKey], Run(actions).loops);
      } else {
        OwnerStep(Run(before), actions[|actions| - 1], Owner(before, healthKey), healthKey);
      }
    }
  }

  /** In every interleaving, whatever the targets: a health key is kept out of routing exactly when the checks that the
      generation last announced under it has published amount to Unhealthy. Results of other generations never count. */
  lemma RoutingFollowsLastAnnounced(actions: seq<Action>, healthKey: string)
    ensures var s, owner := Run(actions), Owner(actions, healthKey);
      !Routable(s.registry.records, healthKey) <==>
        owner.Some? && owner.value in s.loops && LoopVerdict(s.loops[owner.value]) == Unhealthy
  {
    RunKeepsInv(actions);
    OwnerOwns(actions, healthKey);
    var s := Run(actions);
    if healthKey in s.registry.records {
      assert RecordInv(healthKey, s.registry.records[healthKey], s.loops);
    }
  }

  /** The verdict over everything a loop has published. */
  function LoopVerdict(loop: Loop): Status {
    Verdict(loop.published, loop.settings)
  }
}
