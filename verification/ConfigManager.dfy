/** The configuration manager of `internal/config/manager.go`: candidate, validation, commit. */
module ConfigManager {
  import opened ConfigBuilder
  import opened ConfigIndex
  import opened ConfigModel
  import opened ConfigNormalize
  import opened ConfigRuns
  import opened Wrappers

  class Manager {
    var validators: seq<Validator>
    /** The published snapshot. */
    var active: LiveSnapshot

    ghost predicate Valid()
      reads this, active, active.wildcards, active.InstanceArrays()
    {
      active.Valid() && Indexed(active.View())
    }

    constructor ()
      ensures Valid() && fresh(active) && validators == [] && active.View() == EmptySnapshot
    {
      validators := [];
      active := new LiveSnapshot();
      new;
      ReachableIsIndexed([], []);
    }

    method AddValidator(validator: Validator)
      modifies this`validators
      ensures validators == old(validators) + [validator]
    {
      validators := validators + [validator];
    }

    /** `commitCandidate`: the loop over the validators, and the commit. */
    method CommitCandidate(candidate: LiveSnapshot) returns (refusal: Option<ConfigError>)
      requires candidate.Valid()
      modifies this`active
      ensures refusal == Verdict(validators, old(candidate.View()))
      ensures refusal == None <==>
        forall i :: 0 <= i < |validators| ==> validators[i].Check? && validators[i].accepts(old(candidate.View()))
      ensures candidate.Valid() && candidate.View() == old(candidate.View())
      ensures active == if refusal == None then candidate else old(active)
    {
      var view := ReadView(candidate);
      VerdictIsFirstRefusal(validators, view);
      for i := 0 to |validators|
        invariant view == old(candidate.View()) && Verdict(validators[..i], view) == None
        invariant active == old(active)
      {
        assert validators[..i + 1][..i] == validators[..i];
        match validators[i]
        case Missing =>
          VerdictOfPrefix(validators, view, i + 1);
          return Some(ValidatorMissing);
        case Check(accepts) =>
          if !accepts(view) {
            VerdictOfPrefix(validators, view, i + 1);
            return Some(ValidatorRejected);
          }
      }
      assert validators[..|validators|] == validators;
      active := candidate;
      ViewSurvives(candidate);
      return None;
    }

    /** The common end of both calls: a candidate that was built is put to the validators. */
    method CommitBuilt(built: Result<LiveSnapshot, ConfigError>, ghost command: Command) returns (r: Result<LiveSnapshot, ConfigError>)
      requires active.Valid()
      requires match Candidate(active.View(), command)
        case Failure(error) => built == Failure(error)
        case Success(candidate) => built.Success? && built.value.Valid() && built.value.View() == candidate
      modifies this`active
      ensures old(active).Valid() && old(active).View() == old(active.View()) && active.Valid()
      ensures match Execute(validators, old(active.View()), command)
        case Failure(error) => r == Failure(error) && active == old(active)
        case Success(after) => r == built == Success(active) && active.View() == after
    {
      r := built;
      if built.Success? {
        var refusal := CommitCandidate(built.value);
        if refusal.Some? {
          r := Failure(refusal.value);
        }
      }
      ViewSurvives(old(active));
    }

    /** `Register`: on failure nothing changes; on success the candidate is published. The snapshot published
        before is never written to. */
    method Register(settings: Settings) returns (r: Result<LiveSnapshot, ConfigError>)
      requires Valid()
      modifies this`active
      ensures Valid() && old(active).Valid() && old(active).View() == old(active.View())
      ensures match Execute(validators, old(active.View()), Command.Register(settings))
        case Failure(error) => r == Failure(error) && active == old(active)
        case Success(after) => r == Success(active) && fresh(active) && active.View() == after
      ensures r.Success? ==> forall i :: 0 <= i < |validators| ==> validators[i].Check? && validators[i].accepts(active.View())
    {
      ghost var before := active.View();
      CommittedIffAccepted(validators, before, Command.Register(settings));
      var built := BuildRegistered(active, settings);
      ViewSurvives(active);
      r := CommitBuilt(built, Command.Register(settings));
      assert Indexed(active.View()) by {
        ExecuteKeepsIndex(validators, before, Command.Register(settings));
      }
    }

    /** `DeregisterInstance`. */
    method DeregisterInstance(serviceName: string, instance: InstanceSettings) returns (r: Result<LiveSnapshot, ConfigError>)
      requires Valid()
      modifies this`active
      ensures Valid() && old(active).Valid() && old(active).View() == old(active.View())
      ensures match Execute(validators, old(active.View()), Command.Deregister(serviceName, instance))
        case Failure(error) => r == Failure(error) && active == old(active)
        case Success(after) => r == Success(active) && fresh(active) && active.View() == after
      ensures r.Success? ==> forall i :: 0 <= i < |validators| ==> validators[i].Check? && validators[i].accepts(active.View())
    {
      ghost var before := active.View();
      CommittedIffAccepted(validators, before, Command.Deregister(serviceName, instance));
      var built := BuildDeregistered(active, serviceName, instance);
      ViewSurvives(active);
      r := CommitBuilt(built, Command.Deregister(serviceName, instance));
      assert Indexed(active.View()) by {
        ExecuteKeepsIndex(validators, before, Command.Deregister(serviceName, instance));
      }
    }
  }

  method BuildRegistered(active: LiveSnapshot, settings: Settings) returns (built: Result<LiveSnapshot, ConfigError>)
    requires active.Valid()
    ensures match Candidate(old(active.View()), Command.Register(settings))
      case Failure(error) => built == Failure(error)
      case Success(candidate) => built.Success? && fresh(built.value) && built.value.Valid() && built.value.View() == candidate
  {
    var normal := NormalizeSettings(settings);
    if normal.Failure? {
      return Failure(normal.error);
    }
    NormalSettingsAreFixed(settings);
    built := BuildCandidateSnapshot(active, normal.value);
  }

  method BuildDeregistered(active: LiveSnapshot, serviceName: string, instance: InstanceSettings)
    returns (built: Result<LiveSnapshot, ConfigError>)
    requires active.Valid()
    ensures match Candidate(old(active.View()), Command.Deregister(serviceName, instance))
      case Failure(error) => built == Failure(error)
      case Success(candidate) => built.Success? && fresh(built.value) && built.value.Valid() && built.value.View() == candidate
  {
    if serviceName == "" {
      return Failure(ServiceNameRequired);
    }
    var normal := NormalizeInstance(serviceName, instance);
    if normal.Failure? {
      return Failure(normal.error);
    }
    built := BuildDeregisterSnapshot(active, serviceName, normal.value);
  }

  lemma ExecuteKeepsIndex(validators: seq<Validator>, snapshot: Snapshot, command: Command)
    requires Indexed(snapshot)
    ensures var r := Execute(validators, snapshot, command); r.Success? ==> Indexed(r.value)
  {
    CandidateKeepsIndex(snapshot, command);
  }

  /** A validator receives the snapshot record by value. */
  method ReadView(snapshot: LiveSnapshot) returns (view: Snapshot)
    requires snapshot.Valid()
    ensures view == snapshot.View()
  {
    var names := snapshot.services.Keys;
    var services: map<string, ServiceSettings> := map[];
    while names != {}
      invariant names <= snapshot.services.Keys
      invariant services == map name | name in snapshot.services && name !in names :: ServiceView(snapshot.services[name])
      decreases names
    {
      var name :| name in names;
      var s := snapshot.services[name];
      services := services[name := ServiceSettings(s.serviceName, s.global, s.health, s.threshold, s.endpoints, s.instances[..])];
      names := names - {name};
    }
    view := Snapshot(snapshot.revision, services, snapshot.routes, snapshot.wildcards[..snapshot.wildcardCount]);
  }

  lemma {:induction false} VerdictOfPrefix(validators: seq<Validator>, candidate: Snapshot, i: nat)
    requires i <= |validators| && Verdict(validators[..i], candidate).Some?
    ensures Verdict(validators, candidate) == Verdict(validators[..i], candidate)
    decreases |validators| - i
  {
    if i == |validators| {
      assert validators[..i] == validators;
    } else {
      assert validators[..i + 1][..i] == validators[..i];
      VerdictOfPrefix(validators, candidate, i + 1);
    }
  }
}
