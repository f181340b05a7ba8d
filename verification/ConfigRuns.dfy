/** Every snapshot that registrations and deregistrations can reach (`internal/config/manager.go`), on values. */
module ConfigRuns {
  import opened ConfigIndex
  import opened ConfigModel
  import opened ConfigNormalize
  import opened Wrappers

  /** A validator of the manager's list; `Missing` is a nil entry. */
  datatype Validator = Missing | Check(accepts: Snapshot -> bool)

  /** `commitCandidate`: the first validator in list order that is missing or refuses decides. */
  function Verdict(validators: seq<Validator>, candidate: Snapshot): Option<ConfigError> {
    if validators == [] then None
    else
      var n := |validators| - 1;
      var earlier := Verdict(validators[..n], candidate);
      if earlier.Some? then earlier
      else match validators[n]
        case Missing => Some(ValidatorMissing)
        case Check(accepts) => if accepts(candidate) then None else Some(ValidatorRejected)
  }

  datatype Command = Register(settings: Settings) | Deregister(serviceName: string, instance: InstanceSettings)

  /** The candidate a command asks for, before validation. */
  function Candidate(snapshot: Snapshot, command: Command): Result<Snapshot, ConfigError> {
    match command
    case Register(settings) =>
      var normal := NormalizeSettings(settings);
      if normal.Failure? then Failure(normal.error) else
      NormalSettingsAreFixed(settings);
      BuildCandidate(snapshot, normal.value)
    case Deregister(serviceName, instance) =>
      if serviceName == "" then Failure(ServiceNameRequired) else
      var normal := NormalizeInstance(serviceName, instance);
      if normal.Failure? then Failure(normal.error)
      else BuildDeregisterCandidate(snapshot, serviceName, normal.value)
  }

  function Execute(validators: seq<Validator>, snapshot: Snapshot, command: Command): Result<Snapshot, ConfigError> {
    var candidate := Candidate(snapshot, command);
    if candidate.Failure? then candidate else
    var verdict := Verdict(validators, candidate.value);
    if verdict.Some? then Failure(verdict.value) else candidate
  }

  /** The active snapshot after a run of commands: failed ones leave it alone. */
  function Run(validators: seq<Validator>, commands: seq<Command>): Snapshot {
    if commands == [] then EmptySnapshot
    else
      var before := Run(validators, commands[..|commands| - 1]);
      var r := Execute(validators, before, commands[|commands| - 1]);
      if r.Success? then r.value else before
  }

  function Commits(validators: seq<Validator>, commands: seq<Command>): nat {
    if commands == [] then 0
    else
      var before := commands[..|commands| - 1];
      Commits(validators, before) + if Execute(validators, Run(validators, before), commands[|commands| - 1]).Success? then 1 else 0
  }

  /** The verdict, said of the list: none exactly when every entry is a validator that accepts; otherwise the error of
      the first entry that is missing or refuses. */
  lemma {:induction false} VerdictIsFirstRefusal(validators: seq<Validator>, candidate: Snapshot)
    ensures Verdict(validators, candidate) == None <==>
      forall i :: 0 <= i < |validators| ==> validators[i].Check? && validators[i].accepts(candidate)
    ensures Verdict(validators, candidate).Some? ==> exists i ::
      && 0 <= i < |validators|
      && (forall j :: 0 <= j < i ==> validators[j].Check? && validators[j].accepts(candidate))
      && (validators[i].Missing? || !validators[i].accepts(candidate))
      && Verdict(validators, candidate).value == if validators[i].Missing? then ValidatorMissing else ValidatorRejected
  {
    if validators != [] {
      var n := |validators| - 1;
      var front := validators[..n];
      VerdictIsFirstRefusal(front, candidate);
      if Verdict(front, candidate).Some? {
        var i :| 0 <= i < n
          && (forall j :: 0 <= j < i ==> front[j].Check? && front[j].accepts(candidate))
          && (front[i].Missing? || !front[i].accepts(candidate))
          && Verdict(front, candidate).value == if front[i].Missing? then ValidatorMissing else ValidatorRejected;
        assert validators[i] == front[i];
        assert forall j :: 0 <= j < i ==> validators[j] == front[j];
      } else {
        assert forall j :: 0 <= j < n ==> validators[j] == front[j];
        assert validators[n].Check? && validators[n].accepts(candidate) <==> Verdict(validators, candidate) == None;
      }
    }
  }

  /** A command that builds a candidate commits it exactly when every entry of the list is a validator that accepts it;
      a command that builds none fails with that error, whatever the validators. */
  lemma CommittedIffAccepted(validators: seq<Validator>, snapshot: Snapshot, command: Command)
    ensures Candidate(snapshot, command).Failure? ==> Execute(validators, snapshot, command) == Candidate(snapshot, command)
    ensures Candidate(snapshot, command).Success? ==>
      var candidate := Candidate(snapshot, command).value;
      var accepted := forall i :: 0 <= i < |validators| ==> validators[i].Check? && validators[i].accepts(candidate);
      && (Execute(validators, snapshot, command).Success? <==> accepted)
      && (accepted ==> Execute(validators, snapshot, command) == Success(candidate))
  {
    if Candidate(snapshot, command).Success? {
      VerdictIsFirstRefusal(validators, Candidate(snapshot, command).value);
    }
  }

  /** The active snapshot is the empty one, before the first commit, or one that every validator accepted. */
  lemma {:induction false} ActiveWasAccepted(validators: seq<Validator>, commands: seq<Command>)
    ensures var active := Run(validators, commands);
      || (active == EmptySnapshot && Commits(validators, commands) == 0)
      || (forall i :: 0 <= i < |validators| ==> validators[i].Check? && validators[i].accepts(active))
  {
    if commands != [] {
      var before, last := commands[..|commands| - 1], commands[|commands| - 1];
      ActiveWasAccepted(validators, before);
      CommittedIffAccepted(validators, Run(validators, before), last);
    }
  }

  /** A command that fails leaves the active snapshot alone; one that succeeds makes its candidate active. */
  lemma RunStep(validators: seq<Validator>, commands: seq<Command>, command: Command)
    ensures var before, r := Run(validators, commands), Execute(validators, Run(validators, commands), command);
      Run(validators, commands + [command]) == if r.Success? then r.value else before
  {
    assert (commands + [command])[..|commands|] == commands;
  }

  lemma CandidateKeepsIndex(snapshot: Snapshot, command: Command)
    requires Indexed(snapshot)
    ensures var r := Candidate(snapshot, command);
      r.Success? ==> Indexed(r.value) && r.value.revision == snapshot.revision + 1
  {
    match command
    case Register(settings) =>
      var normal := NormalizeSettings(settings);
      if normal.Success? {
        NormalSettingsAreFixed(settings);
        CandidateIsIndexed(snapshot, normal.value);
      }
    case Deregister(serviceName, instance) =>
      var normal := NormalizeInstance(serviceName, instance);
      if normal.Success? {
        DeregisteredIsIndexed(snapshot, serviceName, normal.value);
      }
  }

  /** A well-formed registration that takes no other service's route is committed when no validator refuses. */
  lemma RegisterCommits(commands: seq<Command>, settings: Settings)
    requires NormalizeSettings(settings).Success? && WellFormed(settings.endpoints)
    requires FirstConflict(Run([], commands).routes, settings.serviceName, EntriesOf(settings.serviceName, settings.endpoints)) == None
    ensures NormalSettings(NormalizeSettings(settings).value)
    ensures var before, normal := Run([], commands), NormalizeSettings(settings).value;
      && BuildCandidate(before, normal) == Success(Run([], commands + [Register(settings)]))
      && Run([], commands + [Register(settings)]).services == before.services[settings.serviceName := ServiceAfter(before, normal)]
  {
    NormalSettingsAreFixed(settings);
    NoFaultIffWellFormed(settings.endpoints);
    assert (commands + [Register(settings)])[..|commands|] == commands;
  }

  /** Whatever validators are installed, every reachable snapshot's route index is exactly the union of its
      services' endpoints, and its revision counts the commits. */
  lemma {:induction false} ReachableIsIndexed(validators: seq<Validator>, commands: seq<Command>)
    ensures Indexed(Run(validators, commands))
    ensures Run(validators, commands).revision == Commits(validators, commands)
  {
    if commands != [] {
      var before := commands[..|commands| - 1];
      ReachableIsIndexed(validators, before);
      CandidateKeepsIndex(Run(validators, before), commands[|commands| - 1]);
    }
  }

  /** Registering leaves the other services' records and wildcard order alone, and puts the service's own wildcards last. */
  lemma RegisterTouchesOneService(snapshot: Snapshot, settings: Settings)
    requires Indexed(snapshot) && NormalSettings(settings) && BuildCandidate(snapshot, settings).Success?
    ensures var after := BuildCandidate(snapshot, settings).value;
      && after.services.Keys == snapshot.services.Keys + {settings.serviceName}
      && (forall name :: name in snapshot.services && name != settings.serviceName ==> after.services[name] == snapshot.services[name])
      && WithoutService(after.wildcardRoutes, settings.serviceName) == WithoutService(snapshot.wildcardRoutes, settings.serviceName)
      && WithoutService(after.wildcardRoutes, settings.serviceName) + Wildcards(EntriesOf(settings.serviceName, settings.endpoints))
        == after.wildcardRoutes
  {
    var name := settings.serviceName;
    var kept := WithoutService(snapshot.wildcardRoutes, name);
    var added := Wildcards(EntriesOf(name, settings.endpoints));
    WildcardMembers(EntriesOf(name, settings.endpoints));
    forall e | e in added ensures e.serviceName == name {
      EntriesMembers(name, settings.endpoints, e);
    }
    WithoutServiceMembers(snapshot.wildcardRoutes, name);
    WithoutServiceSplit(kept, added, name);
  }

  /** What a registration makes of its own service: its settings as given, the health settings normalised; and the
      instance in the place of the one at its host and port, or at the end of the list. */
  lemma RegisteredService(snapshot: Snapshot, settings: Settings)
    requires Candidate(snapshot, Register(settings)).Success?
    ensures settings.global.Some? && settings.instance.Some? && NormalizeHealth(settings.health).Success?
    ensures var name, given := settings.serviceName, settings.instance.value;
      var after := Candidate(snapshot, Register(settings)).value;
      var instances := if name in snapshot.services then snapshot.services[name].instances else [];
      var instance := InstanceSettings(given.scheme, given.host, given.port, HealthKeyFor(name, given.scheme, given.host, given.port));
      && name in after.services && after.services[name].serviceName == name
      && after.services[name].global == settings.global.value
      && after.services[name].health == NormalizeHealth(settings.health).value
      && after.services[name].threshold == settings.threshold
      && after.services[name].endpoints == settings.endpoints
      && ((exists i :: 0 <= i < |instances| && instances[i].host == given.host && instances[i].port == given.port
             && after.services[name].instances == instances[i := instance])
          || ((forall i :: 0 <= i < |instances| ==> instances[i].host != given.host || instances[i].port != given.port)
             && after.services[name].instances == instances + [instance]))
  {
    NormalSettingsAreFixed(settings);
    var normal := NormalizeSettings(settings).value;
    NormalSettingsAreFixed(normal);
    UpsertIsReplaceOrAppend(InstancesOf(snapshot, settings.serviceName), normal.instance.value);
  }

  /** What a deregistration does: it succeeds exactly when the service has an instance at the host and port; that one goes
      and the list closes up, and nothing else changes but the revision. */
  lemma DeregisteredService(snapshot: Snapshot, serviceName: string, instance: InstanceSettings)
    requires Indexed(snapshot) && NormalizeInstance(serviceName, instance).Success?
    ensures var r := Candidate(snapshot, Deregister(serviceName, instance));
      && (serviceName !in snapshot.services <==> r == Failure(ServiceNotFound))
      && (serviceName in snapshot.services ==>
           var instances := snapshot.services[serviceName].instances;
           && ((forall i :: 0 <= i < |instances| ==> instances[i].host != instance.host || instances[i].port != instance.port)
                <==> r == Failure(InstanceNotFound))
           && (forall i :: 0 <= i < |instances| && instances[i].host == instance.host && instances[i].port == instance.port ==>
                r == Success(Snapshot(
                  snapshot.revision + 1,
                  snapshot.services[serviceName :=
                    snapshot.services[serviceName].(instances := instances[..i] + instances[i + 1..])],
                  snapshot.routes,
                  snapshot.wildcardRoutes))))
  {
    if serviceName in snapshot.services {
      var instances := snapshot.services[serviceName].instances;
      assert NormalService(serviceName, snapshot.services[serviceName]);
      forall i | 0 <= i < |instances| && instances[i].host == instance.host && instances[i].port == instance.port
        ensures Without(instances, NormalizeInstance(serviceName, instance).value) == instances[..i] + instances[i + 1..]
      {
        WithoutRemovesOne(instances, NormalizeInstance(serviceName, instance).value, i);
      }
    }
  }

  lemma {:induction false} WithoutServiceOfOthers(kept: seq<RouteEntry>, serviceName: string)
    requires forall e :: e in kept ==> e.serviceName != serviceName
    ensures WithoutService(kept, serviceName) == kept
  {
    if kept != [] {
      var n := |kept| - 1;
      assert kept[n] in kept;
      WithoutServiceOfOthers(kept[..n], serviceName);
    }
  }

  lemma {:induction false} WithoutServiceSplit(kept: seq<RouteEntry>, added: seq<RouteEntry>, serviceName: string)
    requires forall e :: e in kept ==> e.serviceName != serviceName
    requires forall e :: e in added ==> e.serviceName == serviceName
    ensures WithoutService(kept + added, serviceName) == kept
  {
    if added == [] {
      assert kept + added == kept;
      WithoutServiceOfOthers(kept, serviceName);
    } else {
      var n := |added| - 1;
      assert (kept + added)[..|kept| + n] == kept + added[..n];
      assert added[n] in added;
      WithoutServiceSplit(kept, added[..n], serviceName);
    }
  }

  /** Registering an instance at a new address and deregistering it restores the service's instance list, which is
      empty for a service that was not known before. */
  lemma RegisterThenDeregister(snapshot: Snapshot, settings: Settings)
    requires Indexed(snapshot) && NormalSettings(settings)
    requires !HasAddress(InstancesOf(snapshot, settings.serviceName), settings.instance.value)
    requires Candidate(snapshot, Register(settings)).Success?
    ensures var registered := Candidate(snapshot, Register(settings)).value;
      var r := Candidate(registered, Deregister(settings.serviceName, settings.instance.value));
      && r.Success?
      && InstancesOf(r.value, settings.serviceName) == InstancesOf(snapshot, settings.serviceName)
      && r.value.routes == registered.routes && r.value.wildcardRoutes == registered.wildcardRoutes
  {
    NormalSettingsAreFixed(settings);
    var name, instance, instances := settings.serviceName, settings.instance.value, InstancesOf(snapshot, settings.serviceName);
    var registered := Candidate(snapshot, Register(settings)).value;
    assert NormalizeInstance(name, instance) == Success(instance);
    assert registered.services[name].instances == instances + [instance] by {
      UpsertNewAppends(instances, instance);
    }
    assert SameAddress((instances + [instance])[|instances|], instance);
    UpsertNewAppends(instances, instance);
    UpsertThenWithout(instances, instance);
  }
}
