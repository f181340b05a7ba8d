/** The assignment store of `internal/pool/policy/store.go`; `history` records every evaluation and deletion. */
module PolicyStore {
  import opened ConfigModel
  import opened PolicyHistory
  import opened PolicyTiers
  import opened TrafficRecord
  import opened Wrappers

  datatype Assignment = Assignment(serviceName: string, tier: Tier, dedicated: bool)

  class Store {
    var states: map<string, AssignmentState>
    ghost var history: seq<Event>

    ghost predicate Valid()
      reads this
    {
      states == Run(history)
    }

    constructor ()
      ensures Valid() && history == []
    {
      states, history := map[], [];
    }

    method Delete(serviceName: string)
      requires Valid()
      modifies this
      ensures Valid() && history == old(history) + [Event.Delete(serviceName)]
    {
      states := states - {serviceName};
      history := history + [Event.Delete(serviceName)];
      assert history[..|history| - 1] == old(history);
    }

    /** `AssignmentFor`: the tier is the one the whole history calls for. */
    method AssignmentFor(snapshot: Option<Snapshot>, status: TrafficStatus, now: int) returns (decision: Assignment)
      requires Valid()
      modifies this
      ensures Valid()
      ensures decision.serviceName == status.configKey && decision.dedicated == (decision.tier != Shared)
      ensures status.configKey == "" || snapshot == None ==> decision.tier == Shared && history == old(history)
      ensures status.configKey != "" && snapshot.Some? ==>
        var e := EvaluationOf(snapshot.value, status, now);
        && decision.tier == DeclaredAnswer(old(history), status.configKey, e)
        && history == old(history) + [Evaluate(status.configKey, e)]
    {
      if status.configKey == "" || snapshot == None {
        return Assignment(status.configKey, Shared, false);
      }
      var policy := PolicyFor(snapshot.value, status.configKey);
      var tier := if policy.Some? then DecideTier(status, policy.value) else Shared;
      tier := DelaySharedReturn(status.configKey, snapshot.value.revision, policy.GetOr(NO_POLICY), tier, now);
      decision := Assignment(status.configKey, tier, tier != Shared);
    }

    /** `delaySharedReturn`: the answer is the declared one, and the evaluation enters the history. */
    method DelaySharedReturn(serviceName: string, revision: nat, policy: PoolInfo, tier: Tier, now: int) returns (answer: Tier)
      requires Valid()
      modifies this
      ensures Valid()
      ensures history == old(history) + [Evaluate(serviceName, Evaluation(revision, policy, tier, now))]
      ensures answer == DeclaredAnswer(old(history), serviceName, Evaluation(revision, policy, tier, now))
    {
      ghost var e := Evaluation(revision, policy, tier, now);
      answer := Evaluated(serviceName, revision, policy, tier, now);
      AnswerIsDeclared(history, serviceName, e);
      history := history + [Evaluate(serviceName, e)];
      assert history[..|history| - 1] == old(history);
    }

    /** Its body: one transition of the service's state. */
    method Evaluated(serviceName: string, revision: nat, policy: PoolInfo, tier: Tier, now: int) returns (answer: Tier)
      modifies this`states
      ensures states == Apply(old(states), Evaluate(serviceName, Evaluation(revision, policy, tier, now)))
      ensures answer == Answer(old(states), serviceName, Evaluation(revision, policy, tier, now))
    {
      var found := serviceName in states;
      if found && revision < states[serviceName].revision {
        if states[serviceName].policy == policy && tier == Shared {
          return states[serviceName].tier;
        }
        return tier;
      }
      var state;
      if !found || states[serviceName].policy != policy {
        state := AssignmentState(0, policy, tier, UNSET);
      } else {
        state := states[serviceName];
        if tier != Shared {
          state := state.(tier := tier);
          state := state.(belowSince := UNSET);
        } else if state.tier != Shared {
          if state.belowSince == UNSET {
            state := state.(belowSince := now);
          }
          if now - state.belowSince >= SHARED_RETURN_DELAY {
            state := state.(tier := Shared);
            state := state.(belowSince := UNSET);
          }
        }
      }
      state := state.(revision := revision);
      states := states[serviceName := state];
      return state.tier;
    }
  }

  /** What one call of `AssignmentFor` evaluates. */
  function EvaluationOf(snapshot: Snapshot, status: TrafficStatus, now: int): Evaluation {
    var policy := PolicyFor(snapshot, status.configKey);
    if policy.Some? then Evaluation(snapshot.revision, policy.value, DecideTier(status, policy.value), now)
    else Evaluation(snapshot.revision, NO_POLICY, Shared, now)
  }

  /** The tier an evaluation decides, in terms of the numbers registered for the service: it is at least Super, Hot or
      Normal exactly when the traffic meets a positive limit, be it the rate or the requests in flight, of some threshold
      from that one up. A limit of zero or less never counts. */
  lemma TierIsByRegisteredLimits(snapshot: Snapshot, status: TrafficStatus, now: int)
    requires status.configKey != ""
    ensures var tier := EvaluationOf(snapshot, status, now).tier;
      if status.configKey !in snapshot.services || snapshot.services[status.configKey].threshold == None then tier == Shared
      else
        var limits := snapshot.services[status.configKey].threshold.value;
        var super := || (0.0 < limits.super.rps <= status.rps)
                     || (0 < limits.super.inFlight <= status.inFlight);
        var hot := || (0.0 < limits.hot.rps <= status.rps)
                   || (0 < limits.hot.inFlight <= status.inFlight);
        var normal := || (0.0 < limits.normal.rps <= status.rps)
                      || (0 < limits.normal.inFlight <= status.inFlight);
        && (tier == Super <==> super)
        && (tier in {Super, Hot} <==> super || hot)
        && (tier in {Super, Hot, Normal} <==> super || hot || normal)
  {
  }

  /** An evaluation is of the snapshot's revision, at the clock's time; and two evaluations of a service are of the same
      policy exactly when the same thresholds, or none, were registered. */
  lemma PolicyIsRegisteredThresholds(snapshot1: Snapshot, snapshot2: Snapshot, status1: TrafficStatus, status2: TrafficStatus,
                                     now1: int, now2: int)
    requires status1.configKey == status2.configKey != ""
    requires status1.configKey in snapshot1.services && status1.configKey in snapshot2.services
    ensures var e1, e2 := EvaluationOf(snapshot1, status1, now1), EvaluationOf(snapshot2, status2, now2);
      && e1.revision == snapshot1.revision && e1.now == now1
      && (e1.policy == e2.policy <==>
           snapshot1.services[status1.configKey].threshold == snapshot2.services[status1.configKey].threshold)
  {
    var e1, e2 := EvaluationOf(snapshot1, status1, now1), EvaluationOf(snapshot2, status2, now2);
    var t1, t2 := snapshot1.services[status1.configKey].threshold, snapshot2.services[status1.configKey].threshold;
    if t1.Some? && t2.Some? && e1.policy == e2.policy {
      assert t1.value.normal == t2.value.normal && t1.value.hot == t2.value.hot && t1.value.super == t2.value.super;
    }
  }

  /** Some evaluation of `service` in the history decided `tier`. */
  ghost predicate Earned(history: seq<Event>, service: string, tier: Tier) {
    exists i :: 0 <= i < |history| && history[i].Evaluate? && history[i].service == service && history[i].evaluation.tier == tier
  }

  /** The tier of a relevant run was decided by one of its evaluations. */
  lemma DeclaredWasEarned(history: seq<Event>, service: string)
    requires DeclaredTier(Relevant(history, service)) != Shared
    ensures Earned(history, service, DeclaredTier(Relevant(history, service)))
  {
    var run := Relevant(history, service);
    var winner := run[LastDedicated(run)];
    assert winner in run && winner.tier == DeclaredTier(run);
    RelevantIsLogged(history, service);
    var i :| 0 <= i < |history| && history[i] == Evaluate(service, winner);
  }

  lemma EarnedStays(history: seq<Event>, event: Event, service: string, tier: Tier)
    requires Earned(history, service, tier)
      || (event.Evaluate? && event.service == service && event.evaluation.tier == tier)
    ensures Earned(history + [event], service, tier)
  {
    var longer := history + [event];
    assert longer[|history|] == event;
    if Earned(history, service, tier) {
      var i :| 0 <= i < |history| && history[i].Evaluate? && history[i].service == service && history[i].evaluation.tier == tier;
      assert longer[i] == history[i];
    }
  }

  /** A dedicated tier is only ever given to a service that reached that tier's threshold in its history. */
  lemma DedicatedWasEarned(history: seq<Event>, service: string, e: Evaluation)
    requires DeclaredAnswer(history, service, e) != Shared
    ensures Earned(history + [Evaluate(service, e)], service, DeclaredAnswer(history, service, e))
  {
    if DeclaredAnswer(history, service, e) == e.tier {
      EarnedStays(history, Evaluate(service, e), service, e.tier);
    } else if Outdated(Evaluations(history, service), e) {
      DeclaredWasEarned(history, service);
      EarnedStays(history, Evaluate(service, e), service, DeclaredAnswer(history, service, e));
    } else {
      DeclaredWasEarned(history + [Evaluate(service, e)], service);
    }
  }

  lemma {:induction false} FreshIsSeen(evaluations: seq<Evaluation>, e: Evaluation)
    requires e in Fresh(evaluations)
    ensures e in evaluations
  {
    var n := |evaluations| - 1;
    if e != evaluations[n] {
      FreshIsSeen(evaluations[..n], e);
    }
  }

  lemma {:induction false} SeenIsLogged(history: seq<Event>, service: string, e: Evaluation)
    requires e in Evaluations(history, service)
    ensures exists i :: 0 <= i < |history| && history[i] == Evaluate(service, e)
  {
    var n := |history| - 1;
    if history[n] != Evaluate(service, e) {
      SeenIsLogged(history[..n], service, e);
      var i :| 0 <= i < n && history[..n][i] == Evaluate(service, e);
      assert history[i] == Evaluate(service, e);
    }
  }

  lemma RelevantIsLogged(history: seq<Event>, service: string)
    ensures forall e :: e in Relevant(history, service) ==>
      exists i :: 0 <= i < |history| && history[i] == Evaluate(service, e)
  {
    forall e | e in Relevant(history, service)
      ensures exists i :: 0 <= i < |history| && history[i] == Evaluate(service, e)
    {
      FreshIsSeen(Evaluations(history, service), e);
      SeenIsLogged(history, service, e);
    }
  }
}
