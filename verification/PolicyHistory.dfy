/**
  * Delayed return to the shared pool (`internal/pool/policy/store.go`): the stored timer state of a service is
  * a function of its whole evaluation history.
  */
module PolicyHistory {
  import opened PolicyTiers

  /** Thirty seconds, in nanoseconds. */
  const SHARED_RETURN_DELAY: int := 30_000_000_000

  /** The zero instant, which the code uses for "timer not running". */
  const UNSET: int := 0

  datatype AssignmentState = AssignmentState(revision: nat, policy: PoolInfo, tier: Tier, belowSince: int)

  /** One evaluation of a service: the snapshot's revision and policy, the tier its traffic calls for, the clock. */
  datatype Evaluation = Evaluation(revision: nat, policy: PoolInfo, tier: Tier, now: int)

  datatype Event = Evaluate(service: string, evaluation: Evaluation) | Delete(service: string)

  type States = map<string, AssignmentState>

  predicate IsStale(states: States, service: string, e: Evaluation) {
    service in states && e.revision < states[service].revision
  }

  /** The state `delaySharedReturn` stores for an evaluation that is not stale. */
  function NextState(states: States, service: string, e: Evaluation): AssignmentState {
    if service !in states || states[service].policy != e.policy then
      AssignmentState(e.revision, e.policy, e.tier, UNSET)
    else
      var state := states[service].(revision := e.revision);
      if e.tier != Shared then
        state.(tier := e.tier, belowSince := UNSET)
      else if state.tier != Shared then
        var since := if state.belowSince == UNSET then e.now else state.belowSince;
        if e.now - since >= SHARED_RETURN_DELAY
        then state.(tier := Shared, belowSince := UNSET)
        else state.(belowSince := since)
      else state
  }

  function Apply(states: States, event: Event): States {
    match event
    case Delete(service) => states - {service}
    case Evaluate(service, e) => if IsStale(states, service, e) then states else states[service := NextState(states, service, e)]
  }

  /** The tier `delaySharedReturn` answers with. */
  function Answer(states: States, service: string, e: Evaluation): Tier {
    if IsStale(states, service, e) then
      if states[service].policy == e.policy && e.tier == Shared then states[service].tier else e.tier
    else NextState(states, service, e).tier
  }

  function Run(history: seq<Event>): States {
    if history == [] then map[] else Apply(Run(history[..|history| - 1]), history[|history| - 1])
  }

  // The declarative side.

  /** All evaluations of `service` since it was last deleted. */
  function Evaluations(history: seq<Event>, service: string): seq<Evaluation> {
    if history == [] then []
    else
      var before := Evaluations(history[..|history| - 1], service);
      match history[|history| - 1]
      case Delete(s) => if s == service then [] else before
      case Evaluate(s, e) => if s == service then before + [e] else before
  }

  /** Some evaluation seen came from a newer snapshot than `e`. */
  predicate Outdated(seen: seq<Evaluation>, e: Evaluation) {
    exists i :: 0 <= i < |seen| && seen[i].revision > e.revision
  }

  /** Those evaluations whose snapshot was not older than any evaluated before. */
  function Fresh(evaluations: seq<Evaluation>): seq<Evaluation> {
    if evaluations == [] then []
    else
      var n := |evaluations| - 1;
      var before := Fresh(evaluations[..n]);
      if Outdated(evaluations[..n], evaluations[n]) then before else before + [evaluations[n]]
  }

  /** Where the maximal suffix of equal policy begins. */
  function SuffixStart(kept: seq<Evaluation>): (start: nat)
    ensures start <= |kept| && (kept != [] ==> start < |kept|)
  {
    var n := |kept|;
    if n <= 1 then 0
    else if kept[n - 2].policy != kept[n - 1].policy then n - 1
    else SuffixStart(kept[..n - 1])
  }

  predicate SamePolicy(run: seq<Evaluation>) {
    forall i, j :: 0 <= i < |run| && 0 <= j < |run| ==> run[i].policy == run[j].policy
  }

  /** The evaluations that count: fresh, since the last deletion, under the latest policy. */
  function Relevant(history: seq<Event>, service: string): seq<Evaluation> {
    var kept := Fresh(Evaluations(history, service));
    kept[SuffixStart(kept)..]
  }

  /** Index of the last evaluation that decided a dedicated tier, or -1. */
  function LastDedicated(run: seq<Evaluation>): (j: int)
    ensures -1 <= j < |run|
    ensures j >= 0 ==> run[j].tier != Shared
    ensures forall k :: j < k < |run| ==> run[k].tier == Shared
  {
    if run == [] then -1
    else if run[|run| - 1].tier != Shared then |run| - 1
    else LastDedicated(run[..|run| - 1])
  }

  /** Index of the first evaluation from `i` on whose clock does not read the zero instant: the one that starts the
      timer. With any other clock that is `i` itself. */
  function TimerStart(run: seq<Evaluation>, i: nat): (f: nat)
    requires i <= |run|
    ensures i <= f <= |run|
    ensures forall k :: i <= k < f ==> run[k].now == UNSET
    ensures f < |run| ==> run[f].now != UNSET
    decreases |run| - i
  {
    if i == |run| || run[i].now != UNSET then i else TimerStart(run, i + 1)
  }

  /** Some evaluation below every threshold came a full delay after the one that started the timer, which is the first
      one after evaluation `j`. */
  predicate Expired(run: seq<Evaluation>, j: int)
    requires 0 <= j < |run|
  {
    var f := TimerStart(run, j + 1);
    exists k :: f <= k < |run| && run[k].now - run[f].now >= SHARED_RETURN_DELAY
  }

  /** The tier a run of evaluations under one policy amounts to. */
  function DeclaredTier(run: seq<Evaluation>): Tier {
    var j := LastDedicated(run);
    if j < 0 || Expired(run, j) then Shared else run[j].tier
  }

  function DeclaredTimer(run: seq<Evaluation>): int {
    var j := LastDedicated(run);
    if j < 0 || Expired(run, j) || TimerStart(run, j + 1) == |run| then UNSET else run[TimerStart(run, j + 1)].now
  }

  /** The tier an evaluation gets after `history`, said without any stored state. */
  function DeclaredAnswer(history: seq<Event>, service: string, e: Evaluation): Tier {
    if !Outdated(Evaluations(history, service), e) then
      DeclaredTier(Relevant(history + [Evaluate(service, e)], service))
    else
      var run := Relevant(history, service);
      if e.tier == Shared && run != [] && run[|run| - 1].policy == e.policy then DeclaredTier(run) else e.tier
  }

  lemma {:induction false} SuffixIsMaximal(kept: seq<Evaluation>)
    ensures SamePolicy(kept[SuffixStart(kept)..])
    ensures SuffixStart(kept) > 0 ==> kept[SuffixStart(kept) - 1].policy != kept[SuffixStart(kept)].policy
  {
    var n := |kept|;
    if n > 1 && kept[n - 2].policy == kept[n - 1].policy {
      SuffixIsMaximal(kept[..n - 1]);
      var start := SuffixStart(kept);
      assert kept[start..] == kept[..n - 1][start..] + [kept[n - 1]];
      assert kept[..n - 1][start..][n - 2 - start] == kept[n - 2];
    }
  }

  /** The fresh evaluations end with the newest revision seen. */
  lemma {:induction false} FreshEndsWithNewest(evaluations: seq<Evaluation>)
    ensures evaluations != [] ==> Fresh(evaluations) != []
    ensures var kept := Fresh(evaluations);
      forall i :: 0 <= i < |evaluations| ==> evaluations[i].revision <= kept[|kept| - 1].revision
    ensures var kept := Fresh(evaluations);
      kept != [] ==> exists i :: 0 <= i < |evaluations| && evaluations[i] == kept[|kept| - 1]
  {
    if evaluations != [] {
      var n := |evaluations| - 1;
      FreshEndsWithNewest(evaluations[..n]);
      var before := Fresh(evaluations[..n]);
      if before != [] {
        var i :| 0 <= i < n && evaluations[..n][i] == before[|before| - 1];
        assert evaluations[i] == before[|before| - 1];
      }
      forall i | 0 <= i < n ensures evaluations[i] == evaluations[..n][i] {
      }
    }
  }

  lemma LastDedicatedSnoc(run: seq<Evaluation>, e: Evaluation)
    ensures LastDedicated(run + [e]) == if e.tier != Shared then |run| else LastDedicated(run)
  {
    assert (run + [e])[..|run|] == run;
  }

  lemma {:induction false} TimerStartSnoc(run: seq<Evaluation>, e: Evaluation, i: nat)
    requires i <= |run|
    ensures TimerStart(run + [e], i) ==
      if TimerStart(run, i) < |run| || e.now != UNSET then TimerStart(run, i) else |run| + 1
    decreases |run| - i
  {
    if i < |run| {
      TimerStartSnoc(run, e, i + 1);
    }
  }

  lemma ExpiredSnoc(run: seq<Evaluation>, e: Evaluation, j: int)
    requires 0 <= j < |run|
    ensures var f := TimerStart(run, j + 1);
      Expired(run + [e], j) <==> Expired(run, j) || (f < |run| && e.now - run[f].now >= SHARED_RETURN_DELAY)
  {
    var longer, f := run + [e], TimerStart(run, j + 1);
    TimerStartSnoc(run, e, j + 1);
    assert forall k :: 0 <= k < |run| ==> longer[k] == run[k];
    if Expired(run, j) {
      var k :| f <= k < |run| && run[k].now - run[f].now >= SHARED_RETURN_DELAY;
      assert longer[k].now - longer[f].now >= SHARED_RETURN_DELAY;
    }
    if f < |run| && e.now - run[f].now >= SHARED_RETURN_DELAY {
      assert longer[|run|].now - longer[f].now >= SHARED_RETURN_DELAY;
    }
  }

  /** One more evaluation under the same policy moves the declared tier and timer as the code moves its state. */
  lemma DeclaredStep(run: seq<Evaluation>, e: Evaluation, states: States, service: string)
    requires run != [] && service in states
    requires states[service].policy == e.policy
    requires states[service].tier == DeclaredTier(run) && states[service].belowSince == DeclaredTimer(run)
    ensures NextState(states, service, e).tier == DeclaredTier(run + [e])
    ensures NextState(states, service, e).belowSince == DeclaredTimer(run + [e])
  {
    LastDedicatedSnoc(run, e);
    if e.tier != Shared {
      DeclaredDedicated(run, e);
    } else if LastDedicated(run) >= 0 {
      ExpiredSnoc(run, e, LastDedicated(run));
      TimerStartSnoc(run, e, LastDedicated(run) + 1);
    }
  }

  lemma DeclaredDedicated(run: seq<Evaluation>, e: Evaluation)
    requires e.tier != Shared
    ensures DeclaredTier(run + [e]) == e.tier && DeclaredTimer(run + [e]) == UNSET
  {
    LastDedicatedSnoc(run, e);
    assert TimerStart(run + [e], |run| + 1) == |run| + 1;
    assert !Expired(run + [e], |run|);
  }

  lemma DeclaredSingle(e: Evaluation)
    ensures DeclaredTier([e]) == e.tier && DeclaredTimer([e]) == UNSET
  {
    LastDedicatedSnoc([], e);
    assert [] + [e] == [e];
  }

  /** What one more evaluation makes of the relevant run. */
  function Extended(run: seq<Evaluation>, e: Evaluation): seq<Evaluation> {
    if run != [] && run[|run| - 1].policy == e.policy then run + [e] else [e]
  }

  lemma FreshSnoc(seen: seq<Evaluation>, e: Evaluation)
    ensures Fresh(seen + [e]) ==
      if Outdated(seen, e) then Fresh(seen) else Fresh(seen) + [e]
  {
    assert (seen + [e])[..|seen|] == seen;
  }

  lemma SuffixSnoc(kept: seq<Evaluation>, e: Evaluation)
    ensures var run := kept[SuffixStart(kept)..];
      (kept + [e])[SuffixStart(kept + [e])..] == Extended(run, e)
  {
    var longer, start := kept + [e], SuffixStart(kept);
    if kept != [] {
      assert kept[start..][|kept| - start - 1] == kept[|kept| - 1];
      if kept[|kept| - 1].policy == e.policy {
        assert longer[..|kept|] == kept;
        assert SuffixStart(longer) == start;
        assert longer[start..] == kept[start..] + [e];
      } else {
        assert SuffixStart(longer) == |kept|;
      }
    }
  }

  /** How the relevant run grows with one more evaluation. */
  lemma RelevantSnoc(history: seq<Event>, service: string, e: Evaluation)
    ensures var run := Relevant(history, service);
      Relevant(history + [Evaluate(service, e)], service) ==
      if Outdated(Evaluations(history, service), e) then run else Extended(run, e)
  {
    var longer, seen := history + [Evaluate(service, e)], Evaluations(history, service);
    assert longer[..|history|] == history;
    assert Evaluations(longer, service) == seen + [e];
    FreshSnoc(seen, e);
    if !Outdated(seen, e) {
      SuffixSnoc(Fresh(seen), e);
    }
  }

  ghost predicate NewestIs(seen: seq<Evaluation>, revision: nat) {
    && (forall i :: 0 <= i < |seen| ==> seen[i].revision <= revision)
    && (exists i :: 0 <= i < |seen| && seen[i].revision == revision)
  }

  /** The stored state of `service` is the one declared by the evaluations seen and the relevant run of them. */
  ghost predicate Matches(states: States, service: string, seen: seq<Evaluation>, run: seq<Evaluation>) {
    && (service in states <==> seen != [])
    && (service in states <==> run != [])
    && (service in states ==>
      && states[service].revision == run[|run| - 1].revision
      && states[service].policy == run[|run| - 1].policy
      && states[service].tier == DeclaredTier(run)
      && states[service].belowSince == DeclaredTimer(run)
      && NewestIs(seen, states[service].revision))
  }

  ghost predicate Agrees(states: States, history: seq<Event>, service: string) {
    Matches(states, service, Evaluations(history, service), Relevant(history, service))
  }

  lemma StaleKeepsMatching(states: States, service: string, seen: seq<Evaluation>, run: seq<Evaluation>, e: Evaluation)
    requires Matches(states, service, seen, run) && IsStale(states, service, e)
    ensures Matches(states, service, seen + [e], run)
    ensures Outdated(seen, e)
  {
    var i :| 0 <= i < |seen| && seen[i].revision == states[service].revision;
    assert seen[i].revision > e.revision;
    assert (seen + [e])[i] == seen[i];
  }

  lemma FreshIsNotOutdated(states: States, service: string, seen: seq<Evaluation>, run: seq<Evaluation>, e: Evaluation)
    requires Matches(states, service, seen, run) && !IsStale(states, service, e)
    ensures !Outdated(seen, e)
  {
  }

  /** The tier and the timer move as declared. */
  lemma FreshMovesAsDeclared(states: States, service: string, seen: seq<Evaluation>, run: seq<Evaluation>, e: Evaluation)
    requires Matches(states, service, seen, run)
    ensures NextState(states, service, e).tier == DeclaredTier(Extended(run, e))
    ensures NextState(states, service, e).belowSince == DeclaredTimer(Extended(run, e))
    ensures NextState(states, service, e).policy == e.policy && NextState(states, service, e).revision == e.revision
  {
    if run != [] && run[|run| - 1].policy == e.policy {
      DeclaredStep(run, e, states, service);
    } else {
      DeclaredSingle(e);
    }
  }

  lemma FreshKeepsMatching(states: States, service: string, seen: seq<Evaluation>, run: seq<Evaluation>, e: Evaluation)
    requires Matches(states, service, seen, run) && !IsStale(states, service, e)
    ensures Matches(Apply(states, Evaluate(service, e)), service, seen + [e], Extended(run, e))
    ensures Answer(states, service, e) == DeclaredTier(Extended(run, e))
  {
    FreshIsNotOutdated(states, service, seen, run, e);
    FreshMovesAsDeclared(states, service, seen, run, e);
    assert Extended(run, e)[|Extended(run, e)| - 1] == e;
    assert (seen + [e])[|seen|].revision == e.revision;
    forall i | 0 <= i < |seen + [e]| ensures (seen + [e])[i].revision <= e.revision {
      assert i < |seen| ==> (seen + [e])[i] == seen[i];
    }
  }

  lemma DeclaredWhenFresh(history: seq<Event>, service: string, e: Evaluation)
    requires !Outdated(Evaluations(history, service), e)
    ensures Relevant(history + [Evaluate(service, e)], service) == Extended(Relevant(history, service), e)
    ensures DeclaredAnswer(history, service, e) == DeclaredTier(Extended(Relevant(history, service), e))
  {
    RelevantSnoc(history, service, e);
  }

  lemma DeclaredWhenStale(history: seq<Event>, service: string, e: Evaluation)
    requires Outdated(Evaluations(history, service), e)
    ensures Relevant(history + [Evaluate(service, e)], service) == Relevant(history, service)
    ensures var run := Relevant(history, service);
      DeclaredAnswer(history, service, e) ==
      if e.tier == Shared && run != [] && run[|run| - 1].policy == e.policy then DeclaredTier(run) else e.tier
  {
    RelevantSnoc(history, service, e);
  }

  lemma AgreesAfterEvaluation(states: States, history: seq<Event>, service: string, e: Evaluation)
    requires Agrees(states, history, service)
    ensures Agrees(Apply(states, Evaluate(service, e)), history + [Evaluate(service, e)], service)
    ensures Answer(states, service, e) == DeclaredAnswer(history, service, e)
  {
    var longer := history + [Evaluate(service, e)];
    var seen, run := Evaluations(history, service), Relevant(history, service);
    assert Evaluations(longer, service) == seen + [e] by {
      assert longer[..|history|] == history;
    }
    if IsStale(states, service, e) {
      StaleKeepsMatching(states, service, seen, run, e);
      DeclaredWhenStale(history, service, e);
    } else {
      FreshIsNotOutdated(states, service, seen, run, e);
      FreshKeepsMatching(states, service, seen, run, e);
      DeclaredWhenFresh(history, service, e);
    }
  }

  lemma OthersKeepMatching(states: States, next: States, service: string, seen: seq<Evaluation>, run: seq<Evaluation>)
    requires Matches(states, service, seen, run) && SameFor(states, next, service)
    ensures Matches(next, service, seen, run)
  {
  }

  lemma OthersLeaveNoTrace(history: seq<Event>, service: string, event: Event)
    requires event.service != service
    ensures Evaluations(history + [event], service) == Evaluations(history, service)
    ensures Relevant(history + [event], service) == Relevant(history, service)
  {
    assert (history + [event])[..|history|] == history;
  }

  lemma AgreesAfterOthers(states: States, history: seq<Event>, service: string, event: Event)
    requires Agrees(states, history, service) && event.service != service
    ensures Agrees(Apply(states, event), history + [event], service)
  {
    OthersLeaveNoTrace(history, service, event);
    OthersKeepMatching(states, Apply(states, event), service, Evaluations(history, service), Relevant(history, service));
  }

  lemma AgreesWhenForgotten(states: States, history: seq<Event>, service: string)
    requires service !in states && Evaluations(history, service) == []
    ensures Agrees(states, history, service)
  {
    assert Fresh([]) == [];
  }

  /** After any run of evaluations and deletions the stored state is the declared function of the history. */
  lemma {:induction false} StateIsDeclared(history: seq<Event>, service: string)
    ensures Agrees(Run(history), history, service)
  {
    if history == [] {
      AgreesWhenForgotten(Run(history), history, service);
      return;
    }
    var n := |history| - 1;
    var before, event := history[..n], history[n];
    StateIsDeclared(before, service);
    assert before + [event] == history;
    if event.service != service {
      AgreesAfterOthers(Run(before), before, service, event);
    } else if event.Delete? {
      AgreesWhenForgotten(Run(history), history, service);
    } else {
      AgreesAfterEvaluation(Run(before), before, service, event.evaluation);
    }
  }

  /** Every answer is the declared one. */
  lemma AnswerIsDeclared(history: seq<Event>, service: string, e: Evaluation)
    ensures Answer(Run(history), service, e) == DeclaredAnswer(history, service, e)
  {
    StateIsDeclared(history, service);
    AgreesAfterEvaluation(Run(history), history, service, e);
  }

  lemma RunSnoc(history: seq<Event>, event: Event)
    ensures Run(history + [event]) == Apply(Run(history), event)
  {
    assert (history + [event])[..|history|] == history;
  }

  /** Whatever went on before: a service that reached a tier, then twice stayed below every threshold, `gap` apart, under
      one policy and with a clock that is set, is back in the shared pool exactly when the gap is at least thirty seconds. */
  lemma ReturnsAfterThirtySeconds(history: seq<Event>, service: string, e: Evaluation, below: int, gap: int)
    requires e.tier != Shared && !IsStale(Run(history), service, e) && below != UNSET && gap >= 0
    ensures var longer := history + [Evaluate(service, e)] + [Evaluate(service, Evaluation(e.revision, e.policy, Shared, below))];
      Answer(Run(longer), service, Evaluation(e.revision, e.policy, Shared, below + gap)) ==
      if gap >= 30_000_000_000 then Shared else e.tier
  {
    RunSnoc(history, Evaluate(service, e));
    RunSnoc(history + [Evaluate(service, e)], Evaluate(service, Evaluation(e.revision, e.policy, Shared, below)));
  }

  /** A deleted service, a changed policy or a dedicated tier takes effect at once. */
  lemma TakesEffectAtOnce(history: seq<Event>, service: string, e: Evaluation)
    ensures Answer(Run(history + [Event.Delete(service)]), service, e) == e.tier
    ensures service in Run(history) && Run(history)[service].policy != e.policy ==> Answer(Run(history), service, e) == e.tier
    ensures e.tier != Shared ==> Answer(Run(history), service, e) == e.tier
  {
    RunSnoc(history, Event.Delete(service));
  }

  /** An evaluation on an older snapshot decides for itself, except that below every threshold of the current policy it
      answers the tier the service has; and it changes nothing. */
  lemma StaleAnswersCurrentTier(history: seq<Event>, service: string, e: Evaluation, stale: Evaluation)
    requires !IsStale(Run(history), service, e) && e.tier != Shared && stale.revision < e.revision
    ensures var longer := history + [Evaluate(service, e)];
      && Run(longer + [Evaluate(service, stale)]) == Run(longer)
      && Answer(Run(longer), service, stale) == if stale.policy == e.policy && stale.tier == Shared then e.tier else stale.tier
  {
    RunSnoc(history, Evaluate(service, e));
    RunSnoc(history + [Evaluate(service, e)], Evaluate(service, stale));
  }

  predicate SameFor(a: States, b: States, service: string) {
    (service in a <==> service in b) && (service in a ==> a[service] == b[service])
  }

  lemma SameForStep(a: States, b: States, event: Event, service: string)
    requires SameFor(a, b, service)
    ensures SameFor(Apply(a, event), Apply(b, event), service)
  {
  }

  /** Evaluations from older snapshots and events of other services leave no trace in later answers. */
  lemma {:induction false} NoInterference(before: seq<Event>, extra: Event, after: seq<Event>, service: string, e: Evaluation)
    requires extra.service == service ==> extra.Evaluate? && IsStale(Run(before), service, extra.evaluation)
    ensures SameFor(Run(before + [extra] + after), Run(before + after), service)
    ensures Answer(Run(before + [extra] + after), service, e) == Answer(Run(before + after), service, e)
  {
    var with, without := before + [extra] + after, before + after;
    if after == [] {
      assert with == before + [extra] && without == before;
      assert with[..|with| - 1] == before;
    } else {
      var n := |after| - 1;
      NoInterference(before, extra, after[..n], service, e);
      assert with[..|with| - 1] == before + [extra] + after[..n];
      assert without[..|without| - 1] == before + after[..n];
      SameForStep(Run(before + [extra] + after[..n]), Run(before + after[..n]), after[n], service);
    }
  }
}
