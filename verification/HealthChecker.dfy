/** The counters and status of one check loop (`internal/health/checker.go`) as a function of its outcomes. */
module HealthChecker {
  import opened HealthBackoff
  import opened HealthModel
  import opened HealthStore

  /** The loop's own variables. */
  datatype LoopState = LoopState(status: Status, failures: nat, successes: nat)

  const Fresh := LoopState(Unknown, 0, 0)

  /** One check: `ok` is the outcome. */
  function Tick(state: LoopState, settings: RuntimeSettings, ok: bool): LoopState {
    if ok then
      var successes := state.successes + 1;
      LoopState(if successes >= settings.successThreshold then Healthy else state.status, 0, successes)
    else
      var failures := state.failures + 1;
      LoopState(if failures >= settings.failureThreshold then Unhealthy else state.status, failures, 0)
  }

  /** How many outcomes at the end are all `value`. */
  function TrailingRun(outcomes: seq<bool>, value: bool): nat {
    if outcomes == [] || outcomes[|outcomes| - 1] != value then 0
    else TrailingRun(outcomes[..|outcomes| - 1], value) + 1
  }

  function Threshold(settings: RuntimeSettings, value: bool): int {
    if value then settings.successThreshold else settings.failureThreshold
  }

  /** The status of the latest position whose trailing run reached its threshold. */
  function Verdict(outcomes: seq<bool>, settings: RuntimeSettings): Status {
    if outcomes == [] then Unknown
    else
      var n := |outcomes| - 1;
      if TrailingRun(outcomes, outcomes[n]) >= Threshold(settings, outcomes[n])
      then if outcomes[n] then Healthy else Unhealthy
      else Verdict(outcomes[..n], settings)
  }

  function StateAfter(outcomes: seq<bool>, settings: RuntimeSettings): LoopState {
    LoopState(Verdict(outcomes, settings), TrailingRun(outcomes, false), TrailingRun(outcomes, true))
  }

  /** The loop's variables are always the trailing runs and the verdict of everything it has seen. */
  lemma TickIsVerdict(outcomes: seq<bool>, settings: RuntimeSettings, ok: bool)
    ensures Tick(StateAfter(outcomes, settings), settings, ok) == StateAfter(outcomes + [ok], settings)
  {
    assert (outcomes + [ok])[..|outcomes|] == outcomes;
  }

  /** The `threshold` outcomes before position `p` are all `value`. */
  predicate FullRun(outcomes: seq<bool>, p: int, value: bool, threshold: int) {
    0 < threshold <= p <= |outcomes| && forall i :: p - threshold <= i < p ==> outcomes[i] == value
  }

  lemma {:induction false} TrailingRunReaches(outcomes: seq<bool>, value: bool, threshold: int)
    requires threshold > 0
    ensures TrailingRun(outcomes, value) >= threshold <==> FullRun(outcomes, |outcomes|, value, threshold)
  {
    if outcomes != [] && outcomes[|outcomes| - 1] == value && threshold > 1 {
      var front := outcomes[..|outcomes| - 1];
      TrailingRunReaches(front, value, threshold - 1);
      if FullRun(front, |front|, value, threshold - 1) {
        forall i | |outcomes| - threshold <= i < |outcomes| ensures outcomes[i] == value {
          assert i < |front| ==> front[i] == value;
        }
      }
      if FullRun(outcomes, |outcomes|, value, threshold) {
        forall i | |front| - (threshold - 1) <= i < |front| ensures front[i] == value {
          assert front[i] == outcomes[i];
        }
      }
    }
  }

  predicate NoFullRunAfter(outcomes: seq<bool>, p: int, value: bool, threshold: int) {
    forall q :: p < q <= |outcomes| ==> !FullRun(outcomes, q, value, threshold)
  }

  /** Some full run of `value` ends at a position after which no full run of the opposite ends. */
  ghost predicate LatestRunIs(outcomes: seq<bool>, settings: RuntimeSettings, value: bool) {
    exists p :: FullRun(outcomes, p, value, Threshold(settings, value))
             && NoFullRunAfter(outcomes, p, !value, Threshold(settings, !value))
  }

  lemma FullRunOfPrefix(outcomes: seq<bool>, n: nat, p: int, value: bool, threshold: int)
    requires p <= n <= |outcomes|
    ensures FullRun(outcomes[..n], p, value, threshold) <==> FullRun(outcomes, p, value, threshold)
  {
    if FullRun(outcomes[..n], p, value, threshold) {
      forall i | p - threshold <= i < p ensures outcomes[i] == value {
        assert outcomes[..n][i] == outcomes[i];
      }
    }
  }

  lemma NoFullRunOfPrefix(outcomes: seq<bool>, p: int, value: bool, threshold: int)
    requires outcomes != [] && !FullRun(outcomes, |outcomes|, value, threshold)
    ensures NoFullRunAfter(outcomes[..|outcomes| - 1], p, value, threshold) <==> NoFullRunAfter(outcomes, p, value, threshold)
  {
    var n := |outcomes| - 1;
    forall q | q <= n ensures FullRun(outcomes[..n], q, value, threshold) <==> FullRun(outcomes, q, value, threshold) {
      FullRunOfPrefix(outcomes, n, q, value, threshold);
    }
  }

  lemma LatestRunOfPrefix(outcomes: seq<bool>, settings: RuntimeSettings, value: bool)
    requires outcomes != []
    requires !FullRun(outcomes, |outcomes|, value, Threshold(settings, value))
    requires !FullRun(outcomes, |outcomes|, !value, Threshold(settings, !value))
    ensures LatestRunIs(outcomes, settings, value) <==> LatestRunIs(outcomes[..|outcomes| - 1], settings, value)
  {
    var front, t := outcomes[..|outcomes| - 1], Threshold(settings, value);
    if LatestRunIs(outcomes, settings, value) {
      var p :| FullRun(outcomes, p, value, t) && NoFullRunAfter(outcomes, p, !value, Threshold(settings, !value));
      FullRunOfPrefix(outcomes, |front|, p, value, t);
      NoFullRunOfPrefix(outcomes, p, !value, Threshold(settings, !value));
    }
    if LatestRunIs(front, settings, value) {
      var p :| FullRun(front, p, value, t) && NoFullRunAfter(front, p, !value, Threshold(settings, !value));
      FullRunOfPrefix(outcomes, |front|, p, value, t);
      NoFullRunOfPrefix(outcomes, p, !value, Threshold(settings, !value));
    }
  }

  lemma OppositeIsNotLatest(outcomes: seq<bool>, settings: RuntimeSettings, value: bool)
    requires FullRun(outcomes, |outcomes|, value, Threshold(settings, value)) && outcomes[|outcomes| - 1] == value
    ensures !LatestRunIs(outcomes, settings, !value)
  {
    forall p | FullRun(outcomes, p, !value, Threshold(settings, !value))
      ensures !NoFullRunAfter(outcomes, p, value, Threshold(settings, value))
    {
      assert p != |outcomes| && p <= |outcomes|;
    }
  }

  /** The verdict, said without recursion: Unhealthy exactly when a full run of failures is followed by no full run
      of successes, Healthy the other way round; so a status changes only when a full run ends. */
  lemma {:induction false} VerdictIsLatestRun(outcomes: seq<bool>, settings: RuntimeSettings)
    requires 0 < settings.failureThreshold && 0 < settings.successThreshold
    ensures Verdict(outcomes, settings) == Unhealthy <==> LatestRunIs(outcomes, settings, false)
    ensures Verdict(outcomes, settings) == Healthy <==> LatestRunIs(outcomes, settings, true)
  {
    if outcomes == [] {
      return;
    }
    var n := |outcomes| - 1;
    var last := outcomes[n];
    TrailingRunReaches(outcomes, last, Threshold(settings, last));
    assert !FullRun(outcomes, |outcomes|, !last, Threshold(settings, !last));
    if FullRun(outcomes, |outcomes|, last, Threshold(settings, last)) {
      assert NoFullRunAfter(outcomes, |outcomes|, !last, Threshold(settings, !last));
      OppositeIsNotLatest(outcomes, settings, last);
    } else {
      VerdictIsLatestRun(outcomes[..n], settings);
      LatestRunOfPrefix(outcomes, settings, false);
      LatestRunOfPrefix(outcomes, settings, true);
    }
  }

  /** `run`, when nothing else touches the store: one iteration per outcome, each publishing its result. */
  method Run(store: Store, healthKey: string, generation: nat, settings: RuntimeSettings, jitter: int, outcomes: seq<bool>)
    returns (interval: int)
    requires 0 < settings.interval <= MAX_INT64 && 0 < settings.maxBackoff <= MAX_INT64
    modifies store
    ensures store.records ==
      if outcomes == [] then old(store.records)
      else
        var state := StateAfter(outcomes, settings);
        WithResult(old(store.records), healthKey, StatusRecord(state.status, state.failures, state.successes, generation))
    ensures interval == Wrap64(
      Backoff(settings.interval, settings.maxBackoff, Rounds(settings.failureThreshold, TrailingRun(outcomes, false))) + jitter)
  {
    ghost var rounds;
    interval, rounds := NextInterval(settings, jitter, 0);
    var status, failures, successes := Unknown, 0, 0;
    ghost var records := store.records;
    for i := 0 to |outcomes|
      invariant LoopState(status, failures, successes) == StateAfter(outcomes[..i], settings)
      invariant store.records == if i == 0 then records
        else WithResult(records, healthKey, StatusRecord(status, failures, successes, generation))
      invariant interval == Wrap64(
        Backoff(settings.interval, settings.maxBackoff, Rounds(settings.failureThreshold, failures)) + jitter)
    {
      TickIsVerdict(outcomes[..i], settings, outcomes[i]);
      assert outcomes[..i] + [outcomes[i]] == outcomes[..i + 1];
      if outcomes[i] {
        successes := successes + 1;
        failures := 0;
        if successes >= settings.successThreshold {
          status := Healthy;
        }
      } else {
        failures := failures + 1;
        successes := 0;
        if failures >= settings.failureThreshold {
          status := Unhealthy;
        }
      }
      var previous, updated := store.UpdateStatus(healthKey, generation, status, failures, successes);
      interval, rounds := NextInterval(settings, jitter, failures);
    }
    assert outcomes[..|outcomes|] == outcomes;
  }
}
