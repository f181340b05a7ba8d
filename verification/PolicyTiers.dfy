/** Tier decision of `internal/pool/policy/store.go`. */
module PolicyTiers {
  import opened ConfigModel
  import opened Wrappers
  import opened TrafficRecord

  datatype Tier = Shared | Normal | Hot | Super

  datatype PoolInfo = PoolInfo(configKey: string, normal: ThresholdPoint, hot: ThresholdPoint, super: ThresholdPoint)

  /** The zero value, used when a service has no thresholds. */
  const NO_POLICY := PoolInfo("", ThresholdPoint(0.0, 0), ThresholdPoint(0.0, 0), ThresholdPoint(0.0, 0))

  /** `thresholdReached`: a limit of zero or less is switched off. */
  predicate ThresholdReached(status: TrafficStatus, threshold: ThresholdPoint) {
    || (threshold.rps > 0.0 && status.rps >= threshold.rps)
    || (threshold.inFlight > 0 && status.inFlight >= threshold.inFlight)
  }

  function DecideTier(status: TrafficStatus, policy: PoolInfo): Tier {
    if ThresholdReached(status, policy.super) then Super
    else if ThresholdReached(status, policy.hot) then Hot
    else if ThresholdReached(status, policy.normal) then Normal
    else Shared
  }

  function Rank(tier: Tier): nat {
    match tier case Shared => 0 case Normal => 1 case Hot => 2 case Super => 3
  }

  function ThresholdOf(policy: PoolInfo, tier: Tier): ThresholdPoint
    requires tier != Shared
  {
    match tier case Normal => policy.normal case Hot => policy.hot case Super => policy.super
  }

  /** More traffic under the same policy never lowers the tier. */
  lemma DecideTierIsMonotone(low: TrafficStatus, high: TrafficStatus, policy: PoolInfo)
    requires low.rps <= high.rps && low.inFlight <= high.inFlight
    ensures Rank(DecideTier(low, policy)) <= Rank(DecideTier(high, policy))
  {
  }

  /** The decision is the highest tier whose threshold is reached. */
  lemma DecideTierIsHighest(status: TrafficStatus, policy: PoolInfo, tier: Tier)
    requires tier != Shared
    ensures ThresholdReached(status, ThresholdOf(policy, tier)) ==> Rank(tier) <= Rank(DecideTier(status, policy))
    ensures DecideTier(status, policy) == tier ==> ThresholdReached(status, ThresholdOf(policy, tier))
  {
  }

  /** `policyFor`. */
  function PolicyFor(snapshot: Snapshot, serviceName: string): Option<PoolInfo> {
    if serviceName == "" || serviceName !in snapshot.services || snapshot.services[serviceName].threshold == None then None
    else
      var threshold := snapshot.services[serviceName].threshold.value;
      Some(PoolInfo(serviceName, threshold.normal, threshold.hot, threshold.super))
  }
}
