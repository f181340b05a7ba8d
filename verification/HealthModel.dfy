/** The entities of `internal/health/model.go`. Durations are nanoseconds. */
module HealthModel {
  datatype Status = Unknown | Healthy | Unhealthy

  datatype TargetKey = TargetKey(serviceName: string, scheme: string, host: string, port: string, healthKey: string)

  datatype RuntimeSettings = RuntimeSettings(
    enabled: bool,
    path: string,
    interval: int,
    timeout: int,
    jitter: int,
    maxBackoff: int,
    failureThreshold: int,
    successThreshold: int)

  /** A target the snapshot asks for; its address is part of its key. */
  datatype DesiredTarget = DesiredTarget(settings: RuntimeSettings, jitter: int)

  /** A target whose check loop is running, identified by its generation. */
  datatype Target = Target(settings: RuntimeSettings, jitter: int, generation: nat)
}
