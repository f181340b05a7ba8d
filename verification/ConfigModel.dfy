/** The entities of `internal/config/model.go`, in normalised form. Durations are nanoseconds. */
module ConfigModel {
  import opened Wrappers

  /** The authentication settings are not interpreted by this model. */
  datatype GlobalSettings = GlobalSettings(auth: string)

  /** `None` stands for a value left blank. */
  datatype HealthSettings = HealthSettings(
    enabled: Option<bool>,
    path: string,
    interval: Option<int>,
    timeout: Option<int>,
    jitter: Option<int>,
    maxBackoff: Option<int>,
    failureThreshold: int,
    successThreshold: int)

  datatype ThresholdPoint = ThresholdPoint(rps: real, inFlight: int)

  datatype ThresholdSettings = ThresholdSettings(normal: ThresholdPoint, hot: ThresholdPoint, super: ThresholdPoint)

  datatype EndpointSettings = EndpointSettings(path: string, httpMethod: string, roles: seq<string>)

  datatype InstanceSettings = InstanceSettings(scheme: string, host: string, port: string, healthKey: string)

  /** What a service sends to register one of its instances. */
  datatype Settings = Settings(
    serviceName: string,
    global: Option<GlobalSettings>,
    health: Option<HealthSettings>,
    threshold: Option<ThresholdSettings>,
    endpoints: seq<EndpointSettings>,
    instance: Option<InstanceSettings>)

  datatype ServiceSettings = ServiceSettings(
    serviceName: string,
    global: GlobalSettings,
    health: HealthSettings,
    threshold: Option<ThresholdSettings>,
    endpoints: seq<EndpointSettings>,
    instances: seq<InstanceSettings>)

  datatype RouteKey = RouteKey(httpMethod: string, path: string)

  datatype RouteEntry = RouteEntry(serviceName: string, path: string, httpMethod: string, roles: seq<string>)

  datatype Snapshot = Snapshot(
    revision: nat,
    services: map<string, ServiceSettings>,
    routes: map<RouteKey, RouteEntry>,
    wildcardRoutes: seq<RouteEntry>)

  const EmptySnapshot := Snapshot(0, map[], map[], [])
}
