/**
  * Normalisation of `internal/config/normalize.go` on values whose strings are already trimmed and case-folded
  * and whose durations are already parsed.
  */
module ConfigNormalize {
  import opened ConfigModel
  import opened Wrappers

  datatype ConfigError =
    | ServiceNameRequired
    | GlobalRequired
    | EndpointsRequired
    | InstanceRequired
    | InvalidInstance
    | InvalidHealth
    | PathRequired
    | MethodRequired
    | RoleRequired
    | DuplicateRoute(key: RouteKey)
    | RouteOwned(key: RouteKey, owner: string)
    | ServiceNotFound
    | InstanceNotFound
    | ValidatorMissing
    | ValidatorRejected

  const SECOND: int := 1_000_000_000

  /** The longest duration; parsing refuses longer ones. */
  const MAX_DURATION: int := 0x7fff_ffff_ffff_ffff

  const DEFAULT_HEALTH_PATH := "/actuator/health"
  const DEFAULT_HEALTH_INTERVAL := 5 * SECOND
  const DEFAULT_HEALTH_TIMEOUT := 2 * SECOND
  const DEFAULT_HEALTH_JITTER := 2 * SECOND
  const DEFAULT_HEALTH_MAX_BACKOFF := 300 * SECOND
  const DEFAULT_HEALTH_FAILURE_THRESHOLD := 2
  const DEFAULT_HEALTH_SUCCESS_THRESHOLD := 1

  const DefaultHealthSettings := HealthSettings(Some(true), DEFAULT_HEALTH_PATH, Some(DEFAULT_HEALTH_INTERVAL),
    Some(DEFAULT_HEALTH_TIMEOUT), Some(DEFAULT_HEALTH_JITTER), Some(DEFAULT_HEALTH_MAX_BACKOFF),
    DEFAULT_HEALTH_FAILURE_THRESHOLD, DEFAULT_HEALTH_SUCCESS_THRESHOLD)

  // Instances and their health keys.

  function HealthKeyFor(serviceName: string, scheme: string, host: string, port: string): string {
    serviceName + "|" + scheme + "|" + host + "|" + port
  }

  predicate ValidScheme(scheme: string) {
    scheme == "http" || scheme == "https"
  }

  predicate IsDigits(text: string) {
    forall i :: 0 <= i < |text| ==> '0' <= text[i] <= '9'
  }

  function DecimalValue(digits: string): int
    requires IsDigits(digits)
  {
    if digits == "" then 0
    else DecimalValue(digits[..|digits| - 1]) * 10 + (digits[|digits| - 1] as int - '0' as int)
  }

  predicate ValidPort(port: string) {
    port != "" && IsDigits(port) && 0 < DecimalValue(port) <= 65535
  }

  predicate IsSpace(c: char) {
    c in {' ', '\t', '\n', '\r'}
  }

  /** Brackets do not survive the join and split of host and port; the other characters are refused outright. */
  predicate HostCharacters(text: string) {
    forall i :: 0 <= i < |text| ==> text[i] !in {'/', '?', '#', '@', '[', ']'}
  }

  predicate ValidHost(host: string) {
    host != "" && HostCharacters(host) && !IsSpace(host[0]) && !IsSpace(host[|host| - 1])
  }

  function NormalizeInstance(serviceName: string, instance: InstanceSettings): Result<InstanceSettings, ConfigError> {
    if serviceName == "" then Failure(ServiceNameRequired)
    else if !ValidScheme(instance.scheme) || !ValidHost(instance.host) || !ValidPort(instance.port) then Failure(InvalidInstance)
    else Success(instance.(healthKey := HealthKeyFor(serviceName, instance.scheme, instance.host, instance.port)))
  }

  /** Scheme, host and port survive; the health key is made anew from them, whatever was given. */
  lemma NormalizeInstanceKeepsAddress(serviceName: string, instance: InstanceSettings)
    ensures var r := NormalizeInstance(serviceName, instance);
      && (r.Success? <==>
           && serviceName != "" && instance.scheme in {"http", "https"} && ValidPort(instance.port)
           && instance.host != ""
           && (forall i :: 0 <= i < |instance.host| ==> instance.host[i] !in {'/', '?', '#', '@', '[', ']'})
           && instance.host[0] !in {' ', '\t', '\n', '\r'} && instance.host[|instance.host| - 1] !in {' ', '\t', '\n', '\r'})
      && (r.Success? ==> r.value == InstanceSettings(instance.scheme, instance.host, instance.port,
           serviceName + "|" + instance.scheme + "|" + instance.host + "|" + instance.port))
      && (r.Failure? ==> r.error == if serviceName == "" then ServiceNameRequired else InvalidInstance)
  {
  }

  /** A number in decimal notation. */
  function Decimal(n: nat): (text: string)
    ensures text != ""
    ensures forall i :: 0 <= i < |text| ==> '0' <= text[i] <= '9'
  {
    if n < 10 then [('0' as int + n) as char] else Decimal(n / 10) + [('0' as int + n % 10) as char]
  }

  lemma {:induction false} DecimalValueOf(n: nat)
    ensures DecimalValue(Decimal(n)) == n
  {
    if n < 10 {
      assert Decimal(n)[..0] == "";
    } else {
      DecimalValueOf(n / 10);
      assert Decimal(n)[..|Decimal(n)| - 1] == Decimal(n / 10);
    }
  }

  /** A port written in decimal is accepted exactly from 1 to 65535; a text with anything but digits is not. */
  lemma ValidPortIff(n: nat, text: string, i: nat)
    requires i < |text| && !('0' <= text[i] <= '9')
    ensures ValidPort(Decimal(n)) <==> 1 <= n <= 65535
    ensures !ValidPort(text)
  {
    DecimalValueOf(n);
  }

  /** An instance as it stands in a snapshot. */
  predicate NormalInstance(serviceName: string, instance: InstanceSettings) {
    && ValidScheme(instance.scheme) && ValidHost(instance.host) && ValidPort(instance.port)
    && instance.healthKey == HealthKeyFor(serviceName, instance.scheme, instance.host, instance.port)
  }

  /** The part of a health key that comes before the host. */
  function KeyHead(serviceName: string, scheme: string): string {
    serviceName + "|" + scheme + "|"
  }

  /** Text without `|` after the last `|` separator is determined by the whole. */
  lemma LastBarSplits(a: string, b: string, p: string, q: string)
    requires a + "|" + p == b + "|" + q && '|' !in p && '|' !in q
    ensures a == b && p == q
  {
    var whole := a + "|" + p;
    assert whole[|a|] == '|' && whole[|b|] == '|';
    assert forall i :: |a| < i < |whole| ==> whole[i] == p[i - |a| - 1];
    assert forall i :: |b| < i < |whole| ==> whole[i] == q[i - |b| - 1];
    assert |a| == |b|;
    assert a == whole[..|a|] && b == whole[..|b|];
    assert p == whole[|a| + 1..] && q == whole[|b| + 1..];
  }

  /** Two services can own instances with the same health key exactly when the head of one's keys is a prefix of
      the head of the other's; the hosts then absorb the difference. */
  lemma HealthKeysCollideIff(service1: string, scheme1: string, service2: string, scheme2: string)
    requires ValidScheme(scheme1) && ValidScheme(scheme2)
    ensures (exists host1, host2, port1, port2 ::
        && ValidHost(host1) && ValidHost(host2) && ValidPort(port1) && ValidPort(port2)
        && HealthKeyFor(service1, scheme1, host1, port1) == HealthKeyFor(service2, scheme2, host2, port2))
      <==> Absorbs(service1, scheme1, service2, scheme2) || Absorbs(service2, scheme2, service1, scheme1)
  {
    forall host1, host2, port1, port2 |
      && ValidHost(host1) && ValidHost(host2) && ValidPort(port1) && ValidPort(port2)
      && HealthKeyFor(service1, scheme1, host1, port1) == HealthKeyFor(service2, scheme2, host2, port2)
      ensures Absorbs(service1, scheme1, service2, scheme2) || Absorbs(service2, scheme2, service1, scheme1)
    {
      SameKeySameTail(service1, scheme1, host1, port1, service2, scheme2, host2, port2);
    }
    if Absorbs(service1, scheme1, service2, scheme2) {
      AbsorbingHost(service1, scheme1, service2, scheme2);
    } else if Absorbs(service2, scheme2, service1, scheme1) {
      AbsorbingHost(service2, scheme2, service1, scheme1);
    }
  }

  /** Every key of the second service can also be one of the first, with more of the key taken as host. */
  predicate Absorbs(service1: string, scheme1: string, service2: string, scheme2: string) {
    var head1, head2 := KeyHead(service1, scheme1), KeyHead(service2, scheme2);
    head1 <= head2 &&
      var rest := head2[|head1|..];
      HostCharacters(rest) && (rest != "" ==> !IsSpace(rest[0]))
  }

  lemma SameKeySameTail(service1: string, scheme1: string, host1: string, port1: string,
                        service2: string, scheme2: string, host2: string, port2: string)
    requires ValidPort(port1) && ValidPort(port2) && ValidHost(host1) && ValidHost(host2)
    requires HealthKeyFor(service1, scheme1, host1, port1) == HealthKeyFor(service2, scheme2, host2, port2)
    ensures port1 == port2 && KeyHead(service1, scheme1) + host1 == KeyHead(service2, scheme2) + host2
    ensures Absorbs(service1, scheme1, service2, scheme2) || Absorbs(service2, scheme2, service1, scheme1)
  {
    var head1, head2 := KeyHead(service1, scheme1), KeyHead(service2, scheme2);
    assert HealthKeyFor(service1, scheme1, host1, port1) == head1 + host1 + "|" + port1;
    assert HealthKeyFor(service2, scheme2, host2, port2) == head2 + host2 + "|" + port2;
    LastBarSplits(head1 + host1, head2 + host2, port1, port2);
    if |head1| <= |head2| {
      HeadAbsorbs(head1, host1, head2, host2);
    } else {
      HeadAbsorbs(head2, host2, head1, host1);
    }
  }

  lemma HeadAbsorbs(head1: string, host1: string, head2: string, host2: string)
    requires |head1| <= |head2| && head1 + host1 == head2 + host2 && ValidHost(host1) && host2 != ""
    ensures head1 <= head2 && HostCharacters(head2[|head1|..])
    ensures head2[|head1|..] != "" ==> !IsSpace(head2[|head1|..][0])
  {
    var whole := head1 + host1;
    assert head1 == whole[..|head1|] && head2 == whole[..|head2|];
    assert head2[|head1|..] == host1[..|head2| - |head1|];
  }

  lemma PlainAddressIsValid()
    ensures ValidHost("h") && ValidPort("80")
  {
    assert "8"[..0] == "" && "80"[..1] == "8";
    assert DecimalValue("8") == 8;
  }

  lemma AbsorbingHost(service1: string, scheme1: string, service2: string, scheme2: string)
    requires Absorbs(service1, scheme1, service2, scheme2)
    ensures var rest := KeyHead(service2, scheme2)[|KeyHead(service1, scheme1)|..];
      && ValidHost(rest + "h") && ValidHost("h") && ValidPort("80")
      && HealthKeyFor(service1, scheme1, rest + "h", "80") == HealthKeyFor(service2, scheme2, "h", "80")
  {
    var head1, head2 := KeyHead(service1, scheme1), KeyHead(service2, scheme2);
    var rest := head2[|head1|..];
    assert head2 == head1 + rest;
    PlainAddressIsValid();
    assert HealthKeyFor(service1, scheme1, rest + "h", "80") == head1 + (rest + "h") + "|" + "80";
    assert HealthKeyFor(service2, scheme2, "h", "80") == head2 + "h" + "|" + "80";
  }

  /** Service names without `|` never share a health key, whatever their hosts contain. */
  lemma BarFreeNamesNeverCollide(service1: string, instance1: InstanceSettings, service2: string, instance2: InstanceSettings)
    requires NormalInstance(service1, instance1) && NormalInstance(service2, instance2)
    requires '|' !in service1 && '|' !in service2
    requires instance1.healthKey == instance2.healthKey
    ensures service1 == service2 && instance1 == instance2
  {
    SameKeySameTail(service1, instance1.scheme, instance1.host, instance1.port,
                    service2, instance2.scheme, instance2.host, instance2.port);
    var tail1, tail2 := instance1.scheme + "|" + instance1.host, instance2.scheme + "|" + instance2.host;
    assert KeyHead(service1, instance1.scheme) + instance1.host == service1 + "|" + tail1;
    assert KeyHead(service2, instance2.scheme) + instance2.host == service2 + "|" + tail2;
    FirstBarSplits(service1, service2, tail1, tail2);
    FirstBarSplits(instance1.scheme, instance2.scheme, instance1.host, instance2.host);
  }

  /** Within one service the health key determines the instance, whatever the name. */
  lemma OneServiceKeysDiffer(service: string, instance1: InstanceSettings, instance2: InstanceSettings)
    requires NormalInstance(service, instance1) && NormalInstance(service, instance2)
    requires instance1.healthKey == instance2.healthKey
    ensures instance1 == instance2
  {
    SameKeySameTail(service, instance1.scheme, instance1.host, instance1.port,
                    service, instance2.scheme, instance2.host, instance2.port);
    var tail1, tail2 := instance1.scheme + "|" + instance1.host, instance2.scheme + "|" + instance2.host;
    assert KeyHead(service, instance1.scheme) + instance1.host == service + "|" + tail1;
    assert KeyHead(service, instance2.scheme) + instance2.host == service + "|" + tail2;
    assert (service + "|" + tail1)[|service| + 1..] == tail1 && (service + "|" + tail2)[|service| + 1..] == tail2;
    FirstBarSplits(instance1.scheme, instance2.scheme, instance1.host, instance2.host);
  }

  lemma FirstBarSplits(a: string, b: string, p: string, q: string)
    requires '|' !in a && '|' !in b && a + "|" + p == b + "|" + q
    ensures a == b && p == q
  {
    var whole := a + "|" + p;
    assert whole[|a|] == '|' && whole[|b|] == '|';
    assert forall i :: 0 <= i < |a| ==> whole[i] == a[i];
    assert forall i :: 0 <= i < |b| ==> whole[i] == b[i];
    assert |a| == |b|;
    assert a == whole[..|a|] && b == whole[..|b|];
    assert p == whole[|a| + 1..] && q == whole[|b| + 1..];
  }

  // Health settings.

  function NormalizeHealth(settings: Option<HealthSettings>): Result<HealthSettings, ConfigError> {
    if settings == None then Success(DefaultHealthSettings) else
    var s := settings.value;
    var path := if s.path == "" then DEFAULT_HEALTH_PATH else s.path;
    var interval := s.interval.GetOr(DEFAULT_HEALTH_INTERVAL);
    var timeout := s.timeout.GetOr(DEFAULT_HEALTH_TIMEOUT);
    var jitter := s.jitter.GetOr(DEFAULT_HEALTH_JITTER);
    var maxBackoff := s.maxBackoff.GetOr(DEFAULT_HEALTH_MAX_BACKOFF);
    if || path[0] != '/' || interval <= 0 || timeout <= 0 || jitter < 0 || maxBackoff <= 0 || maxBackoff < interval
       || timeout > MAX_DURATION || jitter > MAX_DURATION || maxBackoff > MAX_DURATION
       || s.failureThreshold < 0 || s.successThreshold < 0
    then Failure(InvalidHealth)
    else Success(HealthSettings(Some(s.enabled.GetOr(true)), path, Some(interval), Some(timeout), Some(jitter), Some(maxBackoff),
      if s.failureThreshold == 0 then DEFAULT_HEALTH_FAILURE_THRESHOLD else s.failureThreshold,
      if s.successThreshold == 0 then DEFAULT_HEALTH_SUCCESS_THRESHOLD else s.successThreshold))
  }

  predicate NormalHealth(s: HealthSettings) {
    && s.enabled.Some? && s.interval.Some? && s.timeout.Some? && s.jitter.Some? && s.maxBackoff.Some?
    && s.path != "" && s.path[0] == '/'
    && 0 < s.interval.value <= s.maxBackoff.value <= MAX_DURATION
    && 0 < s.timeout.value <= MAX_DURATION && 0 <= s.jitter.value <= MAX_DURATION
    && 0 < s.failureThreshold && 0 < s.successThreshold
  }

  /** Every value given survives and every blank gets its default; the settings are refused exactly when a value given
      is out of range, the path is not absolute, or the cap lies below the interval. */
  lemma NormalizeHealthKeepsGiven(s: HealthSettings)
    ensures var r := NormalizeHealth(Some(s));
      var interval, maxBackoff := s.interval.GetOr(5_000_000_000), s.maxBackoff.GetOr(300_000_000_000);
      && (r.Success? <==>
           && (s.path == "" || s.path[0] == '/')
           && 0 < interval <= maxBackoff <= 0x7fff_ffff_ffff_ffff
           && (s.timeout.Some? ==> 0 < s.timeout.value <= 0x7fff_ffff_ffff_ffff)
           && (s.jitter.Some? ==> 0 <= s.jitter.value <= 0x7fff_ffff_ffff_ffff)
           && s.failureThreshold >= 0 && s.successThreshold >= 0)
      && (r.Success? ==> r.value == HealthSettings(
           Some(s.enabled != Some(false)), if s.path == "" then "/actuator/health" else s.path, Some(interval),
           Some(s.timeout.GetOr(2_000_000_000)), Some(s.jitter.GetOr(2_000_000_000)), Some(maxBackoff),
           if s.failureThreshold == 0 then 2 else s.failureThreshold,
           if s.successThreshold == 0 then 1 else s.successThreshold))
      && (r.Failure? ==> r.error == InvalidHealth)
    ensures NormalizeHealth(None) == Success(HealthSettings(Some(true), "/actuator/health", Some(5_000_000_000),
      Some(2_000_000_000), Some(2_000_000_000), Some(300_000_000_000), 2, 1))
  {
    assert s.enabled.GetOr(true) == (s.enabled != Some(false)) by {
      if s.enabled.Some? {
        assert s.enabled == Some(s.enabled.value);
      }
    }
  }

  /** Normalised settings are exactly the fixed points of normalisation. */
  lemma NormalHealthIsFixed(settings: HealthSettings)
    ensures NormalizeHealth(Some(settings)) == Success(settings) <==> NormalHealth(settings)
    ensures var r := NormalizeHealth(Some(settings)); r.Success? ==> NormalHealth(r.value)
    ensures NormalHealth(DefaultHealthSettings)
  {
  }

  // Endpoints.

  function KeyOfEndpoint(endpoint: EndpointSettings): RouteKey {
    RouteKey(endpoint.httpMethod, endpoint.path)
  }

  function KeyOf(entry: RouteEntry): RouteKey {
    RouteKey(entry.httpMethod, entry.path)
  }

  function EntryOf(serviceName: string, endpoint: EndpointSettings): RouteEntry {
    RouteEntry(serviceName, endpoint.path, endpoint.httpMethod, endpoint.roles)
  }

  function EntriesOf(serviceName: string, endpoints: seq<EndpointSettings>): (entries: seq<RouteEntry>)
    ensures |entries| == |endpoints|
  {
    seq(|endpoints|, i requires 0 <= i < |endpoints| => EntryOf(serviceName, endpoints[i]))
  }

  /** What is wrong with an endpoint that follows `before` in a registration. */
  function EndpointFault(endpoint: EndpointSettings, before: seq<EndpointSettings>): Option<ConfigError> {
    if endpoint.path == "" then Some(PathRequired)
    else if endpoint.httpMethod == "" then Some(MethodRequired)
    else if "" in endpoint.roles then Some(RoleRequired)
    else if exists i :: 0 <= i < |before| && KeyOfEndpoint(before[i]) == KeyOfEndpoint(endpoint)
      then Some(DuplicateRoute(KeyOfEndpoint(endpoint)))
    else None
  }

  function FirstFault(endpoints: seq<EndpointSettings>): Option<ConfigError> {
    if endpoints == [] then None
    else
      var n := |endpoints| - 1;
      var earlier := FirstFault(endpoints[..n]);
      if earlier.Some? then earlier else EndpointFault(endpoints[n], endpoints[..n])
  }

  predicate WellFormed(endpoints: seq<EndpointSettings>) {
    && (forall i :: 0 <= i < |endpoints| ==>
         endpoints[i].path != "" && endpoints[i].httpMethod != "" && "" !in endpoints[i].roles)
    && (forall i, j :: 0 <= i < j < |endpoints| ==> KeyOfEndpoint(endpoints[i]) != KeyOfEndpoint(endpoints[j]))
  }

  lemma {:induction false} NoFaultIffWellFormed(endpoints: seq<EndpointSettings>)
    ensures FirstFault(endpoints) == None <==> WellFormed(endpoints)
  {
    if endpoints != [] {
      var n := |endpoints| - 1;
      NoFaultIffWellFormed(endpoints[..n]);
      assert forall i :: 0 <= i < n ==> endpoints[..n][i] == endpoints[i];
    }
  }

  /** The endpoint at `i` has this fault: a missing path comes before a missing method, that before an empty role, and
      that before a method and path that an earlier endpoint has. */
  predicate HasFault(endpoints: seq<EndpointSettings>, i: int, fault: ConfigError)
    requires 0 <= i < |endpoints|
  {
    var e := endpoints[i];
    match fault
    case PathRequired => e.path == ""
    case MethodRequired => e.path != "" && e.httpMethod == ""
    case RoleRequired => e.path != "" && e.httpMethod != "" && "" in e.roles
    case DuplicateRoute(key) =>
      && e.path != "" && e.httpMethod != "" && "" !in e.roles && key.httpMethod == e.httpMethod && key.path == e.path
      && exists j :: 0 <= j < i && endpoints[j].path == e.path && endpoints[j].httpMethod == e.httpMethod
    case _ => false
  }

  /** The fault reported is that of the first endpoint that has one. */
  lemma {:induction false} FirstFaultIsFirst(endpoints: seq<EndpointSettings>)
    requires FirstFault(endpoints).Some?
    ensures exists i :: 0 <= i < |endpoints| && WellFormed(endpoints[..i]) && HasFault(endpoints, i, FirstFault(endpoints).value)
  {
    var n := |endpoints| - 1;
    var front := endpoints[..n];
    if FirstFault(front).Some? {
      FirstFaultIsFirst(front);
      var i :| 0 <= i < n && WellFormed(front[..i]) && HasFault(front, i, FirstFault(front).value);
      assert front[..i] == endpoints[..i] && front[i] == endpoints[i];
      assert HasFault(endpoints, i, FirstFault(endpoints).value);
    } else {
      NoFaultIffWellFormed(front);
      LastFault(endpoints);
      assert WellFormed(endpoints[..n]);
    }
  }

  lemma LastFault(endpoints: seq<EndpointSettings>)
    requires endpoints != [] && EndpointFault(endpoints[|endpoints| - 1], endpoints[..|endpoints| - 1]).Some?
    ensures HasFault(endpoints, |endpoints| - 1, EndpointFault(endpoints[|endpoints| - 1], endpoints[..|endpoints| - 1]).value)
  {
    var n := |endpoints| - 1;
    if j :| 0 <= j < n && KeyOfEndpoint(endpoints[..n][j]) == KeyOfEndpoint(endpoints[n]) {
      assert endpoints[j].path == endpoints[n].path && endpoints[j].httpMethod == endpoints[n].httpMethod;
    }
  }

  lemma {:induction false} FaultOfPrefix(endpoints: seq<EndpointSettings>, i: nat)
    requires i <= |endpoints| && FirstFault(endpoints[..i]).Some?
    ensures FirstFault(endpoints) == FirstFault(endpoints[..i])
    decreases |endpoints| - i
  {
    if i == |endpoints| {
      assert endpoints[..i] == endpoints;
    } else {
      assert endpoints[..i + 1][..i] == endpoints[..i];
      FaultOfPrefix(endpoints, i + 1);
    }
  }

  /** The first endpoint with a fault decides. */
  lemma FaultAt(endpoints: seq<EndpointSettings>, i: nat)
    requires i < |endpoints| && FirstFault(endpoints[..i]) == None
    ensures var fault := EndpointFault(endpoints[i], endpoints[..i]);
      && FirstFault(endpoints[..i + 1]) == fault
      && (fault.Some? ==> FirstFault(endpoints) == fault)
    ensures (exists j :: 0 <= j < i && KeyOfEndpoint(endpoints[j]) == KeyOfEndpoint(endpoints[i]))
      <==> (exists j :: 0 <= j < i && KeyOfEndpoint(endpoints[..i][j]) == KeyOfEndpoint(endpoints[i]))
  {
    assert endpoints[..i + 1][..i] == endpoints[..i];
    if EndpointFault(endpoints[i], endpoints[..i]).Some? {
      FaultOfPrefix(endpoints, i + 1);
    }
    if j :| 0 <= j < i && KeyOfEndpoint(endpoints[j]) == KeyOfEndpoint(endpoints[i]) {
      assert KeyOfEndpoint(endpoints[..i][j]) == KeyOfEndpoint(endpoints[i]);
    }
  }

  lemma EntriesSnoc(serviceName: string, endpoints: seq<EndpointSettings>, i: nat)
    requires i < |endpoints|
    ensures EntriesOf(serviceName, endpoints[..i + 1]) == EntriesOf(serviceName, endpoints[..i]) + [EntryOf(serviceName, endpoints[i])]
    ensures endpoints[..i + 1] == endpoints[..i] + [endpoints[i]]
  {
  }

  /** `routeEntriesFromEndpointSettings`: the entries in order, or the fault of the first bad endpoint. */
  method RouteEntriesFrom(serviceName: string, endpoints: seq<EndpointSettings>)
    returns (r: Result<(seq<EndpointSettings>, seq<RouteEntry>), ConfigError>)
    ensures r.Success? <==> WellFormed(endpoints)
    ensures r.Success? ==> r.value == (endpoints, EntriesOf(serviceName, endpoints))
    ensures r.Failure? ==> FirstFault(endpoints) == Some(r.error)
  {
    var normalized: seq<EndpointSettings>, entries: seq<RouteEntry>, seen: set<RouteKey> := [], [], {};
    NoFaultIffWellFormed(endpoints);
    for i := 0 to |endpoints|
      invariant normalized == endpoints[..i] && entries == EntriesOf(serviceName, endpoints[..i])
      invariant forall key :: key in seen <==> exists j :: 0 <= j < i && KeyOfEndpoint(endpoints[j]) == key
      invariant FirstFault(endpoints[..i]) == None
    {
      var endpoint := endpoints[i];
      var key := KeyOfEndpoint(endpoint);
      FaultAt(endpoints, i);
      EntriesSnoc(serviceName, endpoints, i);
      if endpoint.path == "" {
        return Failure(PathRequired);
      }
      if endpoint.httpMethod == "" {
        return Failure(MethodRequired);
      }
      if "" in endpoint.roles {
        return Failure(RoleRequired);
      }
      if key in seen {
        return Failure(DuplicateRoute(key));
      }
      seen := seen + {key};
      normalized := normalized + [endpoint];
      entries := entries + [EntryOf(serviceName, endpoint)];
    }
    assert endpoints[..|endpoints|] == endpoints;
    return Success((normalized, entries));
  }

  /** `normalizeSettings`. */
  function NormalizeSettings(settings: Settings): Result<Settings, ConfigError> {
    if settings.serviceName == "" then Failure(ServiceNameRequired)
    else if settings.global == None then Failure(GlobalRequired)
    else if settings.endpoints == [] then Failure(EndpointsRequired)
    else if settings.instance == None then Failure(InstanceRequired)
    else
      var instance := NormalizeInstance(settings.serviceName, settings.instance.value);
      if instance.Failure? then Failure(instance.error) else
      var health := NormalizeHealth(settings.health);
      if health.Failure? then Failure(health.error) else
      Success(settings.(instance := Some(instance.value), health := Some(health.value)))
  }

  predicate NormalSettings(settings: Settings) {
    && settings.serviceName != "" && settings.global.Some? && settings.endpoints != []
    && settings.instance.Some? && NormalInstance(settings.serviceName, settings.instance.value)
    && settings.health.Some? && NormalHealth(settings.health.value)
  }

  /** A registration is accepted exactly when it names a service, brings global settings, endpoints and an instance, and
      instance and health settings are acceptable; everything but these two stays as it was given. */
  lemma NormalizeSettingsKeepsRest(settings: Settings)
    ensures var r := NormalizeSettings(settings);
      && (r.Success? <==>
           && settings.serviceName != "" && settings.global.Some? && settings.endpoints != [] && settings.instance.Some?
           && NormalizeInstance(settings.serviceName, settings.instance.value).Success?
           && NormalizeHealth(settings.health).Success?)
      && (r.Success? ==> r.value == Settings(settings.serviceName, settings.global,
           Some(NormalizeHealth(settings.health).value), settings.threshold, settings.endpoints,
           Some(NormalizeInstance(settings.serviceName, settings.instance.value).value)))
  {
  }

  /** Normalised settings are exactly the fixed points of normalisation, and its only results. */
  lemma NormalSettingsAreFixed(settings: Settings)
    ensures NormalizeSettings(settings) == Success(settings) <==> NormalSettings(settings)
    ensures var r := NormalizeSettings(settings); r.Success? ==> NormalSettings(r.value)
  {
    if settings.health.Some? {
      NormalHealthIsFixed(settings.health.value);
    }
  }
}
