/** Route lookup of `internal/route/config/router.go` and route validation of `internal/route/config/validator.go`. */
module RouteRouter {
  import opened ConfigIndex
  import opened ConfigModel
  import opened ConfigNormalize
  import opened ConfigRuns
  import opened Wrappers

  const ALL := "ALL"

  /** `matchRouteEntry`: a wildcard matches every path its text, three-character suffix removed, is a prefix of. */
  predicate MatchRouteEntry(route: RouteEntry, httpMethod: string, path: string) {
    && (route.httpMethod == ALL || route.httpMethod == httpMethod)
    && if IsWildcardPath(route.path) then route.path[..|route.path| - 3] <= path else route.path == path
  }

  /** The first entry of the list that matches. */
  function FirstMatch(routes: seq<RouteEntry>, httpMethod: string, path: string): Option<RouteEntry> {
    if routes == [] then None
    else if MatchRouteEntry(routes[0], httpMethod, path) then Some(routes[0])
    else FirstMatch(routes[1..], httpMethod, path)
  }

  function ExactRoute(snapshot: Snapshot, httpMethod: string, path: string): Option<RouteEntry> {
    var key := RouteKey(httpMethod, path);
    if key in snapshot.routes && !IsWildcardPath(snapshot.routes[key].path) then Some(snapshot.routes[key]) else None
  }

  /** `RouteFor`. */
  function RouteFor(snapshot: Snapshot, httpMethod: string, path: string): Option<RouteEntry> {
    if httpMethod == "" || path == "" then None
    else if ExactRoute(snapshot, httpMethod, path).Some? then ExactRoute(snapshot, httpMethod, path)
    else if ExactRoute(snapshot, ALL, path).Some? then ExactRoute(snapshot, ALL, path)
    else FirstMatch(snapshot.wildcardRoutes, httpMethod, path)
  }

  ghost predicate FirstAt(routes: seq<RouteEntry>, i: int, httpMethod: string, path: string) {
    && 0 <= i < |routes| && MatchRouteEntry(routes[i], httpMethod, path)
    && forall j :: 0 <= j < i ==> !MatchRouteEntry(routes[j], httpMethod, path)
  }

  lemma {:induction false} FirstMatchIsFirst(routes: seq<RouteEntry>, httpMethod: string, path: string)
    ensures match FirstMatch(routes, httpMethod, path)
      case None => forall i :: 0 <= i < |routes| ==> !MatchRouteEntry(routes[i], httpMethod, path)
      case Some(route) => exists i :: FirstAt(routes, i, httpMethod, path) && routes[i] == route
  {
    if routes != [] {
      var rest := routes[1..];
      FirstMatchIsFirst(rest, httpMethod, path);
      if MatchRouteEntry(routes[0], httpMethod, path) {
        assert FirstAt(routes, 0, httpMethod, path);
      } else {
        assert forall j :: 1 <= j < |routes| ==> routes[j] == rest[j - 1];
        if FirstMatch(routes, httpMethod, path).Some? {
          var i :| FirstAt(rest, i, httpMethod, path) && rest[i] == FirstMatch(rest, httpMethod, path).value;
          assert FirstAt(routes, i + 1, httpMethod, path);
        }
      }
    }
  }

  /** An exact lookup finds the declared non-wildcard endpoint of that method and path, if there is one. */
  lemma ExactRouteIsDeclared(snapshot: Snapshot, httpMethod: string, path: string)
    requires Indexed(snapshot)
    ensures !IsWildcardPath(path) ==>
      forall entry :: Declared(snapshot, entry) && KeyOf(entry) == RouteKey(httpMethod, path)
        ==> ExactRoute(snapshot, httpMethod, path) == Some(entry)
    ensures match ExactRoute(snapshot, httpMethod, path)
      case None => true
      case Some(route) => Declared(snapshot, route) && KeyOf(route) == RouteKey(httpMethod, path) && !IsWildcardPath(path)
  {
    var key := RouteKey(httpMethod, path);
    if key in snapshot.routes {
      assert KeyOf(snapshot.routes[key]) == key;
      assert Declared(snapshot, snapshot.routes[key]);
    }
  }

  /** Some endpoint of some service matches the request. */
  ghost predicate SomeMatch(snapshot: Snapshot, httpMethod: string, path: string) {
    exists entry :: Declared(snapshot, entry) && MatchRouteEntry(entry, httpMethod, path)
  }

  /** The index lookup and a scan of all declared endpoints: a route is found exactly when method and path are given
      and some endpoint of some service matches, and what is found is such an endpoint. */
  lemma RouteForIsScan(snapshot: Snapshot, httpMethod: string, path: string)
    requires Indexed(snapshot)
    ensures RouteFor(snapshot, httpMethod, path).Some?
      <==> httpMethod != "" && path != "" && SomeMatch(snapshot, httpMethod, path)
    ensures var r := RouteFor(snapshot, httpMethod, path);
      r.Some? ==> Declared(snapshot, r.value) && MatchRouteEntry(r.value, httpMethod, path)
  {
    if httpMethod == "" || path == "" {
      return;
    }
    ExactRouteIsDeclared(snapshot, httpMethod, path);
    ExactRouteIsDeclared(snapshot, ALL, path);
    var routes := snapshot.wildcardRoutes;
    FirstMatchIsFirst(routes, httpMethod, path);
    var r := RouteFor(snapshot, httpMethod, path);
    if r.Some? && ExactRoute(snapshot, httpMethod, path) == None && ExactRoute(snapshot, ALL, path) == None {
      assert r.value in routes;
    }
    forall entry | Declared(snapshot, entry) && MatchRouteEntry(entry, httpMethod, path) ensures r.Some? {
      if IsWildcardPath(entry.path) {
        assert entry in routes;
      } else {
        assert KeyOf(entry) == RouteKey(httpMethod, path) || KeyOf(entry) == RouteKey(ALL, path);
      }
    }
  }

  /** `a` stands before `b` in the list. */
  ghost predicate Precedes(routes: seq<RouteEntry>, a: RouteEntry, b: RouteEntry) {
    exists i, j :: 0 <= i < j < |routes| && routes[i] == a && routes[j] == b
  }

  /** What a match means, said of the text: the endpoint is for every method or for this one, and its path is the
      request's, or ends in the wildcard and is, without it, how the request's path begins. */
  lemma MatchIsTextual(entry: RouteEntry, httpMethod: string, path: string)
    ensures MatchRouteEntry(entry, httpMethod, path) <==>
      && (entry.httpMethod == "ALL" || entry.httpMethod == httpMethod)
      && (|| (entry.path == path && !EndsInWildcard(entry.path))
          || exists prefix, rest :: entry.path == prefix + "/**" && path == prefix + rest)
  {
    if IsWildcardPath(entry.path) {
      var prefix := entry.path[..|entry.path| - 3];
      assert entry.path == prefix + "/**";
      if prefix <= path {
        assert path == prefix + path[|prefix|..];
      }
    }
    forall prefix, rest | entry.path == prefix + "/**" && path == prefix + rest
      ensures IsWildcardPath(entry.path) && entry.path[..|entry.path| - 3] <= path
    {
      assert entry.path[|prefix|..] == "/**" && entry.path[..|prefix|] == prefix;
    }
  }

  predicate EndsInWildcard(path: string) {
    |path| >= 3 && path[|path| - 1] == '*' && path[|path| - 2] == '*' && path[|path| - 3] == '/'
  }

  /** An endpoint registered for one method or all of them routes every request of that method whose path begins as its
      own does before the wildcard, and none of another method. */
  lemma WildcardRoutesItsPaths(snapshot: Snapshot, entry: RouteEntry, prefix: string, rest: string, httpMethod: string)
    requires Indexed(snapshot) && Declared(snapshot, entry) && entry.path == prefix + "/**"
    requires httpMethod != "" && prefix + rest != ""
    ensures entry.httpMethod == "ALL" || entry.httpMethod == httpMethod ==> RouteFor(snapshot, httpMethod, prefix + rest).Some?
    ensures var r := RouteFor(snapshot, httpMethod, prefix + rest);
      r.Some? ==> r.value.httpMethod == "ALL" || r.value.httpMethod == httpMethod
  {
    RouteForIsScan(snapshot, httpMethod, prefix + rest);
    MatchIsTextual(entry, httpMethod, prefix + rest);
    var r := RouteFor(snapshot, httpMethod, prefix + rest);
    if r.Some? {
      MatchIsTextual(r.value, httpMethod, prefix + rest);
    }
  }

  lemma FirstMatchPrecedes(routes: seq<RouteEntry>, httpMethod: string, path: string, entry: RouteEntry)
    requires entry in routes && MatchRouteEntry(entry, httpMethod, path)
    ensures var found := FirstMatch(routes, httpMethod, path);
      found.Some? && found.value in routes && (found.value != entry ==> Precedes(routes, found.value, entry))
  {
    FirstMatchIsFirst(routes, httpMethod, path);
    var j :| 0 <= j < |routes| && routes[j] == entry;
    var found := FirstMatch(routes, httpMethod, path);
    if found.Some? {
      var i :| FirstAt(routes, i, httpMethod, path) && routes[i] == found.value;
      assert i <= j;
    }
  }

  /** When a route is found, any other matching endpoint comes after it: exact method first, then exact `ALL`, then
      the wildcards in list order. */
  lemma RoutePrecedence(snapshot: Snapshot, httpMethod: string, path: string, entry: RouteEntry)
    requires Indexed(snapshot) && RouteFor(snapshot, httpMethod, path).Some?
    requires Declared(snapshot, entry) && MatchRouteEntry(entry, httpMethod, path)
    requires RouteFor(snapshot, httpMethod, path) != Some(entry)
    ensures var found := RouteFor(snapshot, httpMethod, path).value;
      || (!IsWildcardPath(found.path) && found.httpMethod == httpMethod)
      || (!IsWildcardPath(found.path) && found.httpMethod == ALL && IsWildcardPath(entry.path))
      || (IsWildcardPath(found.path) && IsWildcardPath(entry.path) && Precedes(snapshot.wildcardRoutes, found, entry))
  {
    var exact, all := ExactRoute(snapshot, httpMethod, path), ExactRoute(snapshot, ALL, path);
    ExactRouteIsDeclared(snapshot, httpMethod, path);
    ExactRouteIsDeclared(snapshot, ALL, path);
    if exact == None && !IsWildcardPath(entry.path) {
      assert KeyOf(entry) == RouteKey(httpMethod, path) || KeyOf(entry) == RouteKey(ALL, path);
      assert all == Some(entry);
    } else if exact == None && all == None {
      assert entry in snapshot.wildcardRoutes;
      FirstMatchPrecedes(snapshot.wildcardRoutes, httpMethod, path, entry);
    }
  }

  const CatchAll := EndpointSettings("/**", ALL, [])

  const CatchAllSettings := Settings("s", Some(GlobalSettings("")), None, None, [CatchAll],
    Some(InstanceSettings("http", "h", "80", "")))

  /** One registration of the widest wildcard makes a snapshot with an endpoint that matches every request, the ones without a
      method or a path included; those are not routed. */
  lemma EmptyRequestIsUnrouted(httpMethod: string, path: string)
    ensures var snapshot := Run([], [Register(CatchAllSettings)]);
      && Indexed(snapshot) && SomeMatch(snapshot, httpMethod, path)
      && (RouteFor(snapshot, httpMethod, path) == None <==> httpMethod == "" || path == "")
  {
    var commands := [Register(CatchAllSettings)];
    var snapshot, entry := Run([], commands), EntryOf("s", CatchAll);
    ReachableIsIndexed([], commands);
    assert Run([], commands) == snapshot;
    CatchAllIsRegistered();
    assert MatchRouteEntry(entry, httpMethod, path) by {
      assert "/**"[..0] == "" <= path;
    }
    RouteForIsScan(snapshot, httpMethod, path);
  }

  lemma CatchAllIsRegistered()
    ensures Declared(Run([], [Register(CatchAllSettings)]), EntryOf("s", CatchAll))
  {
    PlainAddressIsValid();
    RegisterCommits([], CatchAllSettings);
    assert [] + [Register(CatchAllSettings)] == [Register(CatchAllSettings)];
    assert CatchAll in CatchAllSettings.endpoints;
  }

  /** Lookup and scan agree about a request, whatever has been registered, exactly when it has a method and a path. */
  lemma ScanAgreesIff(httpMethod: string, path: string)
    ensures (forall commands :: var snapshot := Run([], commands);
        RouteFor(snapshot, httpMethod, path).Some? <==> SomeMatch(snapshot, httpMethod, path))
      <==> httpMethod != "" && path != ""
  {
    EmptyRequestIsUnrouted(httpMethod, path);
    forall commands
      ensures httpMethod != "" && path != "" ==>
        (RouteFor(Run([], commands), httpMethod, path).Some? <==> SomeMatch(Run([], commands), httpMethod, path))
    {
      ReachableIsIndexed([], commands);
      RouteForIsScan(Run([], commands), httpMethod, path);
    }
  }

  // The independent validator.

  predicate Validate(candidate: Snapshot) {
    && (forall name :: name in candidate.services ==>
         name != "" && candidate.services[name].serviceName != "" && candidate.services[name].endpoints != [])
    && (forall key :: key in candidate.routes ==>
         && key.httpMethod != "" && key.path != ""
         && candidate.routes[key].httpMethod != "" && candidate.routes[key].path != ""
         && candidate.routes[key].serviceName in candidate.services)
    && (forall i :: 0 <= i < |candidate.wildcardRoutes| ==>
         && IsWildcardPath(candidate.wildcardRoutes[i].path)
         && candidate.wildcardRoutes[i].serviceName in candidate.services)
  }

  /** What the validator refuses: a service without name or endpoints, a route without method or path or of an unknown
      service, a listed wildcard that is none or of an unknown service; and nothing else. */
  lemma RefusedIff(candidate: Snapshot)
    ensures !Validate(candidate) <==>
      || (exists name :: name in candidate.services
           && (name == "" || candidate.services[name].serviceName == "" || |candidate.services[name].endpoints| == 0))
      || (exists key :: key in candidate.routes
           && (key.httpMethod == "" || key.path == "" || candidate.routes[key].httpMethod == ""
               || candidate.routes[key].path == "" || candidate.routes[key].serviceName !in candidate.services))
      || (exists route :: route in candidate.wildcardRoutes
           && (!EndsInWildcard(route.path) || route.serviceName !in candidate.services))
  {
    forall i | 0 <= i < |candidate.wildcardRoutes|
      ensures candidate.wildcardRoutes[i] in candidate.wildcardRoutes
      ensures IsWildcardPath(candidate.wildcardRoutes[i].path) <==> EndsInWildcard(candidate.wildcardRoutes[i].path)
    {
    }
  }

  /** With an accepted snapshot every request that is routed goes to a service it has. */
  lemma ValidRoutesReachServices(snapshot: Snapshot, httpMethod: string, path: string)
    requires Validate(snapshot)
    ensures var r := RouteFor(snapshot, httpMethod, path); r.Some? ==> r.value.serviceName in snapshot.services
  {
    FirstMatchIsFirst(snapshot.wildcardRoutes, httpMethod, path);
  }

  lemma IndexedIsValid(snapshot: Snapshot)
    requires Indexed(snapshot)
    ensures Validate(snapshot)
  {
    forall key | key in snapshot.routes
      ensures key.httpMethod != "" && key.path != "" && snapshot.routes[key].serviceName in snapshot.services
    {
      var entry := snapshot.routes[key];
      assert KeyOf(entry) == key && Declared(snapshot, entry);
      var service := snapshot.services[entry.serviceName];
      assert NormalService(entry.serviceName, service);
      var i :| 0 <= i < |service.endpoints| && service.endpoints[i] == EndpointSettings(entry.path, entry.httpMethod, entry.roles);
    }
    forall i | 0 <= i < |snapshot.wildcardRoutes|
      ensures IsWildcardPath(snapshot.wildcardRoutes[i].path) && snapshot.wildcardRoutes[i].serviceName in snapshot.services
    {
      assert snapshot.wildcardRoutes[i] in snapshot.wildcardRoutes;
    }
  }

  /** The route validator never refuses what the builder makes of a reachable snapshot. */
  lemma ReachableCandidatesAreValid(validators: seq<Validator>, commands: seq<Command>, command: Command)
    ensures var r := Candidate(Run(validators, commands), command); r.Success? ==> Validate(r.value)
  {
    ReachableIsIndexed(validators, commands);
    CandidateKeepsIndex(Run(validators, commands), command);
    var r := Candidate(Run(validators, commands), command);
    if r.Success? {
      IndexedIsValid(r.value);
    }
  }

  /** The converse fails: the validator does not notice that an index misses a service's endpoints. */
  lemma ValidIsNotIndexed() returns (snapshot: Snapshot, entry: RouteEntry)
    ensures Validate(snapshot) && !Indexed(snapshot)
    ensures Declared(snapshot, entry) && MatchRouteEntry(entry, "GET", "/a") && RouteFor(snapshot, "GET", "/a") == None
  {
    var endpoint := EndpointSettings("/a", "GET", []);
    var service := ServiceSettings("s", GlobalSettings(""), DefaultHealthSettings, None, [endpoint], []);
    snapshot := Snapshot(1, map["s" := service], map[], []);
    entry := RouteEntry("s", "/a", "GET", []);
    assert endpoint in service.endpoints;
    assert Declared(snapshot, entry);
    assert KeyOf(entry) !in snapshot.routes;
  }
}
