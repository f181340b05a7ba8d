/**
  * The pool coordinator under concurrency (`internal/pool/coordinate.go`, `internal/pool/client.go`): any number of
  * requests, each taking one lease and giving it back once, and the waiters of retired clients, interleaved at will.
  * A read-locked section and a write-locked section are one step each; anything may happen between them.
  */
module PoolProtocol {
  import opened PolicyStore
  import opened PolicyTiers
  import opened PoolCache
  import opened Wrappers

  /** What a request is doing. */
  datatype Request =
    | Reading(assignment: Assignment)
    | Writing(assignment: Assignment)
    | Holding(assignment: Assignment, client: nat)

  /** Clients are numbered as they are made; `made` is the next number. */
  datatype System = System(cache: Cache<nat>, requests: map<nat, Request>, made: nat)

  /** After `NewCoordinator`. */
  const Initial := System(Cache(Some(0), map[], map[0 := NEW_SHARED]), map[], 1)

  datatype Action =
    | Begin(id: nat, assignment: Assignment)
    | Read(id: nat)
    | Write(id: nat, works: bool)
    | Finish(id: nat)
    | Wake(client: nat)

  /** One atomic step. A step that is not possible leaves the system alone. */
  function Step(s: System, action: Action): System {
    match action
    case Begin(id, a) =>
      if id !in s.requests && (a.dedicated ==> a.serviceName != "") then s.(requests := s.requests[id := Reading(a)]) else s
    case Read(id) =>
      if id in s.requests && s.requests[id].Reading? then
        var a := s.requests[id].assignment;
        var (cache, served) := ReadSection(s.cache, a);
        s.(cache := cache, requests := s.requests[id := if served.Some? then Holding(a, served.value) else Writing(a)])
      else s
    case Write(id, works) =>
      if id in s.requests && s.requests[id].Writing? then
        var a := s.requests[id].assignment;
        var (cache, served) := WriteSection(s.cache, a, Made(s, works));
        System(cache, if served.Some? then s.requests[id := Holding(a, served.value)] else s.requests - {id}, s.made + 1)
      else s
    case Finish(id) =>
      if id in s.requests && s.requests[id].Holding? then
        s.(cache := Release(s.cache, s.requests[id].client), requests := s.requests - {id})
      else s
    case Wake(client) => s.(cache := Drain(s.cache, client))
  }

  /** The client a creation would give now. */
  function Made(s: System, works: bool): Option<nat> {
    if works then Some(s.made) else None
  }

  function RunFrom(s: System, actions: seq<Action>): System {
    if actions == [] then s else Step(RunFrom(s, actions[..|actions| - 1]), actions[|actions| - 1])
  }

  function Run(actions: seq<Action>): System {
    RunFrom(Initial, actions)
  }

  // The invariant.

  function Holders(requests: map<nat, Request>, client: nat): set<nat> {
    set id | id in requests && requests[id].Holding? && requests[id].client == client
  }

  /** Leases count the requests holding them. */
  ghost predicate LeasesInv(cache: Cache<nat>, requests: map<nat, Request>) {
    forall c :: c in cache.clients ==> cache.clients[c].leases == |Holders(requests, c)|
  }

  /** A request holds a client of the kind it was assigned. */
  predicate RequestInv(cache: Cache<nat>, request: Request) {
    && (request.assignment.dedicated ==> request.assignment.serviceName != "")
    && (request.Holding? ==>
      && request.client in cache.clients
      && (if request.assignment.dedicated then cache.clients[request.client].tier == request.assignment.tier
          else request.client == 0))
  }

  ghost predicate RequestsInv(cache: Cache<nat>, requests: map<nat, Request>) {
    forall id :: id in requests ==> RequestInv(cache, requests[id])
  }

  ghost predicate Inv(s: System) {
    && Placed(s.cache) && s.cache.shared == Some(0)
    && (forall c :: c in s.cache.clients ==> c < s.made)
    && LeasesInv(s.cache, s.requests)
    && RequestsInv(s.cache, s.requests)
  }

  // Counting holders.

  lemma OthersHold(requests: map<nat, Request>, next: map<nat, Request>, id: nat, c: nat)
    requires next - {id} == requests - {id}
    requires id in requests && requests[id].Holding? ==> requests[id].client != c
    requires id in next && next[id].Holding? ==> next[id].client != c
    ensures Holders(next, c) == Holders(requests, c)
  {
    forall k ensures k in Holders(next, c) <==> k in Holders(requests, c) {
      if k != id {
        assert k in next <==> k in next - {id};
        assert k in requests <==> k in requests - {id};
        assert k in next ==> (next - {id})[k] == next[k];
        assert k in requests ==> (requests - {id})[k] == requests[k];
      }
    }
  }

  lemma OneMoreHolds(requests: map<nat, Request>, id: nat, request: Request)
    requires request.Holding? && (id in requests ==> !requests[id].Holding?)
    ensures |Holders(requests[id := request], request.client)| == |Holders(requests, request.client)| + 1
  {
    assert Holders(requests[id := request], request.client) == Holders(requests, request.client) + {id};
    assert id !in Holders(requests, request.client);
  }

  lemma OneLessHolds(requests: map<nat, Request>, id: nat)
    requires id in requests && requests[id].Holding?
    ensures |Holders(requests, requests[id].client)| == |Holders(requests - {id}, requests[id].client)| + 1
  {
    assert Holders(requests, requests[id].client) == Holders(requests - {id}, requests[id].client) + {id};
    assert id !in Holders(requests - {id}, requests[id].client);
  }

  // Steps.

  /** Only `client` gained a lease, and nobody's tier changed. */
  ghost predicate Leased(cache: Cache<nat>, next: Cache<nat>, client: nat) {
    && next.clients.Keys == cache.clients.Keys + {client}
    && (client !in cache.clients ==> next.clients[client].leases == 1)
    && forall c :: c in cache.clients ==>
      && next.clients[c].tier == cache.clients[c].tier
      && next.clients[c].leases == cache.clients[c].leases + if c == client then 1 else 0
  }

  lemma LeasedKeepsLeases(cache: Cache<nat>, next: Cache<nat>, requests: map<nat, Request>, id: nat, request: Request)
    requires LeasesInv(cache, requests) && RequestsInv(cache, requests)
    requires id in requests && !requests[id].Holding? && request.Holding? && Leased(cache, next, request.client)
    ensures LeasesInv(next, requests[id := request])
  {
    OneMoreHolds(requests, id, request);
    forall c | c in next.clients ensures next.clients[c].leases == |Holders(requests[id := request], c)| {
      if c != request.client {
        OthersHold(requests, requests[id := request], id, c);
      } else if c !in cache.clients {
        NoHolder(cache, requests, c);
      }
    }
  }

  lemma NoHolder(cache: Cache<nat>, requests: map<nat, Request>, c: nat)
    requires RequestsInv(cache, requests) && c !in cache.clients
    ensures Holders(requests, c) == {}
  {
    forall k ensures k !in Holders(requests, c) {
      if k in requests {
        assert RequestInv(cache, requests[k]);
      }
    }
  }

  lemma LeasedKeepsRequests(cache: Cache<nat>, next: Cache<nat>, requests: map<nat, Request>, id: nat, request: Request)
    requires RequestsInv(cache, requests) && request.Holding? && Leased(cache, next, request.client)
    requires RequestInv(next, request)
    ensures RequestsInv(next, requests[id := request])
  {
    var after := requests[id := request];
    forall k | k in after ensures RequestInv(next, after[k]) {
      if k != id {
        assert RequestInv(cache, requests[k]);
      }
    }
  }

  lemma EffectsAreLeased(cache: Cache<nat>, service: string, next: Cache<nat>, served: nat)
    requires ServeEffects(cache, service, next, served)
    ensures Leased(cache, next, served)
  {
  }

  lemma AgreedIsRequested(next: Cache<nat>, a: Assignment, served: nat)
    requires Agrees(next, a, served) && next.shared == Some(0) && served in next.clients && (a.dedicated ==> a.serviceName != "")
    ensures RequestInv(next, Holding(a, served))
  {
  }

  lemma ServedIsLeased(s: System, a: Assignment, made: Option<nat>, next: Cache<nat>, served: nat)
    requires Placed(s.cache) && Admissible(s.cache, a, made) && s.cache.shared == Some(0)
    requires WriteSection(s.cache, a, made) == (next, Some(served))
    ensures Leased(s.cache, next, served) && RequestInv(next, Holding(a, served)) && next.shared == Some(0)
    ensures served in s.cache.clients || made == Some(served)
  {
    ServeIsLookupOrReplace(s.cache, a, made);
    WriteKeepsShared(s.cache, a, made);
    EffectsAreLeased(s.cache, a.serviceName, next, served);
    AgreedIsRequested(next, a, served);
  }

  /** Serving a request under either lock, with whatever a creation would give. */
  lemma ServeKeepsInv(s: System, id: nat, works: bool)
    requires Inv(s) && id in s.requests && !s.requests[id].Holding?
    requires WriteSection(s.cache, s.requests[id].assignment, Made(s, works)).1.Some?
    ensures var (cache, served) := WriteSection(s.cache, s.requests[id].assignment, Made(s, works));
      Inv(System(cache, s.requests[id := Holding(s.requests[id].assignment, served.value)], s.made + 1))
  {
    var a := s.requests[id].assignment;
    var (cache, served) := WriteSection(s.cache, a, Made(s, works));
    assert RequestInv(s.cache, s.requests[id]);
    ServedIsLeased(s, a, Made(s, works), cache, served.value);
    assert Placed(cache) by {
      WriteKeepsPlaced(s.cache, a, Made(s, works));
    }
    LeasedKeepsLeases(s.cache, cache, s.requests, id, Holding(a, served.value));
    LeasedKeepsRequests(s.cache, cache, s.requests, id, Holding(a, served.value));
  }

  lemma ReadKeepsInv(s: System, id: nat)
    requires Inv(s)
    ensures Inv(Step(s, Read(id)))
  {
    if id in s.requests && s.requests[id].Reading? {
      var a := s.requests[id].assignment;
      assert RequestInv(s.cache, s.requests[id]);
      if Cached(s.cache, a).Some? {
        FastPathIsLookup(s.cache, a, Made(s, false));
        ServeKeepsInv(s, id, false);
      } else {
        forall c | c in s.cache.clients
          ensures Holders(s.requests[id := Writing(a)], c) == Holders(s.requests, c)
        {
          OthersHold(s.requests, s.requests[id := Writing(a)], id, c);
        }
      }
    }
  }

  /** In a reachable state a creation that fails changes nothing in the cache. */
  lemma FailureKeepsCache(s: System, id: nat)
    requires Inv(s) && id in s.requests && s.requests[id].Writing?
    requires WriteSection(s.cache, s.requests[id].assignment, None).1 == None
    ensures Step(s, Write(id, false)).cache == s.cache && id !in Step(s, Write(id, false)).requests
  {
    FailureKeepsCacheIff(s.cache, s.requests[id].assignment);
  }

  lemma WriteKeepsInv(s: System, id: nat, works: bool)
    requires Inv(s)
    ensures Inv(Step(s, Write(id, works)))
  {
    if id in s.requests && s.requests[id].Writing? {
      if WriteSection(s.cache, s.requests[id].assignment, Made(s, works)).1.Some? {
        ServeKeepsInv(s, id, works);
      } else {
        FailureKeepsCache(s, id);
        forall c | c in s.cache.clients ensures Holders(s.requests - {id}, c) == Holders(s.requests, c) {
          OthersHold(s.requests, s.requests - {id}, id, c);
        }
      }
    }
  }

  lemma FinishKeepsInv(s: System, id: nat)
    requires Inv(s)
    ensures Inv(Step(s, Finish(id)))
  {
    if id in s.requests && s.requests[id].Holding? {
      var client, next := s.requests[id].client, Step(s, Finish(id));
      assert RequestInv(s.cache, s.requests[id]);
      OneLessHolds(s.requests, id);
      ReleaseKeepsPlaced(s.cache, client);
      forall c | c in next.cache.clients ensures next.cache.clients[c].leases == |Holders(next.requests, c)| {
        if c != client {
          OthersHold(s.requests, next.requests, id, c);
        }
      }
      forall k | k in next.requests ensures RequestInv(next.cache, next.requests[k]) {
        assert RequestInv(s.cache, s.requests[k]);
      }
    }
  }

  lemma WakeKeepsInv(s: System, client: nat)
    requires Inv(s)
    ensures Inv(Step(s, Wake(client)))
  {
    var next := Step(s, Wake(client));
    DrainKeepsPlaced(s.cache, client);
    forall k | k in next.requests ensures RequestInv(next.cache, next.requests[k]) {
      assert RequestInv(s.cache, s.requests[k]);
    }
  }

  lemma BeginKeepsInv(s: System, id: nat, a: Assignment)
    requires Inv(s)
    ensures Inv(Step(s, Begin(id, a)))
  {
    var next := Step(s, Begin(id, a));
    if next != s {
      forall c | c in s.cache.clients ensures Holders(next.requests, c) == Holders(s.requests, c) {
        OthersHold(s.requests, next.requests, id, c);
      }
    }
  }

  lemma StepKeepsInv(s: System, action: Action)
    requires Inv(s)
    ensures Inv(Step(s, action))
  {
    match action
    case Begin(id, a) => BeginKeepsInv(s, id, a);
    case Read(id) => ReadKeepsInv(s, id);
    case Write(id, works) => WriteKeepsInv(s, id, works);
    case Finish(id) => FinishKeepsInv(s, id);
    case Wake(client) => WakeKeepsInv(s, client);
  }

  lemma {:induction false} RunKeepsInv(s: System, actions: seq<Action>)
    requires Inv(s)
    ensures Inv(RunFrom(s, actions))
  {
    if actions != [] {
      RunKeepsInv(s, actions[..|actions| - 1]);
      StepKeepsInv(RunFrom(s, actions[..|actions| - 1]), actions[|actions| - 1]);
    }
  }

  lemma InitialKeepsInv()
    ensures Inv(Initial)
  {
    assert Holders(Initial.requests, 0) == {};
    assert Initial.cache.clients.Keys == {0};
  }

  // What holds in every run.

  /** A client is in exactly one place: shared, dedicated to one service, or retired, and then retired once. */
  lemma EveryClientHasOnePlace(actions: seq<Action>, c: nat)
    requires c in Run(actions).cache.clients
    ensures var cache := Run(actions).cache;
      && (cache.clients[c].retirements == 0 <==> cache.shared == Some(c) || Dedicated(cache, c))
      && !(cache.shared == Some(c) && Dedicated(cache, c))
      && (forall s, t :: s in cache.dedicated && t in cache.dedicated && cache.dedicated[s] == c == cache.dedicated[t] ==> s == t)
      && cache.clients[c].retirements <= 1
      && cache.clients[c].drains <= cache.clients[c].retirements
      && (cache.clients[c].drains > 0 ==> cache.clients[c].leases == 0)
  {
    InitialKeepsInv();
    RunKeepsInv(Initial, actions);
    var cache := Run(actions).cache;
    assert SoundClient(cache.clients[c]);
    if Dedicated(cache, c) {
      var service :| service in cache.dedicated && cache.dedicated[service] == c;
      assert InService(cache, cache.dedicated[service]);
    }
  }

  /** The lease count is the number of requests holding the client, and each holds the kind it was assigned: the
      shared client, which is always the first one, or one of the wanted tier. */
  lemma LeasesAreHeld(actions: seq<Action>)
    ensures var s := Run(actions);
      && s.cache.shared == Some(0)
      && (forall c :: c in s.cache.clients ==> s.cache.clients[c].leases == |Holders(s.requests, c)|)
      && (forall id :: id in s.requests ==> RequestInv(s.cache, s.requests[id]))
  {
    InitialKeepsInv();
    RunKeepsInv(Initial, actions);
  }

  /** Whenever a request is about to finish its lease, the lease count is positive: the wait group never panics. */
  lemma ReleaseNeverPanics(actions: seq<Action>, id: nat)
    requires id in Run(actions).requests && Run(actions).requests[id].Holding?
    ensures var s := Run(actions); var c := s.requests[id].client;
      c in s.cache.clients && s.cache.clients[c].leases >= 1
  {
    LeasesAreHeld(actions);
    var s := Run(actions);
    assert RequestInv(s.cache, s.requests[id]);
    assert id in Holders(s.requests, s.requests[id].client);
  }

  /** A request that just got its client finds the cache in agreement with its assignment. */
  lemma CacheAgreesWhenServed(s: System, action: Action, id: nat)
    requires Inv(s) && id in s.requests && !s.requests[id].Holding?
    requires id in Step(s, action).requests && Step(s, action).requests[id].Holding?
    ensures var next := Step(s, action);
      && next.requests[id].assignment == s.requests[id].assignment
      && Agrees(next.cache, next.requests[id].assignment, next.requests[id].client)
  {
    var a := s.requests[id].assignment;
    assert RequestInv(s.cache, s.requests[id]);
    if action.Read? {
      FastPathIsLookup(s.cache, a, None);
      ServeIsLookupOrReplace(s.cache, a, None);
    } else {
      ServeIsLookupOrReplace(s.cache, a, Made(s, action.works));
    }
  }

  ghost predicate Retired(s: System, c: nat) {
    c in s.cache.clients && s.cache.clients[c].retirements > 0
  }

  ghost predicate Drained(s: System, c: nat) {
    Retired(s, c) && s.cache.clients[c].drains > 0
  }

  /** Nobody new holds `c`, and no lease on it is added. */
  ghost predicate NotLeased(s: System, next: System, c: nat) {
    && Retired(s, c) && Retired(next, c) && next.cache.clients[c].leases <= s.cache.clients[c].leases
    && next.cache.clients[c].drains >= s.cache.clients[c].drains
    && Holders(next.requests, c) <= Holders(s.requests, c)
  }

  lemma ServedIsNotRetired(s: System, a: Assignment, made: Option<nat>, id: nat, n: nat, c: nat)
    requires Placed(s.cache) && Admissible(s.cache, a, made) && Retired(s, c)
    requires WriteSection(s.cache, a, made).1.Some?
    ensures var (cache, served) := WriteSection(s.cache, a, made);
      served.value != c && NotLeased(s, System(cache, s.requests[id := Holding(a, served.value)], n), c)
  {
    ServeIsLookupOrReplace(s.cache, a, made);
  }

  lemma RetiredStep(s: System, action: Action, c: nat)
    requires Inv(s) && Retired(s, c)
    ensures NotLeased(s, Step(s, action), c)
  {
    match action
    case Read(id) =>
      if id in s.requests && s.requests[id].Reading? {
        var a := s.requests[id].assignment;
        assert RequestInv(s.cache, s.requests[id]);
        if Cached(s.cache, a).Some? {
          FastPathIsLookup(s.cache, a, None);
          ServedIsNotRetired(s, a, None, id, s.made, c);
        }
      }
    case Write(id, works) =>
      if id in s.requests && s.requests[id].Writing? {
        assert RequestInv(s.cache, s.requests[id]);
        if WriteSection(s.cache, s.requests[id].assignment, Made(s, works)).1.Some? {
          ServedIsNotRetired(s, s.requests[id].assignment, Made(s, works), id, s.made + 1, c);
        } else {
          FailureKeepsCache(s, id);
        }
      }
    case _ =>
  }

  lemma {:induction false} RetiredStays(s: System, actions: seq<Action>, c: nat)
    requires Inv(s) && Retired(s, c)
    ensures var next := RunFrom(s, actions);
      && Inv(next) && Retired(next, c)
      && next.cache.clients[c].leases <= s.cache.clients[c].leases
      && next.cache.clients[c].drains >= s.cache.clients[c].drains
      && Holders(next.requests, c) <= Holders(s.requests, c)
  {
    if actions != [] {
      RetiredStays(s, actions[..|actions| - 1], c);
      var most, last := RunFrom(s, actions[..|actions| - 1]), actions[|actions| - 1];
      RetiredStep(most, last, c);
      StepKeepsInv(most, last);
    }
  }

  lemma DrainedIsUnheld(s: System, c: nat)
    requires Inv(s) && Drained(s, c)
    ensures s.cache.clients[c].leases == 0 && Holders(s.requests, c) == {}
  {
    assert SoundClient(s.cache.clients[c]);
  }

  /** Drain safety: from the moment a client is retired, in every interleaving, nobody new gets a lease on it and its
      lease count only falls; once a waiter has closed its connections for good, no lease on it is left or comes back. */
  lemma RetiredIsNeverLeased(before: seq<Action>, after: seq<Action>, c: nat)
    requires Retired(Run(before), c)
    ensures var (s, next) := (Run(before), Run(before + after));
      && Retired(next, c)
      && Holders(next.requests, c) <= Holders(s.requests, c)
      && next.cache.clients[c].leases <= s.cache.clients[c].leases
      && (Drained(s, c) ==> Drained(next, c) && next.cache.clients[c].leases == 0 && Holders(next.requests, c) == {})
  {
    InitialKeepsInv();
    RunKeepsInv(Initial, before);
    RetiredStays(Run(before), after, c);
    RunsConcatenate(Initial, before, after);
    if Drained(Run(before), c) {
      DrainedIsUnheld(Run(before + after), c);
    }
  }

  lemma {:induction false} RunsConcatenate(s: System, before: seq<Action>, after: seq<Action>)
    ensures RunFrom(s, before + after) == RunFrom(RunFrom(s, before), after)
  {
    if after == [] {
      assert before + after == before;
    } else {
      RunsConcatenate(s, before, after[..|after| - 1]);
      assert (before + after)[..|before + after| - 1] == before + after[..|after| - 1];
    }
  }

  // What each step does for its request.

  /** The service has a dedicated client of the tier. */
  predicate HasClient(cache: Cache<nat>, service: string, tier: Tier) {
    exists c :: c in cache.clients && service in cache.dedicated && cache.dedicated[service] == c && cache.clients[c].tier == tier
  }

  lemma ReachableInv(actions: seq<Action>)
    ensures Inv(Run(actions))
  {
    InitialKeepsInv();
    RunKeepsInv(Initial, actions);
  }

  /** A new request is taken up unless it asks for a dedicated client without naming a service. */
  lemma BeginStarts(actions: seq<Action>, id: nat, a: Assignment)
    requires id !in Run(actions).requests
    ensures var s, next := Run(actions), Step(Run(actions), Begin(id, a));
      next == if a.dedicated && a.serviceName == "" then s else s.(requests := s.requests[id := Reading(a)])
  {
  }

  /** Under the read lock a request is served exactly when the cache already holds what it was assigned; otherwise it
      goes on to the write lock and nothing has changed. */
  lemma ReadServesIff(actions: seq<Action>, id: nat)
    requires id in Run(actions).requests && Run(actions).requests[id].Reading?
    ensures var s, next := Run(actions), Step(Run(actions), Read(id));
      var a := s.requests[id].assignment;
      var hit := if a.dedicated then HasClient(s.cache, a.serviceName, a.tier) else a.serviceName !in s.cache.dedicated;
      && id in next.requests && next.requests[id].assignment == a
      && (hit <==> next.requests[id].Holding?)
      && (hit && !a.dedicated ==> next.requests[id].client == 0)
      && (hit && a.dedicated ==> next.requests[id].client == s.cache.dedicated[a.serviceName])
      && (!hit ==> next.requests[id].Writing? && next.cache == s.cache)
  {
    ReachableInv(actions);
    assert RequestInv(Run(actions).cache, Run(actions).requests[id]);
  }

  /** Under the write lock a request is served exactly when a client can be made, or is there already; otherwise it
      fails and the cache is as before. */
  lemma WriteServesIff(actions: seq<Action>, id: nat, works: bool)
    requires id in Run(actions).requests && Run(actions).requests[id].Writing?
    ensures var s, next := Run(actions), Step(Run(actions), Write(id, works));
      var a := s.requests[id].assignment;
      var served := works || !a.dedicated || HasClient(s.cache, a.serviceName, a.tier);
      && (served <==> id in next.requests)
      && (served ==> next.requests[id].Holding? && next.requests[id].assignment == a)
      && (!served ==> next.cache == s.cache)
  {
    ReachableInv(actions);
    assert RequestInv(Run(actions).cache, Run(actions).requests[id]);
  }

  lemma ClientsStay(s: System, action: Action)
    ensures s.cache.clients.Keys <= Step(s, action).cache.clients.Keys
  {
  }

  lemma {:induction false} KnownClientsStay(actions: seq<Action>, i: nat)
    requires i <= |actions|
    ensures Run(actions[..i]).cache.clients.Keys <= Run(actions).cache.clients.Keys
  {
    if i == |actions| {
      assert actions[..i] == actions;
    } else {
      var most := actions[..|actions| - 1];
      KnownClientsStay(most, i);
      assert most[..i] == actions[..i];
      ClientsStay(Run(most), actions[|actions| - 1]);
    }
  }

  /** When creation works, the request holds the client its service now has. If the service had none of the wanted tier,
      that client is one no earlier state knew; the one it replaces is retired. */
  lemma WorkingCreationServes(actions: seq<Action>, id: nat)
    requires id in Run(actions).requests && Run(actions).requests[id].Writing?
    ensures var s, next := Run(actions), Step(Run(actions), Write(id, true));
      var a := s.requests[id].assignment;
      && id in next.requests && next.requests[id].Holding?
      && var c := next.requests[id].client;
        && c in next.cache.clients && next.cache.clients[c].retirements == 0
        && (!a.dedicated ==> c == 0 && a.serviceName !in next.cache.dedicated)
        && (a.dedicated ==>
              && a.serviceName in next.cache.dedicated && next.cache.dedicated[a.serviceName] == c
              && next.cache.clients[c].tier == a.tier)
        && (a.dedicated && !HasClient(s.cache, a.serviceName, a.tier) ==>
              forall i :: 0 <= i <= |actions| ==> c !in Run(actions[..i]).cache.clients)
        && (a.serviceName in s.cache.dedicated && s.cache.dedicated[a.serviceName] != c ==>
              Retired(next, s.cache.dedicated[a.serviceName]))
  {
    var s := Run(actions);
    ReachableInv(actions);
    assert RequestInv(s.cache, s.requests[id]);
    ServedClient(s, id);
    var c := Step(s, Write(id, true)).requests[id].client;
    if c !in s.cache.clients {
      forall i | 0 <= i <= |actions| ensures c !in Run(actions[..i]).cache.clients {
        KnownClientsStay(actions, i);
      }
    }
  }

  lemma ServedClient(s: System, id: nat)
    requires Inv(s) && id in s.requests && s.requests[id].Writing?
    ensures var next := Step(s, Write(id, true));
      var a := s.requests[id].assignment;
      && id in next.requests && next.requests[id].Holding?
      && var c := next.requests[id].client;
        && c in next.cache.clients && next.cache.clients[c].retirements == 0
        && (!a.dedicated ==> c == 0 && a.serviceName !in next.cache.dedicated)
        && (a.dedicated ==>
              && a.serviceName in next.cache.dedicated && next.cache.dedicated[a.serviceName] == c
              && next.cache.clients[c].tier == a.tier)
        && (a.dedicated && !HasClient(s.cache, a.serviceName, a.tier) ==> c !in s.cache.clients)
        && (a.serviceName in s.cache.dedicated && s.cache.dedicated[a.serviceName] != c ==>
              Retired(next, s.cache.dedicated[a.serviceName]))
  {
    assert RequestInv(s.cache, s.requests[id]);
    var a := s.requests[id].assignment;
    if a.serviceName in s.cache.dedicated {
      assert InService(s.cache, s.cache.dedicated[a.serviceName]);
      assert Dedicated(s.cache, s.cache.dedicated[a.serviceName]);
    }
  }

  /** Finishing a lease ends the request and gives back exactly its lease. */
  lemma FinishReturnsLease(actions: seq<Action>, id: nat)
    requires id in Run(actions).requests && Run(actions).requests[id].Holding?
    ensures var s, next := Run(actions), Step(Run(actions), Finish(id));
      var c := s.requests[id].client;
      && next.requests == s.requests - {id} && c in s.cache.clients && c in next.cache.clients
      && next.cache.clients[c].leases == s.cache.clients[c].leases - 1
      && next.cache.dedicated == s.cache.dedicated && next.cache.shared == s.cache.shared
  {
    ReleaseNeverPanics(actions, id);
  }

  /** The waiter of a retired client gets through exactly when no lease is left. */
  lemma WakeDrainsIff(actions: seq<Action>, c: nat)
    requires Retired(Run(actions), c) && !Drained(Run(actions), c)
    ensures Drained(Step(Run(actions), Wake(c)), c) <==> Holders(Run(actions).requests, c) == {}
  {
    ReachableInv(actions);
    assert SoundClient(Run(actions).cache.clients[c]);
    assert Holders(Run(actions).requests, c) != {} ==> |Holders(Run(actions).requests, c)| > 0;
  }

  lemma Extend(actions: seq<Action>, s: System, action: Action) returns (longer: seq<Action>, next: System)
    requires s == Run(actions)
    ensures longer == actions + [action] && next == Step(s, action) == Run(longer)
  {
    longer, next := actions + [action], Step(s, action);
    assert longer[..|actions|] == actions;
  }

  /** A request is served under the write lock with a client made for it. */
  lemma ServeNew(actions: seq<Action>, s: System, id: nat, a: Assignment) returns (longer: seq<Action>, next: System)
    requires s == Run(actions) && id !in s.requests
    requires a.dedicated && a.serviceName != "" && !HasClient(s.cache, a.serviceName, a.tier)
    ensures next == Run(longer) && next.requests.Keys == s.requests.Keys + {id}
    ensures next.requests[id].Holding? && next.requests[id].client !in s.cache.clients
    ensures forall other :: other in s.requests ==> next.requests[other] == s.requests[other]
    ensures a.serviceName in s.cache.dedicated ==> Retired(next, s.cache.dedicated[a.serviceName])
    ensures a.serviceName in next.cache.dedicated && next.cache.dedicated[a.serviceName] == next.requests[id].client
    ensures next.requests[id].client in next.cache.clients && next.cache.clients[next.requests[id].client].tier == a.tier
  {
    longer, next := Extend(actions, s, Begin(id, a));
    assert next.cache == s.cache && next.requests == s.requests[id := Reading(a)];
    ReadServesIff(longer, id);
    var read := next;
    longer, next := Extend(longer, next, Read(id));
    assert next.cache == s.cache && next.requests == s.requests[id := Writing(a)];
    ReachableInv(longer);
    ServedClient(next, id);
    longer, next := Extend(longer, next, Write(id, true));
    assert next.requests.Keys == s.requests.Keys + {id};
  }

  /** Two requests in a row, for two tiers of one service: the first one's client is retired while it is held. */
  lemma RetiredWhileHeld() returns (actions: seq<Action>, s: System, c: nat)
    ensures s == Run(actions) && Retired(s, c) && !Drained(s, c) && Holders(s.requests, c) == {7}
    ensures 7 in s.requests && s.requests[7].Holding? && s.requests[7].client == c
  {
    actions, s := ServeNew([], Initial, 7, Assignment("s", Hot, true));
    c := s.requests[7].client;
    assert s.cache.clients[c].tier == Hot && !HasClient(s.cache, "s", Super);
    actions, s := ServeNew(actions, s, 8, Assignment("s", Super, true));
    ReachableInv(actions);
    assert SoundClient(s.cache.clients[c]);
    assert 7 in Holders(s.requests, c) && s.requests[8].client != c;
    assert s.requests.Keys == {7, 8};
  }

  /** A run in which a held client is retired, not drained while it is held, and drained once it is given back. */
  lemma RetiredThenDrained() returns (before: seq<Action>, after: seq<Action>, c: nat)
    ensures Retired(Run(before), c) && !Drained(Run(before), c) && Holders(Run(before).requests, c) != {}
    ensures Drained(Run(before + after), c)
  {
    var s;
    before, s, c := RetiredWhileHeld();
    FinishReturnsLease(before, 7);
    var finished, next := Extend(before, s, Finish(7));
    assert Holders(next.requests, c) == {};
    WakeDrainsIff(finished, c);
    var woken, last := Extend(finished, next, Wake(c));
    after := [Finish(7), Wake(c)];
    assert before + after == woken;
  }

  // The locking as one atomic operation per request.

  /** What the same service looks like with a single lock: a request is served in one step or fails in one step. */
  datatype Event =
    | Serve(id: nat, assignment: Assignment, made: Option<nat>)
    | GiveBack(id: nat)
    | WaiterWakes(client: nat)

  datatype Atomic = Atomic(cache: Cache<nat>, held: map<nat, nat>)

  function AtomicStep(s: Atomic, event: Event): Atomic {
    match event
    case Serve(id, a, made) =>
      var (cache, served) := WriteSection(s.cache, a, made);
      Atomic(cache, if served.Some? then s.held[id := served.value] else s.held)
    case GiveBack(id) =>
      if id in s.held then Atomic(Release(s.cache, s.held[id]), s.held - {id}) else s
    case WaiterWakes(client) => s.(cache := Drain(s.cache, client))
  }

  function AtomicRun(events: seq<Event>): Atomic {
    if events == [] then Atomic(Initial.cache, map[])
    else AtomicStep(AtomicRun(events[..|events| - 1]), events[|events| - 1])
  }

  /** The atomic operation a step completes, if it completes one. */
  function Completed(s: System, action: Action): seq<Event> {
    match action
    case Begin(_, _) => []
    case Read(id) =>
      if id in s.requests && s.requests[id].Reading? && Cached(s.cache, s.requests[id].assignment).Some?
      then [Serve(id, s.requests[id].assignment, None)] else []
    case Write(id, works) =>
      if id in s.requests && s.requests[id].Writing? then [Serve(id, s.requests[id].assignment, Made(s, works))] else []
    case Finish(id) => if id in s.requests && s.requests[id].Holding? then [GiveBack(id)] else []
    case Wake(client) => [WaiterWakes(client)]
  }

  function Trace(actions: seq<Action>): seq<Event> {
    if actions == [] then []
    else Trace(actions[..|actions| - 1]) + Completed(Run(actions[..|actions| - 1]), actions[|actions| - 1])
  }

  function Held(requests: map<nat, Request>): map<nat, nat> {
    map id | id in requests && requests[id].Holding? :: requests[id].client
  }

  function View(s: System): Atomic {
    Atomic(s.cache, Held(s.requests))
  }

  lemma StepIsAtomic(s: System, action: Action)
    ensures |Completed(s, action)| <= 1
    ensures View(Step(s, action)) ==
      if Completed(s, action) == [] then View(s) else AtomicStep(View(s), Completed(s, action)[0])
  {
    match action
    case Read(id) =>
      if id in s.requests && s.requests[id].Reading? {
        var a := s.requests[id].assignment;
        if Cached(s.cache, a).Some? {
          FastPathIsLookup(s.cache, a, None);
        } else {
          assert Held(s.requests[id := Writing(a)]) == Held(s.requests);
        }
      }
    case Begin(id, a) =>
      assert id !in s.requests ==> Held(s.requests[id := Reading(a)]) == Held(s.requests);
    case Write(id, works) =>
      assert id in s.requests && !s.requests[id].Holding? ==> Held(s.requests - {id}) == Held(s.requests);
    case _ =>
  }

  /** The double-checked locking refines one atomic lookup-or-replace: every interleaving leaves the cache, and every
      request its client, as the sequence of its completed operations would one at a time. A missed read is no
      operation at all. */
  lemma {:induction false} RunIsAtomic(actions: seq<Action>)
    ensures View(Run(actions)) == AtomicRun(Trace(actions))
  {
    if actions == [] {
      assert Held(Initial.requests) == map[];
    } else {
      var most := actions[..|actions| - 1];
      RunIsAtomic(most);
      StepIsAtomic(Run(most), actions[|actions| - 1]);
      var done := Completed(Run(most), actions[|actions| - 1]);
      if done == [] {
        assert Trace(actions) == Trace(most);
      } else {
        assert Trace(actions)[..|Trace(actions)| - 1] == Trace(most);
      }
    }
  }

  // With the policy store's assignments.

  /** The assignments `AssignmentFor` gives: dedicated exactly when the tier is not the shared one. */
  ghost predicate PolicyAssigns(actions: seq<Action>) {
    forall i :: 0 <= i < |actions| && actions[i].Begin? ==>
      (actions[i].assignment.dedicated <==> actions[i].assignment.tier != Shared)
  }

  /** The assignments being served are such too, and no dedicated client has the shared tier. */
  ghost predicate NoSharedTier(s: System) {
    && DedicatedTiers(s.cache)
    && (forall id :: id in s.requests ==> (s.requests[id].assignment.dedicated <==> s.requests[id].assignment.tier != Shared))
  }

  ghost predicate DedicatedTiers(cache: Cache<nat>) {
    forall service :: service in cache.dedicated ==> !HasTier(cache, service, Shared)
  }

  lemma WriteKeepsDedicatedTiers(cache: Cache<nat>, a: Assignment, made: Option<nat>)
    requires Placed(cache) && Admissible(cache, a, made) && DedicatedTiers(cache)
    requires a.dedicated <==> a.tier != Shared
    requires WriteSection(cache, a, made).1.Some?
    ensures DedicatedTiers(WriteSection(cache, a, made).0)
  {
    var (next, served) := WriteSection(cache, a, made);
    ServeIsLookupOrReplace(cache, a, made);
    forall service | service in next.dedicated ensures !HasTier(next, service, Shared) {
      if service != a.serviceName {
        assert (next.dedicated - {a.serviceName})[service] == (cache.dedicated - {a.serviceName})[service];
        assert service in cache.dedicated - {a.serviceName};
        assert InService(cache, cache.dedicated[service]) && !HasTier(cache, service, Shared);
      }
    }
  }

  lemma StepKeepsNoSharedTier(s: System, action: Action)
    requires Inv(s) && NoSharedTier(s)
    requires action.Begin? ==> (action.assignment.dedicated <==> action.assignment.tier != Shared)
    ensures NoSharedTier(Step(s, action))
  {
    match action
    case Read(id) =>
      if id in s.requests && s.requests[id].Reading? && Cached(s.cache, s.requests[id].assignment).Some? {
        assert RequestInv(s.cache, s.requests[id]);
        FastPathIsLookup(s.cache, s.requests[id].assignment, None);
        WriteKeepsDedicatedTiers(s.cache, s.requests[id].assignment, None);
      }
    case Write(id, works) =>
      if id in s.requests && s.requests[id].Writing? {
        assert RequestInv(s.cache, s.requests[id]);
        if WriteSection(s.cache, s.requests[id].assignment, Made(s, works)).1.Some? {
          WriteKeepsDedicatedTiers(s.cache, s.requests[id].assignment, Made(s, works));
        } else {
          FailureKeepsCache(s, id);
        }
      }
    case _ =>
  }

  /** Then no dedicated client has the shared tier, and a dedicated lease is never on a client of it. */
  lemma {:induction false} DedicatedIsNeverSharedTier(actions: seq<Action>)
    requires PolicyAssigns(actions)
    ensures Inv(Run(actions)) && NoSharedTier(Run(actions))
  {
    InitialKeepsInv();
    RunKeepsInv(Initial, actions);
    if actions != [] {
      DedicatedIsNeverSharedTier(actions[..|actions| - 1]);
      StepKeepsNoSharedTier(Run(actions[..|actions| - 1]), actions[|actions| - 1]);
    }
  }
}
