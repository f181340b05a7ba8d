/**
  * The client cache of `internal/pool/coordinate.go` as values: one shared client, at most one dedicated client per
  * service, and the bookkeeping of `internal/pool/client.go` for every client ever made. Each function is one section
  * under the coordinator's lock. `C` is the identity of a client.
  */
module PoolCache {
  import opened PolicyStore
  import opened PolicyTiers
  import opened Wrappers

  /** A client: `leases` is its wait-group counter, `retirements` the calls of `retire`, each of which closes the idle
      connections and starts a waiter, and `drains` the waiters that saw zero leases and closed them again. */
  datatype Managed = Managed(tier: Tier, leases: int, retirements: nat, drains: nat)

  datatype Cache<C(==)> = Cache(shared: Option<C>, dedicated: map<string, C>, clients: map<C, Managed>)

  const NEW_SHARED := Managed(Shared, 0, 0, 0)

  function Acquire<C>(cache: Cache<C>, c: C): Cache<C> {
    if c in cache.clients then
      cache.(clients := cache.clients[c := cache.clients[c].(leases := cache.clients[c].leases + 1)])
    else cache
  }

  function Release<C>(cache: Cache<C>, c: C): Cache<C> {
    if c in cache.clients then
      cache.(clients := cache.clients[c := cache.clients[c].(leases := cache.clients[c].leases - 1)])
    else cache
  }

  function Retire<C>(cache: Cache<C>, c: C): Cache<C> {
    if c in cache.clients then
      cache.(clients := cache.clients[c := cache.clients[c].(retirements := cache.clients[c].retirements + 1)])
    else cache
  }

  /** A waiter of `retire` gets past its wait. */
  function Drain<C>(cache: Cache<C>, c: C): Cache<C> {
    if c in cache.clients && cache.clients[c].drains < cache.clients[c].retirements && cache.clients[c].leases == 0 then
      cache.(clients := cache.clients[c := cache.clients[c].(drains := cache.clients[c].drains + 1)])
    else cache
  }

  /** The service's dedicated client, when it has the wanted tier. */
  predicate HasTier<C>(cache: Cache<C>, service: string, tier: Tier) {
    && service in cache.dedicated && cache.dedicated[service] in cache.clients
    && cache.clients[cache.dedicated[service]].tier == tier
  }

  /** The client the read-locked section settles on, if any. */
  function Cached<C>(cache: Cache<C>, a: Assignment): Option<C> {
    if a.dedicated then
      if HasTier(cache, a.serviceName, a.tier) then Some(cache.dedicated[a.serviceName]) else None
    else if a.serviceName !in cache.dedicated || a.serviceName == "" then cache.shared else None
  }

  function ReadSection<C>(cache: Cache<C>, a: Assignment): (Cache<C>, Option<C>) {
    var c := Cached(cache, a);
    (if c.Some? then Acquire(cache, c.value) else cache, c)
  }

  /** The write-locked section; `made` is the client the creation would give, or None when creation fails. */
  function WriteSection<C>(cache: Cache<C>, a: Assignment, made: Option<C>): (Cache<C>, Option<C>) {
    if a.dedicated then WriteDedicated(cache, a.serviceName, a.tier, made) else WriteShared(cache, a.serviceName, made)
  }

  /** A service leaves its dedicated client. */
  function Unassign<C>(cache: Cache<C>, service: string): Cache<C> {
    if service != "" && service in cache.dedicated then
      Retire(cache, cache.dedicated[service]).(dedicated := cache.dedicated - {service})
    else cache
  }

  function WriteShared<C>(cache: Cache<C>, service: string, made: Option<C>): (Cache<C>, Option<C>) {
    var freed := Unassign(cache, service);
    if freed.shared.Some? then (Acquire(freed, freed.shared.value), freed.shared)
    else if made.None? then (freed, None)
    else (Acquire(freed.(shared := made, clients := freed.clients[made.value := NEW_SHARED]), made.value), made)
  }

  function WriteDedicated<C>(cache: Cache<C>, service: string, tier: Tier, made: Option<C>): (Cache<C>, Option<C>) {
    if HasTier(cache, service, tier) then
      (Acquire(cache, cache.dedicated[service]), Some(cache.dedicated[service]))
    else if made.None? then (cache, None)
    else
      var created := cache.(clients := cache.clients[made.value := Managed(tier, 0, 0, 0)]);
      var freed := if service in cache.dedicated then Retire(created, cache.dedicated[service]) else created;
      (Acquire(freed.(dedicated := freed.dedicated[service := made.value]), made.value), made)
  }

  // Where clients are.

  predicate InService<C>(cache: Cache<C>, c: C) {
    c in cache.clients && cache.clients[c].retirements == 0
  }

  ghost predicate Dedicated<C>(cache: Cache<C>, c: C) {
    exists service :: service in cache.dedicated && cache.dedicated[service] == c
  }

  /** At most one retirement, and a drained client has no lease. */
  predicate SoundClient(client: Managed) {
    client.drains <= client.retirements <= 1 && (client.drains > 0 ==> client.leases == 0)
  }

  /** Every client is the shared one, dedicated to exactly one service, or retired. */
  ghost predicate Placed<C>(cache: Cache<C>) {
    && "" !in cache.dedicated
    && (cache.shared.Some? ==> InService(cache, cache.shared.value) && !Dedicated(cache, cache.shared.value))
    && (forall service :: service in cache.dedicated ==> InService(cache, cache.dedicated[service]))
    && (forall s, t :: s in cache.dedicated && t in cache.dedicated && cache.dedicated[s] == cache.dedicated[t] ==> s == t)
    && (forall c :: c in cache.clients ==> SoundClient(cache.clients[c]))
    && (forall c :: c in cache.clients && InService(cache, c) ==> cache.shared == Some(c) || Dedicated(cache, c))
  }

  /** A request this section may serve: dedicated clients need a service name, and a new client is a new one. */
  predicate Admissible<C>(cache: Cache<C>, a: Assignment, made: Option<C>) {
    (a.dedicated ==> a.serviceName != "") && (made.Some? ==> made.value !in cache.clients)
  }

  /** The client an assignment takes out of service when `next` serves it. */
  function Displaced<C>(cache: Cache<C>, service: string, next: Cache<C>): Option<C> {
    if service in cache.dedicated && (service !in next.dedicated || next.dedicated[service] != cache.dedicated[service])
    then Some(cache.dedicated[service]) else None
  }

  /** What the cache holds for the assignment is the client `c`. */
  predicate Agrees<C>(cache: Cache<C>, a: Assignment, c: C) {
    if a.dedicated then HasTier(cache, a.serviceName, a.tier) && cache.dedicated[a.serviceName] == c
    else cache.shared == Some(c) && a.serviceName !in cache.dedicated
  }

  /** A hit under the read lock is exactly what the write-locked section would have done, whatever it could create. */
  lemma FastPathIsLookup<C>(cache: Cache<C>, a: Assignment, made: Option<C>)
    requires Cached(cache, a).Some?
    ensures ReadSection(cache, a) == WriteSection(cache, a, made)
  {
  }

  /** Serving has these effects: the other services keep their clients, the client served has one lease more, and the
      only client retired is the one this service no longer uses. */
  ghost predicate ServeEffects<C>(cache: Cache<C>, service: string, next: Cache<C>, served: C) {
    && next.dedicated - {service} == cache.dedicated - {service}
    && next.clients.Keys == cache.clients.Keys + {served}
    && (served !in cache.clients ==> next.clients[served].leases == 1)
    && forall c :: c in cache.clients ==>
      next.clients[c] == Managed(
        cache.clients[c].tier,
        cache.clients[c].leases + (if c == served then 1 else 0),
        cache.clients[c].retirements + (if Some(c) == Displaced(cache, service, next) then 1 else 0),
        cache.clients[c].drains)
  }

  lemma ServeSharedEffects<C>(cache: Cache<C>, service: string, made: Option<C>)
    requires Placed(cache) && (made.Some? ==> made.value !in cache.clients) && WriteShared(cache, service, made).1.Some?
    ensures var (next, served) := WriteShared(cache, service, made); ServeEffects(cache, service, next, served.value)
  {
    assert cache.shared.Some? ==> !Dedicated(cache, cache.shared.value);
  }

  lemma ServeDedicatedEffects<C>(cache: Cache<C>, service: string, tier: Tier, made: Option<C>)
    requires Placed(cache) && (made.Some? ==> made.value !in cache.clients) && WriteDedicated(cache, service, tier, made).1.Some?
    ensures var (next, served) := WriteDedicated(cache, service, tier, made); ServeEffects(cache, service, next, served.value)
  {
    assert service in cache.dedicated ==> InService(cache, cache.dedicated[service]);
  }

  /** Serving an assignment is one lookup or replacement, after which the cache agrees with the assignment. */
  lemma ServeIsLookupOrReplace<C>(cache: Cache<C>, a: Assignment, made: Option<C>)
    requires Placed(cache) && Admissible(cache, a, made)
    requires WriteSection(cache, a, made).1.Some?
    ensures var (next, served) := WriteSection(cache, a, made);
      && Agrees(next, a, served.value)
      && ServeEffects(cache, a.serviceName, next, served.value)
      && (served.value !in cache.clients ==> served == made)
  {
    if a.dedicated {
      ServeDedicatedEffects(cache, a.serviceName, a.tier, made);
    } else {
      ServeSharedEffects(cache, a.serviceName, made);
    }
  }

  lemma WriteKeepsShared<C>(cache: Cache<C>, a: Assignment, made: Option<C>)
    requires cache.shared.Some?
    ensures WriteSection(cache, a, made).0.shared == cache.shared
  {
  }

  /** A creation that fails leaves the cache as it was, except when a service leaving its dedicated client finds no
      shared client: its dedicated client is then retired already. */
  lemma FailureKeepsCacheIff<C>(cache: Cache<C>, a: Assignment)
    requires WriteSection(cache, a, None).1 == None
    ensures WriteSection(cache, a, None).0 == cache <==> a.dedicated || a.serviceName == "" || a.serviceName !in cache.dedicated
  {
    var next := WriteSection(cache, a, None).0;
    if !a.dedicated && a.serviceName != "" && a.serviceName in cache.dedicated {
      assert a.serviceName !in next.dedicated;
    }
  }

  /** Such a cache, though no run of the coordinator gets there. */
  lemma FailureCanDropClient()
    ensures var cache := Cache(None, map["s" := 1], map[1 := Managed(Hot, 0, 0, 0)]);
      && Placed(cache)
      && WriteSection(cache, Assignment("s", Shared, false), None) ==
         (Cache(None, map[], map[1 := Managed(Hot, 0, 1, 0)]), None)
  {
    var cache := Cache(None, map["s" := 1], map[1 := Managed(Hot, 0, 0, 0)]);
    assert cache.dedicated["s"] == 1;
    assert Dedicated(cache, 1);
    var (next, _) := WriteSection(cache, Assignment("s", Shared, false), None);
    assert next.dedicated == map[];
    assert next.clients == map[1 := Managed(Hot, 0, 1, 0)];
  }

  lemma LeaseKeepsPlaced<C>(cache: Cache<C>, c: C, client: Managed)
    requires Placed(cache) && c in cache.clients && SoundClient(client)
    requires client.retirements == cache.clients[c].retirements
    ensures Placed(cache.(clients := cache.clients[c := client]))
  {
    var next := cache.(clients := cache.clients[c := client]);
    forall d | d in next.clients && InService(next, d) ensures next.shared == Some(d) || Dedicated(next, d) {
      assert InService(cache, d);
    }
    assert forall d :: Dedicated(next, d) <==> Dedicated(cache, d);
  }

  lemma UnassignKeepsPlaced<C>(cache: Cache<C>, service: string)
    requires Placed(cache)
    ensures Placed(Unassign(cache, service)) && service !in Unassign(cache, service).dedicated
  {
    var next := Unassign(cache, service);
    if service in cache.dedicated {
      var left := cache.dedicated[service];
      assert Dedicated(cache, left);
      forall d | d in next.clients && InService(next, d) ensures next.shared == Some(d) || Dedicated(next, d) {
        assert InService(cache, d) && d != left;
        if cache.shared != Some(d) {
          var s :| s in cache.dedicated && cache.dedicated[s] == d;
          assert s in next.dedicated;
        }
      }
    }
  }

  lemma AcquireKeepsPlaced<C>(cache: Cache<C>, c: C)
    requires Placed(cache) && InService(cache, c)
    ensures Placed(Acquire(cache, c))
  {
    assert SoundClient(cache.clients[c]);
    LeaseKeepsPlaced(cache, c, cache.clients[c].(leases := cache.clients[c].leases + 1));
  }

  lemma WriteSharedKeepsPlaced<C>(cache: Cache<C>, service: string, made: Option<C>)
    requires Placed(cache) && (made.Some? ==> made.value !in cache.clients)
    ensures Placed(WriteShared(cache, service, made).0)
  {
    var freed := Unassign(cache, service);
    UnassignKeepsPlaced(cache, service);
    if freed.shared.Some? {
      AcquireKeepsPlaced(freed, freed.shared.value);
    } else if made.Some? {
      NewSharedIsPlaced(freed, made.value);
      AcquireKeepsPlaced(freed.(shared := made, clients := freed.clients[made.value := NEW_SHARED]), made.value);
    }
  }

  lemma NewSharedIsPlaced<C>(cache: Cache<C>, c: C)
    requires Placed(cache) && cache.shared == None && c !in cache.clients
    ensures Placed(cache.(shared := Some(c), clients := cache.clients[c := NEW_SHARED]))
  {
    var next := cache.(shared := Some(c), clients := cache.clients[c := NEW_SHARED]);
    forall d | d in next.clients && InService(next, d) ensures next.shared == Some(d) || Dedicated(next, d) {
      if d != c {
        assert InService(cache, d);
        assert Dedicated(cache, d);
      }
    }
  }

  lemma NewDedicatedIsPlaced<C>(cache: Cache<C>, service: string, c: C, tier: Tier)
    requires Placed(cache) && service != "" && service !in cache.dedicated && c !in cache.clients
    ensures Placed(Cache(cache.shared, cache.dedicated[service := c], cache.clients[c := Managed(tier, 0, 0, 0)]))
  {
    var next := Cache(cache.shared, cache.dedicated[service := c], cache.clients[c := Managed(tier, 0, 0, 0)]);
    assert next.dedicated[service] == c;
    forall d | d in next.clients && InService(next, d) ensures next.shared == Some(d) || Dedicated(next, d) {
      if d != c {
        assert InService(cache, d);
        if cache.shared != Some(d) {
          var s :| s in cache.dedicated && cache.dedicated[s] == d;
          assert s in next.dedicated && next.dedicated[s] == d;
        }
      }
    }
  }

  lemma UpdatesCommute<C>(clients: map<C, Managed>, a: C, x: Managed, b: C, y: Managed)
    requires a != b
    ensures clients[a := x][b := y] == clients[b := y][a := x]
  {
  }

  /** Replacing a service's client is leaving the old one and then taking a new one. */
  lemma ReplaceIsUnassignThenTake<C>(cache: Cache<C>, service: string, tier: Tier, c: C)
    requires service in cache.dedicated ==> cache.dedicated[service] in cache.clients
    requires service != "" && c !in cache.clients && !HasTier(cache, service, tier)
    ensures var freed := Unassign(cache, service);
      WriteDedicated(cache, service, tier, Some(c)).0 ==
      Acquire(Cache(freed.shared, freed.dedicated[service := c], freed.clients[c := Managed(tier, 0, 0, 0)]), c)
  {
    var freed, client := Unassign(cache, service), Managed(tier, 0, 0, 0);
    assert freed.dedicated[service := c] == cache.dedicated[service := c];
    if service in cache.dedicated {
      var left := cache.dedicated[service];
      var retired := cache.clients[left].(retirements := cache.clients[left].retirements + 1);
      UpdatesCommute(cache.clients, left, retired, c, client);
    }
  }

  lemma WriteDedicatedKeepsPlaced<C>(cache: Cache<C>, service: string, tier: Tier, made: Option<C>)
    requires Placed(cache) && service != "" && (made.Some? ==> made.value !in cache.clients)
    ensures Placed(WriteDedicated(cache, service, tier, made).0)
  {
    if HasTier(cache, service, tier) {
      AcquireKeepsPlaced(cache, cache.dedicated[service]);
    } else if made.Some? {
      var freed := Unassign(cache, service);
      var placed := Cache(freed.shared, freed.dedicated[service := made.value], freed.clients[made.value := Managed(tier, 0, 0, 0)]);
      UnassignKeepsPlaced(cache, service);
      NewDedicatedIsPlaced(freed, service, made.value, tier);
      AcquireKeepsPlaced(placed, made.value);
      assert service in cache.dedicated ==> InService(cache, cache.dedicated[service]);
      ReplaceIsUnassignThenTake(cache, service, tier, made.value);
    }
  }

  /** Serving an assignment keeps every client in its place. */
  lemma WriteKeepsPlaced<C>(cache: Cache<C>, a: Assignment, made: Option<C>)
    requires Placed(cache) && Admissible(cache, a, made)
    ensures Placed(WriteSection(cache, a, made).0)
  {
    if a.dedicated {
      WriteDedicatedKeepsPlaced(cache, a.serviceName, a.tier, made);
    } else {
      WriteSharedKeepsPlaced(cache, a.serviceName, made);
    }
  }

  lemma ReleaseKeepsPlaced<C>(cache: Cache<C>, c: C)
    requires Placed(cache) && c in cache.clients && cache.clients[c].leases > 0
    ensures Placed(Release(cache, c))
  {
    LeaseKeepsPlaced(cache, c, cache.clients[c].(leases := cache.clients[c].leases - 1));
  }

  lemma DrainKeepsPlaced<C>(cache: Cache<C>, c: C)
    requires Placed(cache)
    ensures Placed(Drain(cache, c))
  {
    if Drain(cache, c) != cache {
      LeaseKeepsPlaced(cache, c, cache.clients[c].(drains := cache.clients[c].drains + 1));
    }
  }
}
