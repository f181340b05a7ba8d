/** The objects of `internal/pool/client.go` and `internal/pool/coordinate.go`. */
module PoolCoordinator {
  import opened PolicyStore
  import opened PolicyTiers
  import opened PoolCache
  import opened Wrappers

  /** `managedClient`: the wait group's counter, the waiters started, and those that finished. */
  class ManagedClient {
    const tier: Tier
    var leases: int
    var retirements: nat
    var drains: nat

    constructor (tier: Tier)
      ensures this.tier == tier && Managed() == PoolCache.Managed(tier, 0, 0, 0)
    {
      this.tier := tier;
      leases, retirements, drains := 0, 0, 0;
    }

    ghost function Managed(): Managed
      reads this
    {
      PoolCache.Managed(tier, leases, retirements, drains)
    }

    method Acquire()
      modifies this
      ensures Managed() == old(Managed()).(leases := old(leases) + 1)
    {
      leases := leases + 1;
    }

    /** Finishes one lease; a wait group panics below zero. */
    method Release()
      requires leases > 0
      modifies this
      ensures leases >= 0 && Managed() == old(Managed()).(leases := old(leases) - 1)
    {
      leases := leases - 1;
    }

    /** Closes the idle connections and starts a waiter. */
    method Retire()
      modifies this
      ensures Managed() == old(Managed()).(retirements := old(retirements) + 1)
    {
      retirements := retirements + 1;
    }

    /** The rest of a waiter: past the wait, it closes the idle connections again. */
    method Drain()
      requires drains < retirements && leases == 0
      modifies this
      ensures Managed() == old(Managed()).(drains := old(drains) + 1)
    {
      drains := drains + 1;
    }
  }

  datatype AcquireError = NotLoaded | InvalidConfigKey | CreationFailed

  /** `Coordinator`; `created` are all clients it ever made. */
  class Coordinator {
    var shared: Option<ManagedClient>
    var dedicated: map<string, ManagedClient>
    ghost var created: set<ManagedClient>

    ghost function View(): Cache<ManagedClient>
      reads this, created
    {
      Cache(shared, dedicated, map c | c in created :: c.Managed())
    }

    ghost predicate Owned()
      reads this
    {
      && (shared.Some? ==> shared.value in created)
      && (forall service :: service in dedicated ==> dedicated[service] in created)
    }

    ghost predicate Valid()
      reads this, created
    {
      Owned() && Placed(View())
    }

    /** `NewCoordinator`, which does not return when the shared client cannot be made. */
    constructor ()
      ensures Valid() && fresh(created) && shared.Some?
      ensures dedicated == map[] && created == {shared.value} && shared.value.Managed() == NEW_SHARED
    {
      var client := new ManagedClient(Shared);
      shared, dedicated, created := Some(client), map[], {client};
      new;
      assert View().clients == map[client := NEW_SHARED];
    }

    // The statements both sections are made of, each with its effect on the cache.

    method Lease(client: ManagedClient)
      requires client in created
      modifies client
      ensures View() == PoolCache.Acquire(old(View()), client)
    {
      client.Acquire();
    }

    method RetireClient(client: ManagedClient)
      requires client in created
      modifies client
      ensures View() == PoolCache.Retire(old(View()), client)
    {
      client.Retire();
    }

    /** `newManagedClient` and `newSharedClient` when they succeed. */
    method Make(tier: Tier) returns (client: ManagedClient)
      modifies `created
      ensures fresh(client) && created == old(created) + {client} && client !in old(created)
      ensures View() == old(View()).(clients := old(View()).clients[client := PoolCache.Managed(tier, 0, 0, 0)])
    {
      client := new ManagedClient(tier);
      created := created + {client};
    }

    // The four locked sections.

    method ReadShared(service: string) returns (client: Option<ManagedClient>)
      requires Owned()
      modifies created
      ensures Owned()
      ensures (View(), client) == ReadSection(old(View()), Assignment(service, Shared, false))
    {
      if shared.Some? && (service !in dedicated || service == "") {
        Lease(shared.value);
        return shared;
      }
      return None;
    }

    method WriteShared(service: string, works: bool) returns (client: Option<ManagedClient>)
      requires Owned()
      modifies this, created
      ensures Owned() && fresh(created - old(created))
      ensures (View(), client) == PoolCache.WriteShared(old(View()), service, client)
      ensures client == None ==> !works
      ensures client.Some? ==> client == old(shared) || (fresh(client.value) && old(shared) == None)
    {
      if service != "" && service in dedicated {
        RetireClient(dedicated[service]);
        dedicated := dedicated - {service};
      }
      ghost var freed := View();
      assert freed == Unassign(old(View()), service);
      if shared == None {
        if !works {
          return None;
        }
        var sharedClient := Make(Shared);
        shared := Some(sharedClient);
        assert View() == freed.(shared := shared, clients := freed.clients[sharedClient := NEW_SHARED]);
      }
      Lease(shared.value);
      client := shared;
    }

    method ReadDedicated(service: string, tier: Tier) returns (client: Option<ManagedClient>)
      requires Owned()
      modifies created
      ensures Owned()
      ensures (View(), client) == ReadSection(old(View()), Assignment(service, tier, true))
    {
      if service in dedicated && dedicated[service].tier == tier {
        Lease(dedicated[service]);
        return Some(dedicated[service]);
      }
      return None;
    }

    method WriteDedicated(service: string, tier: Tier, works: bool) returns (client: Option<ManagedClient>)
      requires Owned()
      modifies this, created
      ensures Owned() && fresh(created - old(created))
      ensures (View(), client) == PoolCache.WriteDedicated(old(View()), service, tier, client)
      ensures client == None ==> !works
      ensures client.Some? ==> fresh(client.value) || HasTier(old(View()), service, tier)
    {
      if service in dedicated && dedicated[service].tier == tier {
        Lease(dedicated[service]);
        return Some(dedicated[service]);
      }
      if !works {
        return None;
      }
      var next := Make(tier);
      if service in dedicated {
        RetireClient(dedicated[service]);
      }
      ghost var freed := View();
      dedicated := dedicated[service := next];
      assert View() == freed.(dedicated := dedicated);
      Lease(next);
      return Some(next);
    }

    /** `Acquire`, when nothing happens between its sections: with the pool settings loaded, the assignment is served as
        one lookup or replacement, after which every client is in its place. */
    method Acquire(a: Assignment, loaded: bool, works: bool) returns (client: Result<ManagedClient, AcquireError>)
      requires Valid()
      modifies this, created
      ensures Valid() && fresh(created - old(created))
      ensures a.dedicated && (!loaded || a.serviceName == "") ==>
        View() == old(View()) && client == Failure(if loaded then InvalidConfigKey else NotLoaded)
      ensures !a.dedicated || (loaded && a.serviceName != "") ==>
        && (View(), Served(client)) == WriteSection(old(View()), a, Served(client))
        && (client.Failure? ==> client == Failure(CreationFailed) && !works)
    {
      if a.dedicated && !loaded {
        return Failure(NotLoaded);
      }
      if a.dedicated && a.serviceName == "" {
        return Failure(InvalidConfigKey);
      }
      ghost var before := View();
      var found;
      if a.dedicated {
        found := ReadDedicated(a.serviceName, a.tier);
      } else {
        found := ReadShared(a.serviceName);
      }
      if found == None {
        if a.dedicated {
          found := WriteDedicated(a.serviceName, a.tier, works);
        } else {
          found := WriteShared(a.serviceName, works);
        }
      }
      client := if found.Some? then Success(found.value) else Failure(CreationFailed);
      ghost var made := if found.Some? && found.value !in before.clients then found else None;
      assert (View(), found) == WriteSection(before, a, made);
      WriteKeepsPlaced(before, a, made);
    }
  }

  function Served(client: Result<ManagedClient, AcquireError>): Option<ManagedClient> {
    if client.Success? then Some(client.value) else None
  }
}
