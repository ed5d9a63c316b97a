/**
  The mutable rate limiter of internal/api, proved call by call against
  RateLimitSpec. The clock is an argument; one sweep of the background goroutine is
  one call of `Cleanup`.
 */
module RateLimit {
  import Spec = RateLimitSpec

  const DEFAULT_MAX_CLIENTS: nat := 10000

  class ClientRecord {
    var tokens: int
    var lastSeen: int

    constructor (tokens: int, lastSeen: int)
      ensures this.tokens == tokens && this.lastSeen == lastSeen
    {
      this.tokens, this.lastSeen := tokens, lastSeen;
    }

    ghost function View(): Spec.Record
      reads this
    {
      Spec.Record(tokens, lastSeen)
    }
  }

  class RateLimiter {
    var clients: map<string, ClientRecord>
    const rate: int
    const window: int
    const maxClients: nat

    ghost const cfg: Spec.Config := Spec.Config(rate, window, maxClients)

    // No two clients share a record.
    ghost predicate Valid()
      reads this
    {
      cfg.Sane() && forall a, b :: a in clients && b in clients && a != b ==> clients[a] != clients[b]
    }

    ghost function View(): (m: Spec.Clients)
      reads this, clients.Values
      ensures m.Keys == clients.Keys && forall id :: id in m ==> m[id] == clients[id].View()
    {
      map id | id in clients :: clients[id].View()
    }

    constructor (requestsPerWindow: int, window: int)
      requires Spec.MIN <= requestsPerWindow <= Spec.MAX && 0 < window <= Spec.MAX
      ensures Valid() && View() == map[]
      ensures cfg == Spec.Config(requestsPerWindow, window, DEFAULT_MAX_CLIENTS)
    {
      clients := map[];
      rate, this.window, maxClients := requestsPerWindow, window, DEFAULT_MAX_CLIENTS;
    }

    // What the table looks like after writing to one client's record.
    twostate lemma {:induction false} OneRecordWritten(id: string)
      requires old(Valid()) && clients == old(clients) && id in clients
      requires forall k :: k in clients && k != id ==> clients[k].View() == old(clients[k].View())
      ensures View() == old(View())[id := clients[id].View()]
    {
    }

    // The lazy refill at the start of Allow.
    method Refill(record: ClientRecord, now: int)
      requires cfg.Sane()
      modifies record
      ensures record.View() == Spec.Refill(cfg, old(record.View()), now)
    {
      hide Spec.Wrap, Spec.Quotient, Spec.Elapsed;
      var elapsed := Spec.Elapsed(now, record.lastSeen);
      var refills := Spec.Wrap(Spec.Quotient(elapsed, window) * rate);
      if refills > 0 {
        record.tokens := Spec.Wrap(record.tokens + refills);
        if record.tokens > rate {
          record.tokens := rate;
        }
        record.lastSeen := now;
      }
    }

    method Allow(clientID: string, now: int) returns (ok: bool)
      requires Valid()
      modifies this, clients.Values
      ensures Valid() && (View(), ok) == Spec.Allow(cfg, old(View()), clientID, now)
    {
      hide Spec.Wrap, Spec.Refill, View;
      SameSize();
      if clientID !in clients {
        if |clients| >= maxClients { return false; }
        var added := new ClientRecord(Spec.Wrap(rate - 1), now);
        clients := clients[clientID := added];
        assert View() == old(View())[clientID := added.View()];
        return true;
      }
      var record := clients[clientID];
      Refill(record, now);
      if record.tokens <= 0 {
        OneRecordWritten(clientID);
        return false;
      }
      record.tokens := record.tokens - 1;
      record.lastSeen := now;
      OneRecordWritten(clientID);
      return true;
    }

    lemma {:induction false} SameSize()
      ensures |View()| == |clients|
    {
      assert View().Keys == clients.Keys;
      assert |View()| == |View().Keys| && |clients| == |clients.Keys|;
    }

    method Remaining(clientID: string, now: int) returns (tokens: int)
      requires Valid()
      ensures tokens == Spec.Remaining(cfg, View(), clientID, now)
    {
      if clientID !in clients { return rate; }
      var record := clients[clientID];
      var elapsed := Spec.Elapsed(now, record.lastSeen);
      var refills := Spec.Wrap(Spec.Quotient(elapsed, window) * rate);
      tokens := Spec.Wrap(record.tokens + refills);
      if tokens > rate {
        tokens := rate;
      }
    }

    method ResetTime(clientID: string, now: int) returns (at: int)
      requires Valid()
      ensures at == Spec.ResetTime(cfg, View(), clientID, now)
      ensures at == if clientID in View() then View()[clientID].lastSeen + window else now
    {
      if clientID !in clients { return now; }
      return clients[clientID].lastSeen + window;
    }

    method Reset()
      requires Valid()
      modifies this
      ensures Valid() && View() == map[]
    {
      clients := map[];
    }

    // One tick of the sweeper, which visits the records in no particular order and
    // deletes as it goes.
    method Cleanup(now: int)
      requires Valid()
      modifies this
      ensures Valid() && View() == Spec.Sweep(cfg, old(View()), now)
    {
      hide Spec.Wrap;
      var ids := clients.Keys;
      while ids != {}
        invariant Valid() && ids <= old(clients).Keys
        invariant forall id :: id in clients <==>
          id in old(clients) && (id in ids || !Spec.Stale(cfg, old(clients)[id].View(), now))
        invariant forall id :: id in clients ==> clients[id] == old(clients)[id]
        decreases ids
      {
        var id :| id in ids;
        ids := ids - {id};
        if Spec.Elapsed(now, clients[id].lastSeen) > Spec.Wrap(window * 10) {
          clients := clients - {id};
        }
      }
    }
  }
}
