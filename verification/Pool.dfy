/** The connection pool of internal/broker. */
module Pool {
  import opened Wrappers
  import Spec = PoolSpec

  class ConnectionPool<B> {
    const brokers: seq<B>
    const healthy: array<bool>
    const createdAt: seq<int>
    var maxLifetime: int
    // A 64-bit counter; Next takes a ticket from it in one atomic step.
    var current: int
    var nextCalls: int
    var healthChecks: int

    ghost predicate Valid()
      reads this
    {
      healthy.Length == |brokers| == |createdAt| && 0 <= current < Spec.TWO_64
    }

    constructor (brokers: seq<B>, now: int)
      ensures Valid() && this.brokers == brokers && current == 0 && maxLifetime == 0 && fresh(healthy)
      ensures forall i :: 0 <= i < |brokers| ==> healthy[i] && createdAt[i] == now
    {
      this.brokers := brokers;
      healthy := new bool[|brokers|](_ => true);
      createdAt := seq(|brokers|, _ => now);
      maxLifetime, current, nextCalls, healthChecks := 0, 0, 0, 0;
    }

    method Next() returns (broker: Option<B>)
      requires Valid()
      modifies this`current, this`nextCalls
      ensures Valid() && nextCalls == old(nextCalls) + 1
      ensures current == if |brokers| == 0 then old(current) else (old(current) + 1) % Spec.TWO_64
      ensures match Spec.Land(healthy[..], old(current))
        case Some(b) => b < |brokers| && broker == Some(brokers[b])
        case None => broker == None
    {
      nextCalls := nextCalls + 1;
      if |brokers| == 0 { return None; }
      var start := current;
      current := (current + 1) % Spec.TWO_64;
      for i := 0 to |brokers|
        invariant Spec.Land(healthy[..], start) == Spec.ScanFrom(healthy[..], start, i)
      {
        var idx := Spec.Index(start, i, |brokers|);
        if healthy[idx] { return Some(brokers[idx]); }
      }
      return None;
    }

    method HealthyCount() returns (count: nat)
      requires Valid()
      ensures count == |set i | 0 <= i < |brokers| && healthy[i]|
    {
      count := 0;
      for i := 0 to healthy.Length
        invariant count == |set j | 0 <= j < i && healthy[j]|
      {
        ghost var before, after := set j | 0 <= j < i && healthy[j], set j | 0 <= j < i + 1 && healthy[j];
        if healthy[i] {
          assert after == before + {i};
          count := count + 1;
        } else {
          assert after == before;
        }
      }
    }

    method SetHealthy(index: int, up: bool)
      requires Valid()
      modifies healthy
      ensures healthy[..] == if 0 <= index < |brokers| then old(healthy[..])[index := up] else old(healthy[..])
    {
      if index >= 0 && index < healthy.Length {
        healthy[index] := up;
      }
    }

    method CheckHealth(check: B -> bool, now: int)
      requires Valid()
      modifies healthy, this`healthChecks
      ensures Valid() && healthChecks == old(healthChecks) + 1
      ensures forall i :: 0 <= i < |brokers| ==>
        (healthy[i] <==> check(brokers[i]) && !(maxLifetime > 0 && now - createdAt[i] > maxLifetime))
    {
      healthChecks := healthChecks + 1;
      for i := 0 to |brokers|
        invariant healthChecks == old(healthChecks) + 1
        invariant forall j :: 0 <= j < i ==>
          (healthy[j] <==> check(brokers[j]) && !(maxLifetime > 0 && now - createdAt[j] > maxLifetime))
      {
        var up := check(brokers[i]);
        if up && maxLifetime > 0 && now - createdAt[i] > maxLifetime {
          up := false;
        }
        healthy[i] := up;
      }
    }

    // Dropping the limit marks every member healthy again, whatever it was.
    method SetMaxLifetime(d: int, now: int)
      requires Valid()
      modifies healthy, this`maxLifetime
      ensures Valid() && maxLifetime == d
      ensures forall i :: 0 <= i < |brokers| ==>
        healthy[i] == if d <= 0 then true else old(healthy[i]) && now - createdAt[i] <= d
    {
      maxLifetime := d;
      for i := 0 to |brokers|
        invariant maxLifetime == d
        invariant forall j :: 0 <= j < i ==>
          healthy[j] == if d <= 0 then true else old(healthy[j]) && now - createdAt[j] <= d
        invariant forall j :: i <= j < |brokers| ==> healthy[j] == old(healthy[j])
      {
        if d <= 0 {
          healthy[i] := true;
        } else if now - createdAt[i] > d {
          healthy[i] := false;
        }
      }
    }
  }
}
