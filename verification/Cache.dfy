/**
  The mutable cache of internal/cache: a dictionary and a recency list that share
  their elements. Every method is proved against the transition of CacheSpec with
  the same name, so what CacheTraces proves of traces holds of this object.
 */
module Cache {
  import opened Wrappers
  import Spec = CacheSpec
  import Traces = CacheTraces

  // A list element together with the entry it points to.
  class Element<V> {
    const key: string
    const value: V
    const expiresAt: int
    var frequency: nat

    constructor (key: string, value: V, expiresAt: int)
      ensures Snapshot() == Spec.Entry(key, value, expiresAt, 0)
      ensures this.key == key
    {
      this.key, this.value, this.expiresAt, frequency := key, value, expiresAt, 0;
    }

    ghost function Snapshot(): Spec.Entry<V>
      reads this
    {
      Spec.Entry(key, value, expiresAt, frequency)
    }

    predicate IsExpired(now: int) {
      expiresAt != Spec.ZERO_TIME && now > expiresAt
    }
  }

  ghost function Snapshots<V>(es: seq<Element<V>>): (r: seq<Spec.Entry<V>>)
    reads es
    ensures |r| == |es| && forall i :: 0 <= i < |es| ==> r[i] == es[i].Snapshot()
  {
    seq(|es|, i requires 0 <= i < |es| reads es => es[i].Snapshot())
  }

  // Where the list holds an element it is asked to unlink.
  function Position<V>(es: seq<Element<V>>, e: Element<V>): (i: nat)
    requires e in es
    ensures i < |es| && es[i] == e
  {
    if es[0] == e then 0 else 1 + Position(es[1..], e)
  }

  ghost predicate DistinctKeys<V>(lru: seq<Element<V>>) {
    forall i, j :: 0 <= i < j < |lru| ==> lru[i].key != lru[j].key
  }

  // The dictionary and the list are in bijection, on distinct keys.
  ghost predicate Linked<V>(items: map<string, Element<V>>, lru: seq<Element<V>>) {
    && DistinctKeys(lru)
    && (forall i :: 0 <= i < |lru| ==> lru[i].key in items && items[lru[i].key] == lru[i])
    && (forall k :: k in items ==> items[k] in lru && items[k].key == k)
  }

  lemma {:induction false} UnlinkDistinct<V>(lru: seq<Element<V>>, i: nat)
    requires DistinctKeys(lru) && i < |lru|
    ensures DistinctKeys(Spec.RemoveAt(lru, i)) && Position(lru, lru[i]) == i
  {
    var rest := Spec.RemoveAt(lru, i);
    forall x, y | 0 <= x < y < |rest| ensures rest[x].key != rest[y].key {
      var x', y' := if x < i then x else x + 1, if y < i then y else y + 1;
      assert rest[x] == lru[x'] && rest[y] == lru[y'];
    }
  }

  lemma {:induction false} UnlinkMembers<V>(lru: seq<Element<V>>, i: nat, e: Element<V>)
    requires DistinctKeys(lru) && i < |lru|
    ensures e in Spec.RemoveAt(lru, i) <==> e in lru && e != lru[i]
  {
    var rest := Spec.RemoveAt(lru, i);
    if e in rest {
      var j :| 0 <= j < |rest| && rest[j] == e;
      var j' := if j < i then j else j + 1;
      assert lru[j'] == e && lru[j'].key != lru[i].key;
    }
    if e in lru && e != lru[i] {
      var j :| 0 <= j < |lru| && lru[j] == e;
      assert rest[if j < i then j else j - 1] == e;
    }
  }

  lemma {:induction false} Unlink<V>(items: map<string, Element<V>>, lru: seq<Element<V>>, i: nat)
    requires Linked(items, lru) && i < |lru|
    ensures Linked(items - {lru[i].key}, Spec.RemoveAt(lru, i))
    ensures forall e :: e in Spec.RemoveAt(lru, i) <==> e in lru && e != lru[i]
    ensures Position(lru, lru[i]) == i
  {
    UnlinkDistinct(lru, i);
    forall e ensures e in Spec.RemoveAt(lru, i) <==> e in lru && e != lru[i] { UnlinkMembers(lru, i, e); }
    var rest, others := Spec.RemoveAt(lru, i), items - {lru[i].key};
    forall j | 0 <= j < |rest| ensures rest[j].key in others && others[rest[j].key] == rest[j] {
      assert rest[j] in rest;
    }
  }

  lemma {:induction false} SnapshotsUnlink<V>(lru: seq<Element<V>>, i: nat)
    requires i < |lru|
    ensures Snapshots(Spec.RemoveAt(lru, i)) == Spec.RemoveAt(Snapshots(lru), i)
  {
  }

  // Moving an element to the front.
  lemma {:induction false} Relink<V>(items: map<string, Element<V>>, lru: seq<Element<V>>, i: nat)
    requires Linked(items, lru) && i < |lru|
    ensures Linked(items, [lru[i]] + Spec.RemoveAt(lru, i)) && Position(lru, lru[i]) == i
    ensures Snapshots([lru[i]] + Spec.RemoveAt(lru, i)) == [lru[i].Snapshot()] + Spec.RemoveAt(Snapshots(lru), i)
  {
    hide Linked;
    Unlink(items, lru, i);
    RelinkKey(items, lru, i);
    Link(items - {lru[i].key}, Spec.RemoveAt(lru, i), lru[i]);
    SnapshotsUnlink(lru, i);
  }

  lemma {:induction false} RelinkKey<V>(items: map<string, Element<V>>, lru: seq<Element<V>>, i: nat)
    requires Linked(items, lru) && i < |lru|
    ensures (items - {lru[i].key})[lru[i].key := lru[i]] == items
  {
  }

  lemma {:induction false} Link<V>(items: map<string, Element<V>>, lru: seq<Element<V>>, e: Element<V>)
    requires Linked(items, lru) && e.key !in items
    ensures Linked(items[e.key := e], [e] + lru)
  {
    var es, all := [e] + lru, items[e.key := e];
    assert es[0] == e;
    forall k | k in all ensures all[k] in es && all[k].key == k {
      if k != e.key { assert items[k] in lru; }
    }
  }

  class Cache<V> {
    const capacity: int
    const ttl: int
    const policy: Spec.Policy
    var items: map<string, Element<V>>
    var lru: seq<Element<V>>
    var hits: int
    var misses: int
    var size: int
    var evicted: int

    ghost const cfg: Spec.Config := Spec.Config(capacity, policy)

    ghost predicate Valid()
      reads this
    {
      Linked(items, lru)
    }

    ghost function State(): Spec.State<V>
      reads this, lru
    {
      Spec.State(Snapshots(lru), hits, misses, size, evicted)
    }

    constructor (capacity: int, ttl: int, policy: Spec.Policy)
      ensures Valid() && State() == Spec.Empty()
      ensures this.capacity == capacity && this.ttl == ttl && this.policy == policy
    {
      this.capacity, this.ttl, this.policy := capacity, ttl, policy;
      items, lru := map[], [];
      hits, misses, size, evicted := 0, 0, 0, 0;
    }

    // A key is in the dictionary exactly when the list holds it, at the element the
    // dictionary names.
    lemma {:induction false} Located(key: string)
      requires Valid()
      ensures Spec.Distinct(State().entries)
      ensures key in items <==> Spec.Holds(State(), key)
      ensures key in items ==> lru[Spec.IndexOf(State().entries, key)] == items[key]
    {
      var i := Spec.IndexOf(State().entries, key);
      if key in items {
        var j :| 0 <= j < |lru| && lru[j] == items[key];
        assert State().entries[j].key == key;
      }
      if i < |lru| { assert lru[i].key == key; }
    }

    method Remove(elem: Element<V>, ghost i: nat)
      requires Valid() && i < |lru| && lru[i] == elem
      modifies this
      ensures Valid() && lru == Spec.RemoveAt(old(lru), i)
      ensures items == old(items) - {elem.key}
      ensures size == old(size) - 1 && evicted == old(evicted) + 1
      ensures hits == old(hits) && misses == old(misses)
      ensures State() == Spec.Drop(old(State()), i)
    {
      hide Linked, Snapshots, Spec.Distinct, Spec.Purge;
      Unlink(items, lru, i);
      SnapshotsUnlink(lru, i);
      items := items - {elem.key};
      lru := Spec.RemoveAt(lru, Position(lru, elem));
      size, evicted := size - 1, evicted + 1;
    }

    // Unlinking the element the dictionary names is removing its key.
    method RemoveKey(key: string)
      requires Valid() && key in items
      modifies this
      ensures Valid() && State() == Spec.Remove(old(State()), Spec.Keys({key}))
      ensures items == old(items) - {key}
      ensures lru == Spec.RemoveAt(old(lru), Spec.IndexOf(old(State().entries), key))
    {
      hide Linked, Snapshots, Spec.Distinct, Spec.Purge;
      Located(key);
      Spec.PurgeKey(State().entries, key);
      Remove(items[key], Spec.IndexOf(State().entries, key));
    }

    method EvictLRU()
      requires Valid() && policy == Spec.LRU
      modifies this
      ensures Valid() && State() == Spec.Evict(cfg, old(State()))
    {
      hide Linked, Snapshots, Spec.Distinct, Spec.Purge;
      while |lru| > capacity
        invariant Valid() && Spec.Evict(cfg, State()) == Spec.Evict(cfg, old(State()))
        decreases |lru|
      {
        if |lru| == 0 { break; }
        Remove(lru[|lru| - 1], |lru| - 1);
      }
    }

    // Scans from the back towards the front for the least used element.
    method LeastUsed() returns (target: Element<V>)
      requires |lru| > 0
      ensures target == lru[Spec.Victim(Spec.LFU, Snapshots(lru))]
    {
      ghost var v := |lru| - 1;
      target := lru[|lru| - 1];
      var targetFreq := target.frequency;
      var j := |lru| - 2;
      while j >= 0
        invariant -1 <= j < |lru| - 1 && j < v < |lru|
        invariant lru[v] == target && targetFreq == target.frequency
        invariant forall i :: j < i < |lru| ==> targetFreq <= lru[i].frequency
        invariant forall i :: v < i < |lru| ==> targetFreq < lru[i].frequency
      {
        if lru[j].frequency < targetFreq {
          target, v := lru[j], j;
          targetFreq := target.frequency;
        }
        j := j - 1;
      }
      Spec.LfuVictimIsLastOfLeastUsed(Snapshots(lru), v);
    }

    method EvictLFU()
      requires Valid() && policy == Spec.LFU
      modifies this
      ensures Valid() && State() == Spec.Evict(cfg, old(State()))
    {
      hide Linked, Snapshots, Spec.Distinct, Spec.Purge;
      while |lru| > capacity
        invariant Valid() && Spec.Evict(cfg, State()) == Spec.Evict(cfg, old(State()))
        decreases |lru|
      {
        if |lru| == 0 { break; }
        var target := LeastUsed();
        Remove(target, Spec.Victim(Spec.LFU, Snapshots(lru)));
      }
    }

    method Evict()
      requires Valid()
      modifies this
      ensures Valid() && State() == Spec.Evict(cfg, old(State()))
    {
      if |lru| <= capacity { return; }
      match policy
      case LFU => EvictLFU();
      case LRU => EvictLRU();
    }

    method Touch(elem: Element<V>, ghost i: nat)
      requires Valid() && i < |lru| && lru[i] == elem
      modifies elem
      ensures elem.Snapshot() == old(elem.Snapshot()).(frequency := old(elem.frequency) + 1)
      ensures Snapshots(lru) == old(Snapshots(lru))[i := elem.Snapshot()]
    {
      elem.frequency := elem.frequency + 1;
      assert forall j :: 0 <= j < |lru| && j != i ==> lru[j].key != lru[i].key;
    }

    method MoveToFront(elem: Element<V>, ghost i: nat)
      requires Valid() && i < |lru| && lru[i] == elem
      modifies this`lru
      ensures Valid() && lru == [elem] + Spec.RemoveAt(old(lru), i)
      ensures Snapshots(lru) == [elem.Snapshot()] + Spec.RemoveAt(old(Snapshots(lru)), i)
    {
      hide Linked, Snapshots, Position, Spec.RemoveAt;
      Relink(items, lru, i);
      lru := [elem] + Spec.RemoveAt(lru, Position(lru, elem));
    }

    method Get(key: string, now: int) returns (value: Option<V>)
      requires Valid()
      modifies this, lru
      ensures Valid() && (State(), value) == Spec.Get(old(State()), key, now)
    {
      hide Linked, Snapshots, Spec.Distinct, Spec.Purge, Spec.RemoveAt;
      Located(key);
      if key in items {
        var elem := items[key];
        if elem.IsExpired(now) {
          RemoveKey(key);
          misses := misses + 1;
          return None;
        }
        ghost var before, i := State().entries, Spec.IndexOf(State().entries, key);
        Spec.PurgeKey(before, key);
        Touch(elem, i);
        MoveToFront(elem, i);
        hits := hits + 1;
        RemoveUpdated(before, i, elem.Snapshot());
        return Some(elem.value);
      }
      misses := misses + 1;
      return None;
    }

    method Set(key: string, value: V, now: int)
      requires Valid()
      modifies this
      ensures Valid() && State() == Spec.Set(cfg, old(State()), key, value, ttl, now)
    {
      SetWithTTL(key, value, ttl, now);
    }

    // Takes a key out without counting an eviction.
    method Forget(key: string)
      requires Valid() && key in items
      modifies this`items, this`lru
      ensures Valid() && key !in items
      ensures Snapshots(lru) == Spec.Purge(old(Snapshots(lru)), Spec.Keys({key}))
    {
      hide Linked, Snapshots, Spec.Distinct, Spec.Purge;
      Located(key);
      ghost var i := Spec.IndexOf(State().entries, key);
      Spec.PurgeKey(State().entries, key);
      Unlink(items, lru, i);
      SnapshotsUnlink(lru, i);
      lru := Spec.RemoveAt(lru, Position(lru, items[key]));
      items := items - {key};
    }

    method PushFront(elem: Element<V>)
      requires Valid() && elem.key !in items
      modifies this`items, this`lru
      ensures Valid()
      ensures Snapshots(lru) == [elem.Snapshot()] + old(Snapshots(lru))
    {
      hide Linked;
      Link(items, lru, elem);
      lru := [elem] + lru;
      items := items[elem.key := elem];
    }

    method SetWithTTL(key: string, value: V, ttl: int, now: int)
      requires Valid()
      modifies this
      ensures Valid() && State() == Spec.Set(cfg, old(State()), key, value, ttl, now)
    {
      hide Linked, Snapshots, Spec.Distinct, Spec.Evict, Spec.Purge;
      Located(key);
      if key in items { Forget(key); } else { Spec.PurgeKey(State().entries, key); }
      var elem := new Element<V>(key, value, now + ttl);
      PushFront(elem);
      size := size + 1;
      assert State() == Spec.Insert(old(State()), elem.Snapshot());
      Evict();
    }

    method Delete(key: string) returns (found: bool)
      requires Valid()
      modifies this
      ensures Valid() && State() == Spec.Remove(old(State()), Spec.Keys({key}))
      ensures found == Spec.Holds(old(State()), key)
    {
      Located(key);
      found := key in items;
      if found { RemoveKey(key); } else { Spec.PurgeKey(State().entries, key); }
    }

    method Exists(key: string, now: int) returns (live: bool)
      requires Valid()
      ensures live == Spec.Get(State(), key, now).1.Some?
    {
      Located(key);
      live := key in items && !items[key].IsExpired(now);
    }

    method Clear()
      requires Valid()
      modifies this
      ensures Valid() && State() == Spec.Clear(old(State()))
    {
      items, lru, size := map[], [], 0;
    }

    // The clock is read anew for every entry the walk comes to.
    method Cleanup(clock: nat -> int) returns (removed: nat)
      requires Valid()
      modifies this
      ensures Valid() && State() == Spec.Remove(old(State()), Spec.Expired(Reads(old(State().entries), clock)))
      ensures removed == |old(lru)| - |lru|
    {
      hide Linked, Snapshots, CleanedTo, Reads, Spec.Purge, Spec.Distinct;
      removed := 0;
      ghost var before, p := State(), 0;
      ghost var d := Spec.Expired(Reads(before.entries, clock));
      var i, visited := 0, 0;
      Located("");
      CleanupEnds(before.entries, p, State().entries, i, d);
      while i < |lru|
        invariant Valid() && CleanedTo(before.entries, p, State().entries, i, d)
        invariant removed == p - i && visited == p
        invariant State() == before.(entries := State().entries, size := before.size - removed,
                                     evicted := before.evicted + removed)
        decreases |before.entries| - p
      {
        var elem := lru[i];
        CleanupEnds(before.entries, p, State().entries, i, d);
        CleanupStep(before.entries, p, State().entries, i, d);
        ReadAt(before.entries, clock, p);
        if elem.IsExpired(clock(visited)) {
          Remove(elem, i);
          removed := removed + 1;
        } else {
          i := i + 1;
        }
        p, visited := p + 1, visited + 1;
      }
      CleanupEnds(before.entries, p, State().entries, i, d);
    }
  }

  // The reading of the clock at each entry, by key.
  ghost function Reads<V>(es: seq<Spec.Entry<V>>, clock: nat -> int): map<string, int> {
    map k | k in Spec.KeysOf(es) :: clock(Spec.IndexOf(es, k))
  }

  lemma {:induction false} ReadAt<V>(es: seq<Spec.Entry<V>>, clock: nat -> int, p: nat)
    requires Spec.Distinct(es)
    ensures p < |es| ==> es[p].key in Reads(es, clock) && Reads(es, clock)[es[p].key] == clock(p)
  {
    if p < |es| { assert es[p].key in Spec.KeysOf(es) && Spec.IndexOf(es, es[p].key) == p; }
  }

  // Entries before position i are done, those from i on are still to be visited.
  ghost predicate CleanedTo<V>(before: seq<Spec.Entry<V>>, p: nat, es: seq<Spec.Entry<V>>, i: nat, d: Spec.Selector) {
    p <= |before| && i <= |es| && es[..i] == Spec.Purge(before[..p], d) && es[i..] == before[p..]
  }

  lemma {:induction false} RemoveUpdated<T>(s: seq<T>, i: nat, x: T)
    requires i < |s|
    ensures Spec.RemoveAt(s[i := x], i) == Spec.RemoveAt(s, i)
  {
  }

  lemma {:induction false} CleanupEnds<V>(
    before: seq<Spec.Entry<V>>, p: nat, es: seq<Spec.Entry<V>>, i: nat, d: Spec.Selector)
    ensures es == before ==> CleanedTo(before, 0, es, 0, d)
    ensures CleanedTo(before, p, es, i, d) && i >= |es| ==> es == Spec.Purge(before, d) && p == |before|
    ensures CleanedTo(before, p, es, i, d) ==> p <= |before| && i <= |es| && |es| - i == |before| - p
  {
    if CleanedTo(before, p, es, i, d) && i >= |es| {
      assert es[..i] == es && before[p..] == [];
      assert before[..p] == before;
    }
  }

  lemma {:induction false} CleanupStep<V>(
    before: seq<Spec.Entry<V>>, p: nat, es: seq<Spec.Entry<V>>, i: nat, d: Spec.Selector)
    requires CleanedTo(before, p, es, i, d) && i < |es|
    ensures if Spec.Selects(d, es[i]) then CleanedTo(before, p + 1, Spec.RemoveAt(es, i), i, d)
            else CleanedTo(before, p + 1, es, i + 1, d)
    ensures p < |before| && es[i] == before[p]
  {
    assert es[i] == es[i..][0] == before[p];
    assert es[i + 1..] == es[i..][1..] == before[p + 1..];
    assert before[..p + 1] == before[..p] + [before[p]];
    Spec.PurgeSplit(before[..p], [before[p]], d);
    assert es[..i + 1] == es[..i] + [es[i]];
    assert Spec.RemoveAt(es, i)[..i] == es[..i] && Spec.RemoveAt(es, i)[i..] == es[i + 1..];
  }

  function MatchedAmong(done: set<string>, pattern: string): set<string> {
    set k <- done | Spec.MatchPattern(k, pattern)
  }

  class HTTPCache<V> {
    const cache: Cache<V>

    constructor (ttl: int)
      ensures cache.Valid() && cache.State() == Spec.Empty()
      ensures cache.cfg == Spec.Config(1000, Spec.LRU) && cache.ttl == ttl
    {
      cache := new Cache<V>(1000, ttl, Spec.LRU);
    }

    // Visits the keys in no particular order, as a Go map range does.
    method Invalidate(pattern: string)
      requires cache.Valid()
      modifies cache
      ensures cache.Valid() && cache.State() == Spec.Invalidate(old(cache.State()), pattern)
      ensures Traces.OthersLeft(old(cache.State().entries), cache.State().entries, pattern)
    {
      hide Traces.OthersLeft;
      Traces.InvalidateLeavesOthers(cache.State(), pattern);
      if pattern == "*" {
        cache.Clear();
        return;
      }
      hide Linked, Snapshots, MatchedAmong, Spec.Purge, Spec.MatchPattern;
      ghost var before, all := cache.State(), cache.items.Keys;
      var keys := cache.items.Keys;
      InvalidateStart(before, all, pattern);
      MatchedAll(cache, pattern);
      while keys != {}
        invariant cache.Valid() && keys <= all
        invariant cache.items.Keys == all - MatchedAmong(all - keys, pattern)
        invariant cache.State() == Spec.Remove(before, Spec.Keys(MatchedAmong(all - keys, pattern)))
        decreases keys
      {
        var key :| key in keys;
        InvalidateStep(before, all, keys, key, pattern);
        keys := keys - {key};
        if Spec.MatchPattern(key, pattern) {
          if key in cache.items {
            cache.RemoveKey(key);
          }
        }
      }
      assert all - keys == all;
    }
  }

  lemma {:induction false} MatchedAll<V>(c: Cache<V>, pattern: string)
    requires c.Valid()
    ensures Spec.Matching(c.State().entries, pattern) == Spec.Keys(MatchedAmong(c.items.Keys, pattern))
  {
    forall k ensures k in Spec.KeysOf(c.State().entries) <==> k in c.items { c.Located(k); }
  }

  lemma {:induction false} InvalidateStart<V>(s: Spec.State<V>, all: set<string>, pattern: string)
    ensures MatchedAmong(all - all, pattern) == {}
    ensures Spec.Remove(s, Spec.Keys({})) == s
  {
    Spec.PurgeNothing(s.entries, Spec.Keys({}));
  }

  // What visiting one more of the keys adds to the keys matched so far.
  lemma {:induction false} InvalidateStep<V>(
    s: Spec.State<V>, all: set<string>, keys: set<string>, key: string, pattern: string)
    requires keys <= all && key in keys
    ensures var gone, next := MatchedAmong(all - keys, pattern), MatchedAmong(all - (keys - {key}), pattern);
      if Spec.MatchPattern(key, pattern) then
        && key !in gone && all - next == all - gone - {key}
        && Spec.Remove(Spec.Remove(s, Spec.Keys(gone)), Spec.Keys({key})) == Spec.Remove(s, Spec.Keys(next))
      else next == gone
  {
    var gone, next := MatchedAmong(all - keys, pattern), MatchedAmong(all - (keys - {key}), pattern);
    if Spec.MatchPattern(key, pattern) {
      assert next == gone + {key};
      Spec.PurgeTwice(s.entries, gone, {key});
    } else {
      assert next == gone;
    }
  }
}
