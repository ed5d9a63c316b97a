/**
  What internal/cache computes, on values: the recency list (front = most
  recently used), the statistics, and one transition per public operation.
  Time is an integer argument; `Cache.dfy` proves the mutable cache against
  these functions, and `CacheTraces.dfy` and `CacheRecency.dfy` prove what holds
  of every trace of them, that order included.
 */
module CacheSpec {
  import opened Wrappers

  datatype Policy = LRU | LFU

  datatype Entry<V> = Entry(key: string, value: V, expiresAt: int, frequency: nat)

  datatype Config = Config(capacity: int, policy: Policy)

  datatype State<V> = State(entries: seq<Entry<V>>, hits: int, misses: int, size: int, evicted: int)

  // Go's zero time, which marks an entry that never expires.
  const ZERO_TIME := 0

  predicate IsExpired<V>(e: Entry<V>, now: int) {
    e.expiresAt != ZERO_TIME && now > e.expiresAt
  }

  // The entries one removal takes out of the list: some keys, or what was expired when
  // the clock was read for it.
  datatype Selector = Keys(keys: set<string>) | Expired(seen: map<string, int>)

  predicate Selects<V>(d: Selector, e: Entry<V>) {
    match d
    case Keys(keys) => e.key in keys
    case Expired(seen) => e.key in seen && IsExpired(e, seen[e.key])
  }

  function Purge<V>(es: seq<Entry<V>>, d: Selector): (r: seq<Entry<V>>)
    ensures |r| <= |es|
  {
    if es == [] then []
    else if Selects(d, es[0]) then Purge(es[1..], d)
    else [es[0]] + Purge(es[1..], d)
  }

  predicate MatchPattern(key: string, pattern: string) {
    if pattern == "*" then true
    else if |pattern| > 0 && pattern[|pattern| - 1] == '*' then
      |key| >= |pattern| - 1 && key[..|pattern| - 1] == pattern[..|pattern| - 1]
    else key == pattern
  }

  // Position of `key`, or |es| when it is absent.
  function IndexOf<V>(es: seq<Entry<V>>, key: string): (i: nat)
    ensures i <= |es|
    ensures i < |es| ==> es[i].key == key
    ensures forall j :: 0 <= j < i ==> es[j].key != key
  {
    if es == [] || es[0].key == key then 0 else 1 + IndexOf(es[1..], key)
  }

  function RemoveAt<T>(s: seq<T>, i: nat): seq<T>
    requires i < |s|
  {
    s[..i] + s[i + 1..]
  }

  // The entry an eviction takes: the oldest one, or the oldest of the least used.
  function Victim<V>(policy: Policy, es: seq<Entry<V>>): (v: nat)
    requires es != []
    ensures v < |es|
  {
    match policy
    case LRU => |es| - 1
    case LFU => if |es| == 1 then 0 else
      var v := 1 + Victim(policy, es[1..]);
      if es[0].frequency < es[v].frequency then 0 else v
  }

  function Drop<V>(s: State<V>, i: nat): State<V>
    requires i < |s.entries|
  {
    s.(entries := RemoveAt(s.entries, i), size := s.size - 1, evicted := s.evicted + 1)
  }

  function Evict<V>(cfg: Config, s: State<V>): State<V>
    decreases |s.entries|
  {
    if |s.entries| <= cfg.capacity || s.entries == [] then s
    else Evict(cfg, Drop(s, Victim(cfg.policy, s.entries)))
  }

  function Remove<V>(s: State<V>, d: Selector): State<V> {
    var rest := Purge(s.entries, d);
    var n := |s.entries| - |rest|;
    s.(entries := rest, size := s.size - n, evicted := s.evicted + n)
  }

  function Empty<V>(): State<V> { State([], 0, 0, 0, 0) }

  predicate Holds<V>(s: State<V>, key: string) { IndexOf(s.entries, key) < |s.entries| }

  function Get<V>(s: State<V>, key: string, now: int): (State<V>, Option<V>) {
    var i := IndexOf(s.entries, key);
    if i == |s.entries| then (s.(misses := s.misses + 1), None)
    else
      var e := s.entries[i];
      if IsExpired(e, now) then
        (Remove(s, Keys({key})).(misses := s.misses + 1), None)
      else
        var front := e.(frequency := e.frequency + 1);
        (s.(entries := [front] + Purge(s.entries, Keys({key})), hits := s.hits + 1), Some(e.value))
  }

  function Insert<V>(s: State<V>, e: Entry<V>): State<V> {
    s.(entries := [e] + Purge(s.entries, Keys({e.key})), size := s.size + 1)
  }

  function Set<V>(cfg: Config, s: State<V>, key: string, value: V, ttl: int, now: int): State<V> {
    Evict(cfg, Insert(s, Entry(key, value, now + ttl, 0)))
  }

  function Clear<V>(s: State<V>): State<V> { s.(entries := [], size := 0) }

  function KeysOf<V>(es: seq<Entry<V>>): set<string> { set i | 0 <= i < |es| :: es[i].key }

  function Matching<V>(es: seq<Entry<V>>, pattern: string): Selector {
    Keys(set k <- KeysOf(es) | MatchPattern(k, pattern))
  }

  function Invalidate<V>(s: State<V>, pattern: string): State<V> {
    if pattern == "*" then Clear(s) else Remove(s, Matching(s.entries, pattern))
  }

  // ---------------------------------------------------------------- traces

  datatype Op<V> =
    | GetOp(key: string, now: int)
    | SetOp(key: string, value: V, ttl: int, now: int)
    | DeleteOp(key: string)
    | ClearOp
    // The clock reading for each key of the list, and the time when the walk ends.
    | CleanupOp(seen: map<string, int>, now: int)
    | InvalidateOp(pattern: string)

  function Step<V>(cfg: Config, s: State<V>, op: Op<V>): State<V> {
    match op
    case GetOp(key, now) => Get(s, key, now).0
    case SetOp(key, value, ttl, now) => Set(cfg, s, key, value, ttl, now)
    case DeleteOp(key) => Remove(s, Keys({key}))
    case ClearOp => Clear(s)
    case CleanupOp(seen, _) => Remove(s, Expired(seen))
    case InvalidateOp(pattern) => Invalidate(s, pattern)
  }

  function Run<V>(cfg: Config, s: State<V>, ops: seq<Op<V>>): State<V>
    decreases |ops|
  {
    if ops == [] then s else Run(cfg, Step(cfg, s, ops[0]), ops[1..])
  }

  ghost predicate Distinct<V>(es: seq<Entry<V>>) {
    forall i, j :: 0 <= i < j < |es| ==> es[i].key != es[j].key
  }

  // ------------------------------------------------------ purging a list

  lemma {:induction false} PurgeMember<V>(es: seq<Entry<V>>, d: Selector, e: Entry<V>)
    ensures e in Purge(es, d) <==> e in es && !Selects(d, e)
  {
    if es != [] { PurgeMember(es[1..], d, e); }
  }

  lemma {:induction false} PurgeDistinct<V>(es: seq<Entry<V>>, d: Selector)
    requires Distinct(es)
    ensures Distinct(Purge(es, d))
  {
    if es != [] {
      var rest := Purge(es[1..], d);
      PurgeDistinct(es[1..], d);
      forall j | 0 <= j < |rest| ensures rest[j].key != es[0].key {
        PurgeMember(es[1..], d, rest[j]);
      }
    }
  }

  // On distinct keys, purging one key unlinks exactly one element.
  lemma {:induction false} PurgeKey<V>(es: seq<Entry<V>>, key: string)
    requires Distinct(es)
    ensures var i := IndexOf(es, key);
      Purge(es, Keys({key})) == if i < |es| then RemoveAt(es, i) else es
  {
    if es != [] {
      var rest := es[1..];
      PurgeKey(rest, key);
      if es[0].key == key {
        assert IndexOf(rest, key) == |rest|;
      } else if IndexOf(rest, key) < |rest| {
        var i := IndexOf(rest, key);
        assert [es[0]] + rest[..i] == es[..i + 1] && rest[i + 1..] == es[i + 2..];
      }
    }
  }

  lemma {:induction false} PurgeTwice<V>(es: seq<Entry<V>>, a: set<string>, b: set<string>)
    ensures Purge(Purge(es, Keys(a)), Keys(b)) == Purge(es, Keys(a + b))
  {
    if es != [] { PurgeTwice(es[1..], a, b); }
  }

  lemma {:induction false} PurgeNothing<V>(es: seq<Entry<V>>, d: Selector)
    requires forall i :: 0 <= i < |es| ==> !Selects(d, es[i])
    ensures Purge(es, d) == es
  {
    if es != [] { PurgeNothing(es[1..], d); }
  }

  lemma {:induction false} PurgeSplit<V>(a: seq<Entry<V>>, b: seq<Entry<V>>, d: Selector)
    ensures Purge(a + b, d) == Purge(a, d) + Purge(b, d)
  {
    if a == [] {
      assert a + b == b;
    } else {
      assert (a + b)[1..] == a[1..] + b;
      PurgeSplit(a[1..], b, d);
    }
  }

  // ------------------------------------------------------------ eviction

  // Eviction under LFU takes an entry of minimal frequency, and among those the
  // one nearest the back of the list; this determines the victim.
  lemma {:induction false} LfuVictimIsLastOfLeastUsed<V>(es: seq<Entry<V>>, v: nat)
    requires v < |es|
    ensures v == Victim(LFU, es) <==>
      && (forall i :: 0 <= i < |es| ==> es[v].frequency <= es[i].frequency)
      && (forall i :: v < i < |es| ==> es[v].frequency < es[i].frequency)
  {
    if |es| > 1 {
      var w := Victim(LFU, es[1..]);
      LfuVictimIsLastOfLeastUsed(es[1..], w);
      assert es[1..][w] == es[1 + w];
      assert forall i :: 1 <= i < |es| ==> es[i] == es[1..][i - 1];
      if v > 0 { LfuVictimIsLastOfLeastUsed(es[1..], v - 1); }
    }
  }

  lemma {:induction false} LruKeepsFront<V>(cfg: Config, s: State<V>)
    requires cfg.policy == LRU
    ensures Evict(cfg, s).entries == s.entries[..Min(|s.entries|, Room(cfg))]
    decreases |s.entries|
  {
    if !(|s.entries| <= cfg.capacity || s.entries == []) {
      LruKeepsFront(cfg, Drop(s, |s.entries| - 1));
    }
  }

  function Min(a: nat, b: nat): nat { if a < b then a else b }

  // Entries a cache of this capacity can hold: a negative capacity keeps none.
  function Room(cfg: Config): nat { if cfg.capacity < 0 then 0 else cfg.capacity }

  lemma {:induction false} EvictFacts<V>(cfg: Config, s: State<V>)
    ensures var t := Evict(cfg, s);
      && |t.entries| == Min(|s.entries|, Room(cfg))
      && t.evicted - s.evicted == |s.entries| - |t.entries| == s.size - t.size
      && t.hits == s.hits && t.misses == s.misses
      && (forall e :: e in t.entries ==> e in s.entries)
      && (Distinct(s.entries) ==> Distinct(t.entries))
    decreases |s.entries|
  {
    if !(|s.entries| <= cfg.capacity || s.entries == []) {
      EvictFacts(cfg, Drop(s, Victim(cfg.policy, s.entries)));
    }
  }

  lemma {:induction false} NewcomerIsVictim<V>(e: Entry<V>, es: seq<Entry<V>>)
    requires e.frequency == 0
    ensures Victim(LFU, [e] + es) == 0 <==> (forall i :: 0 <= i < |es| ==> es[i].frequency > 0)
  {
    var all := [e] + es;
    LfuVictimIsLastOfLeastUsed(all, 0);
    assert forall i :: 0 <= i < |es| ==> es[i] == all[i + 1];
  }

  // Under LFU a full cache throws out the entry it is inserting exactly when every
  // entry already there has been hit since it was set.
  lemma {:induction false} LfuRejectsNewcomer<V>(cfg: Config, s: State<V>, e: Entry<V>)
    requires cfg.policy == LFU && cfg.capacity == |s.entries|
    requires e.frequency == 0 && !Holds(s, e.key)
    ensures Evict(cfg, Insert(s, e)).entries == s.entries <==>
      (forall i :: 0 <= i < |s.entries| ==> s.entries[i].frequency > 0)
  {
    var es := s.entries;
    PurgeNothing(es, Keys({e.key}));
    NewcomerIsVictim(e, es);
    var v := Victim(LFU, [e] + es);
    var rest := RemoveAt([e] + es, v);
    assert Evict(cfg, Insert(s, e)).entries == rest;
    if v == 0 { assert rest == es; } else { assert rest[0] == e && es[0].key != e.key; }
  }
}
