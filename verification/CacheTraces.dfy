/** Properties of every trace of cache operations. */
module CacheTraces {
  import opened Wrappers
  import opened CacheSpec

  // ------------------------------------------------- LRU stack inclusion

  // `small` is obtained from `large` by leaving entries out.
  ghost predicate Subsequence<V>(small: seq<Entry<V>>, large: seq<Entry<V>>) {
    small == [] ||
    (large != [] &&
     ((small[0] == large[0] && Subsequence(small[1..], large[1..])) || Subsequence(small, large[1..])))
  }

  lemma {:induction false} SubsequenceMember<V>(small: seq<Entry<V>>, large: seq<Entry<V>>, e: Entry<V>)
    requires Subsequence(small, large)
    ensures |small| <= |large|
    ensures e in small ==> e in large
    decreases |large|
  {
    if small != [] {
      if small[0] == large[0] && Subsequence(small[1..], large[1..]) {
        SubsequenceMember(small[1..], large[1..], e);
      } else {
        SubsequenceMember(small, large[1..], e);
      }
    }
  }

  // Purging both lists keeps the relation and does not widen the gap in length.
  lemma {:induction false} PurgeBoth<V>(small: seq<Entry<V>>, large: seq<Entry<V>>, d: Selector)
    requires Subsequence(small, large)
    ensures Subsequence(Purge(small, d), Purge(large, d))
    ensures |Purge(large, d)| - |Purge(small, d)| <= |large| - |small|
    decreases |large|
  {
    if small != [] {
      if small[0] == large[0] && Subsequence(small[1..], large[1..]) {
        PurgeBoth(small[1..], large[1..], d);
        var s, l := Purge(small, d), Purge(large, d);
        assert !Selects(d, small[0]) ==> s[1..] == Purge(small[1..], d) && l[1..] == Purge(large[1..], d);
      } else {
        PurgeBoth(small, large[1..], d);
        var l := Purge(large, d);
        assert !Selects(d, large[0]) ==> l[1..] == Purge(large[1..], d);
      }
    }
  }

  lemma {:induction false} TruncateBoth<V>(small: seq<Entry<V>>, large: seq<Entry<V>>, m: nat, n: nat)
    requires Subsequence(small, large)
    requires m <= |small| && n <= |large| && |large| - n <= |small| - m
    ensures Subsequence(small[..m], large[..n])
    decreases |large|
  {
    if m > 0 {
      if small[0] == large[0] && Subsequence(small[1..], large[1..]) {
        SubsequenceMember(small[1..], large[1..], small[0]);
        TruncateBoth(small[1..], large[1..], m - 1, n - 1);
        assert small[1..][..m - 1] == small[..m][1..];
        assert large[1..][..n - 1] == large[..n][1..];
      } else {
        SubsequenceMember(small, large[1..], small[0]);
        TruncateBoth(small, large[1..], m, n - 1);
        assert large[1..][..n - 1] == large[..n][1..];
      }
    }
  }

  // The smaller cache's list is a subsequence of the larger one's, the two differ
  // in length by at most the difference in capacity, and neither overflows.
  ghost predicate Included<V>(c: Config, small: seq<Entry<V>>, c': Config, large: seq<Entry<V>>) {
    && Distinct(small) && Distinct(large)
    && |small| <= Room(c) && |large| <= Room(c') && Room(c) <= Room(c')
    && Subsequence(small, large)
    && |large| - |small| <= Room(c') - Room(c)
  }

  lemma {:induction false} FoundInBoth<V>(small: seq<Entry<V>>, large: seq<Entry<V>>, key: string)
    requires Subsequence(small, large) && Distinct(large)
    requires IndexOf(small, key) < |small|
    ensures IndexOf(large, key) < |large|
    ensures small[IndexOf(small, key)] == large[IndexOf(large, key)]
  {
    var e := small[IndexOf(small, key)];
    SubsequenceMember(small, large, e);
    var j :| 0 <= j < |large| && large[j] == e;
  }

  function ToFront<V>(e: Entry<V>, es: seq<Entry<V>>): (r: seq<Entry<V>>)
    ensures |r| > 0 && r[0] == e && r[1..] == Purge(es, Keys({e.key}))
  {
    [e] + Purge(es, Keys({e.key}))
  }

  lemma {:induction false} ToFrontFacts<V>(e: Entry<V>, es: seq<Entry<V>>)
    requires Distinct(es)
    ensures Distinct(ToFront(e, es))
    ensures |ToFront(e, es)| == |es| + if IndexOf(es, e.key) < |es| then 0 else 1
  {
    var rest := Purge(es, Keys({e.key}));
    PurgeKey(es, e.key);
    PurgeDistinct(es, Keys({e.key}));
    forall j | 0 <= j < |rest| ensures rest[j].key != e.key {
      PurgeMember(es, Keys({e.key}), rest[j]);
    }
  }

  lemma {:induction false} AbsentPurge<V>(es: seq<Entry<V>>, key: string)
    requires Distinct(es)
    ensures IndexOf(es, key) == |es| ==> Purge(es, Keys({key})) == es
  {
    PurgeKey(es, key);
  }

  // A hit moves the entry to the front of every list that has it.
  lemma {:induction false} HitKeepsInclusion<V>(
    c: Config, small: seq<Entry<V>>, c': Config, large: seq<Entry<V>>, e: Entry<V>)
    requires Included(c, small, c', large) && IndexOf(large, e.key) < |large|
    ensures Included(c, if IndexOf(small, e.key) < |small| then ToFront(e, small) else small, c', ToFront(e, large))
  {
    PurgeBoth(small, large, Keys({e.key}));
    PurgeKey(small, e.key);
    ToFrontFacts(e, small);
    ToFrontFacts(e, large);
    assert Subsequence(ToFront(e, small), ToFront(e, large));
    assert Subsequence(Purge(small, Keys({e.key})), ToFront(e, large));
  }

  lemma {:induction false} GetKeepsInclusion<V>(c: Config, s: State<V>, c': Config, s': State<V>, key: string, now: int)
    requires Included(c, s.entries, c', s'.entries)
    ensures Included(c, Get(s, key, now).0.entries, c', Get(s', key, now).0.entries)
    ensures Get(s, key, now).1.Some? ==> Get(s', key, now).1 == Get(s, key, now).1
  {
    var small, large := s.entries, s'.entries;
    var i, j := IndexOf(small, key), IndexOf(large, key);
    if i < |small| { FoundInBoth(small, large, key); }
    if j < |large| {
      if IsExpired(large[j], now) {
        AbsentPurge(small, key);
        PurgeKeepsInclusion(c, small, c', large, Keys({key}));
      } else {
        HitKeepsInclusion(c, small, c', large, large[j].(frequency := large[j].frequency + 1));
      }
    }
  }

  lemma {:induction false} PushBoth<V>(c: Config, small: seq<Entry<V>>, c': Config, large: seq<Entry<V>>, e: Entry<V>)
    requires Included(c, small, c', large)
    ensures Subsequence(ToFront(e, small), ToFront(e, large))
    ensures |ToFront(e, large)| - |ToFront(e, small)| <= Room(c') - Room(c)
    ensures |ToFront(e, small)| <= Room(c) + 1 && |ToFront(e, large)| <= Room(c') + 1
    ensures Distinct(ToFront(e, small)) && Distinct(ToFront(e, large))
  {
    PurgeBoth(small, large, Keys({e.key}));
    if IndexOf(small, e.key) < |small| { FoundInBoth(small, large, e.key); }
    ToFrontFacts(e, small);
    ToFrontFacts(e, large);
  }

  lemma {:induction false} SetKeepsInclusion<V>(c: Config, s: State<V>, c': Config, s': State<V>, e: Entry<V>)
    requires c.policy == c'.policy == LRU && Included(c, s.entries, c', s'.entries)
    ensures Included(c, Evict(c, Insert(s, e)).entries, c', Evict(c', Insert(s', e)).entries)
  {
    var small, large := ToFront(e, s.entries), ToFront(e, s'.entries);
    PushBoth(c, s.entries, c', s'.entries, e);
    SubsequenceMember(small, large, e);
    LruKeepsFront(c, Insert(s, e));
    LruKeepsFront(c', Insert(s', e));
    TruncateBoth(small, large, Min(|small|, Room(c)), Min(|large|, Room(c')));
  }

  lemma {:induction false} PurgeKeepsInclusion<V>(
    c: Config, small: seq<Entry<V>>, c': Config, large: seq<Entry<V>>, d: Selector)
    requires Included(c, small, c', large)
    ensures Included(c, Purge(small, d), c', Purge(large, d))
  {
    PurgeBoth(small, large, d);
    PurgeDistinct(small, d);
    PurgeDistinct(large, d);
  }

  lemma {:induction false} MatchIff(key: string, pattern: string)
    ensures MatchPattern(key, pattern) <==> Names(pattern, key)
  {
    if pattern != "" && pattern[|pattern| - 1] == '*' {
      var stem := pattern[..|pattern| - 1];
      if stem <= key { assert key[..|stem|] == stem; }
    }
  }

  // What an invalidation leaves: with a star at the end, the entries whose key does not
  // begin with what stands before it; without, those with another key.
  lemma {:induction false} InvalidateLeaves<V>(s: State<V>, stem: string, pattern: string, e: Entry<V>)
    ensures e in Invalidate(s, stem + "*").entries <==> e in s.entries && !(stem <= e.key)
    ensures pattern == "" || pattern[|pattern| - 1] != '*' ==>
      (e in Invalidate(s, pattern).entries <==> e in s.entries && e.key != pattern)
  {
    InvalidateNames(s, stem + "*", e);
    InvalidateNames(s, pattern, e);
    assert (stem + "*")[..|stem|] == stem;
  }

  lemma {:induction false} InvalidateNames<V>(s: State<V>, pattern: string, e: Entry<V>)
    ensures e in Invalidate(s, pattern).entries <==> e in s.entries && !Names(pattern, e.key)
  {
    PurgeMember(s.entries, Matching(s.entries, pattern), e);
    if e in s.entries { MatchingSelects(s.entries, pattern, e); }
  }

  // The entries of keys the pattern does not stand for.
  ghost predicate OthersLeft<V>(before: seq<Entry<V>>, after: seq<Entry<V>>, pattern: string) {
    && (forall e :: e in after ==> e in before && !Names(pattern, e.key))
    && (forall e :: e in before && !Names(pattern, e.key) ==> e in after)
  }

  lemma {:induction false} InvalidateLeavesOthers<V>(s: State<V>, pattern: string)
    ensures OthersLeft(s.entries, Invalidate(s, pattern).entries, pattern)
  {
    hide Invalidate, Names;
    var es := Invalidate(s, pattern).entries;
    forall e | e in es ensures e in s.entries && !Names(pattern, e.key) { InvalidateNames(s, pattern, e); }
    forall e | e in s.entries && !Names(pattern, e.key) ensures e in es { InvalidateNames(s, pattern, e); }
  }

  // What a clean-up leaves: the entries without a deadline, or whose deadline had not
  // passed when the clock was read for them.
  lemma {:induction false} CleanupLeaves<V>(s: State<V>, seen: map<string, int>, e: Entry<V>)
    ensures e in Remove(s, Expired(seen)).entries <==>
      e in s.entries && (e.expiresAt == 0 || e.key !in seen || seen[e.key] <= e.expiresAt)
  {
    PurgeMember(s.entries, Expired(seen), e);
  }

  lemma {:induction false} MatchingSelects<V>(es: seq<Entry<V>>, pattern: string, e: Entry<V>)
    requires e in es
    ensures Selects(Matching(es, pattern), e) <==> MatchPattern(e.key, pattern)
    ensures MatchPattern(e.key, pattern) <==> Names(pattern, e.key)
  {
    MatchIff(e.key, pattern);
    var i :| 0 <= i < |es| && es[i] == e;
    assert es[i].key in KeysOf(es);
  }

  lemma {:induction false} SameSelection<V>(es: seq<Entry<V>>, d: Selector, d': Selector)
    requires forall i :: 0 <= i < |es| ==> Selects(d, es[i]) == Selects(d', es[i])
    ensures Purge(es, d) == Purge(es, d')
  {
    if es != [] { SameSelection(es[1..], d, d'); }
  }

  lemma {:induction false} StepKeepsInclusion<V>(c: Config, s: State<V>, c': Config, s': State<V>, op: Op<V>)
    requires c.policy == c'.policy == LRU && Included(c, s.entries, c', s'.entries)
    ensures Included(c, Step(c, s, op).entries, c', Step(c', s', op).entries)
  {
    match op
    case GetOp(key, now) => GetKeepsInclusion(c, s, c', s', key, now);
    case SetOp(key, value, ttl, now) => SetKeepsInclusion(c, s, c', s', Entry(key, value, now + ttl, 0));
    case ClearOp =>
    case DeleteOp(key) => PurgeKeepsInclusion(c, s.entries, c', s'.entries, Keys({key}));
    case CleanupOp(seen, _) => PurgeKeepsInclusion(c, s.entries, c', s'.entries, Expired(seen));
    case InvalidateOp(pattern) =>
      var d, d' := Matching(s.entries, pattern), Matching(s'.entries, pattern);
      forall i | 0 <= i < |s.entries| ensures Selects(d, s.entries[i]) == Selects(d', s.entries[i]) {
        SubsequenceMember(s.entries, s'.entries, s.entries[i]);
        MatchingSelects(s.entries, pattern, s.entries[i]);
        MatchingSelects(s'.entries, pattern, s.entries[i]);
      }
      SameSelection(s.entries, d, d');
      PurgeKeepsInclusion(c, s.entries, c', s'.entries, d');
  }

  lemma {:induction false} RunKeepsInclusion<V>(c: Config, s: State<V>, c': Config, s': State<V>, ops: seq<Op<V>>)
    requires c.policy == c'.policy == LRU && Included(c, s.entries, c', s'.entries)
    ensures Included(c, Run(c, s, ops).entries, c', Run(c', s', ops).entries)
    decreases |ops|
  {
    if ops != [] {
      StepKeepsInclusion(c, s, c', s', ops[0]);
      RunKeepsInclusion(c, Step(c, s, ops[0]), c', Step(c', s', ops[0]), ops[1..]);
    }
  }

  // Two LRU caches fed the same trace: at every point the one with less capacity
  // holds a subsequence of the other's recency list, entry for entry, and whatever
  // it hits the larger one hits with the same value.
  lemma {:induction false} LruInclusion<V>(c: Config, c': Config, ops: seq<Op<V>>, key: string, now: int)
    requires c.policy == c'.policy == LRU && c.capacity <= c'.capacity
    ensures var s, s' := Run(c, Empty(), ops), Run(c', Empty(), ops);
      && Subsequence(s.entries, s'.entries)
      && (Get(s, key, now).1.Some? ==> Get(s', key, now).1 == Get(s, key, now).1)
  {
    RunKeepsInclusion(c, Empty<V>(), c', Empty<V>(), ops);
    GetKeepsInclusion(c, Run(c, Empty<V>(), ops), c', Run(c', Empty<V>(), ops), key, now);
  }

  // -------------------------------- agreement with an unbounded dictionary

  datatype Stored<V> = Stored(value: V, expiresAt: int)

  type Dictionary<V> = map<string, Stored<V>>

  // What a pattern stands for: with a star at its end, for all keys that begin as it
  // does; otherwise for itself.
  predicate Names(pattern: string, key: string) {
    if |pattern| > 0 && pattern[|pattern| - 1] == '*' then pattern[..|pattern| - 1] <= key else key == pattern
  }

  // The dictionary forgets only what Delete, Clear and Invalidate name.
  function DictStep<V>(m: Dictionary<V>, op: Op<V>): Dictionary<V> {
    match op
    case GetOp(_, _) => m
    case CleanupOp(_, _) => m
    case SetOp(key, value, ttl, now) => m[key := Stored(value, now + ttl)]
    case DeleteOp(key) => m - {key}
    case ClearOp => map[]
    case InvalidateOp(pattern) => map k | k in m && !Names(pattern, k) :: m[k]
  }

  function DictRun<V>(m: Dictionary<V>, ops: seq<Op<V>>): Dictionary<V>
    decreases |ops|
  {
    if ops == [] then m else DictRun(DictStep(m, ops[0]), ops[1..])
  }

  function DictGet<V>(m: Dictionary<V>, key: string, now: int): Option<V> {
    if key !in m || (m[key].expiresAt != ZERO_TIME && now > m[key].expiresAt) then None
    else Some(m[key].value)
  }

  ghost predicate Backed<V>(s: State<V>, m: Dictionary<V>) {
    forall e :: e in s.entries ==> e.key in m && m[e.key] == Stored(e.value, e.expiresAt)
  }

  ghost predicate Bounded<V>(cfg: Config, s: State<V>) {
    Distinct(s.entries) && |s.entries| <= Room(cfg)
  }

  // The two agree in everything but the hit count.
  ghost predicate SameItem<V>(a: Entry<V>, b: Entry<V>) {
    a.key == b.key && a.value == b.value && a.expiresAt == b.expiresAt
  }

  predicate Spares<V>(op: Op<V>, key: string) {
    match op
    case SetOp(k, _, _, _) => k != key
    case DeleteOp(k) => k != key
    case ClearOp => false
    case InvalidateOp(pattern) => !Names(pattern, key)
    case _ => true
  }

  // Which entries one operation leaves: the key, value and deadline of every
  // survivor was there before or has just been set.
  ghost predicate Descends<V>(e: Entry<V>, es: seq<Entry<V>>) {
    exists o :: o in es && SameItem(o, e)
  }

  lemma {:induction false} GetMember<V>(s: State<V>, key: string, now: int, e: Entry<V>)
    requires e in Get(s, key, now).0.entries
    ensures Descends(e, s.entries)
  {
    var i := IndexOf(s.entries, key);
    PurgeMember(s.entries, Keys({key}), e);
    if e in s.entries {
      assert SameItem(e, e);
    } else {
      assert s.entries[i] in s.entries && SameItem(s.entries[i], e);
    }
  }

  lemma {:induction false} SetMember<V>(cfg: Config, s: State<V>, n: Entry<V>, e: Entry<V>)
    requires e in Evict(cfg, Insert(s, n)).entries
    ensures e == n || (e.key != n.key && Descends(e, s.entries))
  {
    EvictFacts(cfg, Insert(s, n));
    PurgeMember(s.entries, Keys({n.key}), e);
    assert SameItem(e, e);
  }

  lemma {:induction false} StepMembers<V>(cfg: Config, s: State<V>, op: Op<V>, e: Entry<V>)
    requires e in Step(cfg, s, op).entries
    ensures
      || (op.SetOp? && e == Entry(op.key, op.value, op.now + op.ttl, 0))
      || (Spares(op, e.key) && Descends(e, s.entries))
  {
    assert SameItem(e, e);
    match op
    case GetOp(key, now) => GetMember(s, key, now, e);
    case SetOp(key, value, ttl, now) => SetMember(cfg, s, Entry(key, value, now + ttl, 0), e);
    case DeleteOp(key) => PurgeMember(s.entries, Keys({key}), e);
    case ClearOp =>
    case CleanupOp(seen, _) => PurgeMember(s.entries, Expired(seen), e);
    case InvalidateOp(pattern) =>
      PurgeMember(s.entries, Matching(s.entries, pattern), e);
      if e in s.entries { MatchingSelects(s.entries, pattern, e); }
  }

  lemma {:induction false} StepKeepsBacked<V>(cfg: Config, s: State<V>, m: Dictionary<V>, op: Op<V>)
    requires Backed(s, m)
    ensures Backed(Step(cfg, s, op), DictStep(m, op))
  {
    forall e | e in Step(cfg, s, op).entries
      ensures e.key in DictStep(m, op) && DictStep(m, op)[e.key] == Stored(e.value, e.expiresAt)
    {
      StepMembers(cfg, s, op, e);
    }
  }

  lemma {:induction false} GetFacts<V>(s: State<V>, key: string, now: int)
    requires Distinct(s.entries)
    ensures var t := Get(s, key, now).0;
      && Distinct(t.entries)
      && |s.entries| - |t.entries| == t.evicted - s.evicted == s.size - t.size
      && 0 <= t.evicted - s.evicted
      && t.hits + t.misses == s.hits + s.misses + 1
  {
    PurgeDistinct(s.entries, Keys({key}));
    if Holds(s, key) {
      var e := s.entries[IndexOf(s.entries, key)];
      ToFrontFacts(e.(frequency := e.frequency + 1), s.entries);
    }
  }

  lemma {:induction false} SetFacts<V>(cfg: Config, s: State<V>, e: Entry<V>)
    requires Distinct(s.entries)
    ensures var t, over := Evict(cfg, Insert(s, e)), if Holds(s, e.key) then 1 else 0;
      && Distinct(t.entries)
      && |t.entries| == Min(|s.entries| + 1 - over, Room(cfg))
      && t.evicted - s.evicted == |s.entries| + 1 - over - |t.entries|
      && t.size - |t.entries| == s.size - |s.entries| + over
      && t.hits == s.hits && t.misses == s.misses
  {
    ToFrontFacts(e, s.entries);
    EvictFacts(cfg, Insert(s, e));
  }

  lemma {:induction false} StepKeepsBounded<V>(cfg: Config, s: State<V>, op: Op<V>)
    requires Bounded(cfg, s)
    ensures Bounded(cfg, Step(cfg, s, op))
  {
    match op
    case GetOp(key, now) => GetFacts(s, key, now);
    case SetOp(key, value, ttl, now) => SetFacts(cfg, s, Entry(key, value, now + ttl, 0));
    case DeleteOp(key) => PurgeDistinct(s.entries, Keys({key}));
    case ClearOp =>
    case CleanupOp(seen, _) => PurgeDistinct(s.entries, Expired(seen));
    case InvalidateOp(pattern) => PurgeDistinct(s.entries, Matching(s.entries, pattern));
  }

  lemma {:induction false} RunKeepsBacked<V>(cfg: Config, s: State<V>, m: Dictionary<V>, ops: seq<Op<V>>)
    requires Backed(s, m) && Bounded(cfg, s)
    ensures Backed(Run(cfg, s, ops), DictRun(m, ops)) && Bounded(cfg, Run(cfg, s, ops))
    decreases |ops|
  {
    if ops != [] {
      StepKeepsBacked(cfg, s, m, ops[0]);
      StepKeepsBounded(cfg, s, ops[0]);
      RunKeepsBacked(cfg, Step(cfg, s, ops[0]), DictStep(m, ops[0]), ops[1..]);
    }
  }

  // For either policy and any trace, a hit returns the value of the latest Set of
  // the key, not deleted, cleared or invalidated since and not expired; keys stay
  // distinct and the list within the capacity.
  lemma {:induction false} HitReturnsLatestSet<V>(cfg: Config, ops: seq<Op<V>>, key: string, now: int)
    ensures var s := Run(cfg, Empty(), ops);
      && Distinct(s.entries) && |s.entries| <= Room(cfg)
      && (Get(s, key, now).1.Some? ==> Get(s, key, now).1 == DictGet(DictRun(map[], ops), key, now))
  {
    RunKeepsBacked(cfg, Empty<V>(), map[], ops);
    var s := Run(cfg, Empty<V>(), ops);
    if Holds(s, key) { assert s.entries[IndexOf(s.entries, key)] in s.entries; }
  }

  // ------------------------------------------- what evictions take away

  function Tick<V>(clock: int, op: Op<V>): int {
    match op
    case GetOp(_, now) => now
    case SetOp(_, _, _, now) => now
    case CleanupOp(_, now) => now
    case _ => clock
  }

  // The operation reads the clock no earlier than it stood, and no walk reads it after
  // its own end.
  ghost predicate OnTime<V>(clock: int, op: Op<V>) {
    Tick(clock, op) >= clock && (op.CleanupOp? ==> forall k :: k in op.seen ==> op.seen[k] <= op.now)
  }

  ghost predicate Monotone<V>(clock: int, ops: seq<Op<V>>)
    decreases |ops|
  {
    ops == [] || (OnTime(clock, ops[0]) && Monotone(Tick(clock, ops[0]), ops[1..]))
  }

  ghost predicate Has<V>(es: seq<Entry<V>>, key: string) { exists i :: 0 <= i < |es| && es[i].key == key }

  function NewEntry<V>(op: Op<V>): Entry<V>
    requires op.SetOp?
  {
    Entry(op.key, op.value, op.now + op.ttl, 0)
  }

  // The operation is a Set that throws out this key to stay within the capacity.
  ghost predicate Evicts<V>(cfg: Config, s: State<V>, op: Op<V>, key: string) {
    op.SetOp? && Has(Insert(s, NewEntry(op)).entries, key) && !Has(Step(cfg, s, op).entries, key)
  }

  // An eviction has taken the key since it was last set, given what is so before.
  ghost predicate Lost<V>(cfg: Config, s: State<V>, ops: seq<Op<V>>, key: string, lost: bool)
    decreases |ops|
  {
    if ops == [] then lost else Lost(cfg, Step(cfg, s, ops[0]), ops[1..], key, NextLost(cfg, s, ops[0], key, lost))
  }

  ghost predicate NextLost<V>(cfg: Config, s: State<V>, op: Op<V>, key: string, lost: bool) {
    Evicts(cfg, s, op, key) || (lost && !(op.SetOp? && op.key == key))
  }

  // A key of the dictionary is in the cache, has expired by `clock`, or is lost; and a
  // lost one is not in the cache.
  ghost predicate Accounted<V>(s: State<V>, m: Dictionary<V>, clock: int, key: string, lost: bool) {
    && (lost ==> !Has(s.entries, key))
    && (key in m && !Has(s.entries, key) ==> lost || (m[key].expiresAt != ZERO_TIME && clock > m[key].expiresAt))
  }

  lemma {:induction false} PurgeKeeps<V>(es: seq<Entry<V>>, d: Selector, i: nat)
    requires i < |es| && !Selects(d, es[i])
    ensures Has(Purge(es, d), es[i].key)
  {
    PurgeMember(es, d, es[i]);
    var j :| 0 <= j < |Purge(es, d)| && Purge(es, d)[j] == es[i];
  }

  lemma {:induction false} ToFrontKeeps<V>(e: Entry<V>, es: seq<Entry<V>>, key: string)
    ensures Has(ToFront(e, es), key) <==> key == e.key || Has(es, key)
  {
    var d, all := Keys({e.key}), ToFront(e, es);
    if key == e.key {
      assert all[0].key == key;
    } else {
      if Has(es, key) {
        var i :| 0 <= i < |es| && es[i].key == key;
        PurgeKeeps(es, d, i);
        var j :| 0 <= j < |Purge(es, d)| && Purge(es, d)[j].key == key;
        assert all[j + 1] == all[1..][j];
      }
      if Has(all, key) {
        var j :| 0 <= j < |all| && all[j].key == key;
        assert all[j] == all[1..][j - 1];
        PurgeMember(es, d, all[j]);
      }
    }
  }

  // An entry that is live at the new clock and that the operation does not name stays,
  // unless an eviction takes it.
  lemma {:induction false} LiveEntryStays<V>(cfg: Config, s: State<V>, clock: int, op: Op<V>, i: nat)
    requires i < |s.entries| && Spares(op, s.entries[i].key) && !IsExpired(s.entries[i], Tick(clock, op))
    requires Distinct(s.entries) && OnTime(clock, op) && !op.SetOp?
    ensures Has(Step(cfg, s, op).entries, s.entries[i].key)
  {
    var es, k := s.entries, s.entries[i].key;
    match op
    case GetOp(key, now) =>
      if k != key { PurgeKeeps(es, Keys({key}), i); }
      if Holds(s, key) {
        var e := es[IndexOf(es, key)];
        ToFrontKeeps(e.(frequency := e.frequency + 1), es, k);
      }
    case DeleteOp(key) => PurgeKeeps(es, Keys({key}), i);
    case CleanupOp(seen, _) => PurgeKeeps(es, Expired(seen), i);
    case InvalidateOp(pattern) =>
      MatchingSelects(es, pattern, es[i]);
      PurgeKeeps(es, Matching(es, pattern), i);
  }

  lemma {:induction false} DictStepSpares<V>(m: Dictionary<V>, op: Op<V>, k: string)
    requires k in DictStep(m, op) && !(op.SetOp? && op.key == k)
    ensures k in m && DictStep(m, op)[k] == m[k] && Spares(op, k)
  {
  }

  lemma {:induction false} AbsentStays<V>(cfg: Config, s: State<V>, op: Op<V>, key: string)
    requires !Has(s.entries, key) && !(op.SetOp? && op.key == key)
    ensures !Has(Step(cfg, s, op).entries, key)
  {
    var t := Step(cfg, s, op).entries;
    forall i | 0 <= i < |t| ensures t[i].key != key {
      StepMembers(cfg, s, op, t[i]);
      DescendantsKey(t[i], s.entries);
    }
  }

  lemma {:induction false} DescendantsKey<V>(e: Entry<V>, es: seq<Entry<V>>)
    ensures Descends(e, es) ==> Has(es, e.key)
  {
    if Descends(e, es) {
      var o :| o in es && SameItem(o, e);
      var j :| 0 <= j < |es| && es[j] == o;
    }
  }

  lemma {:induction false} SetAccounts<V>(
    cfg: Config, s: State<V>, m: Dictionary<V>, clock: int, op: Op<V>, key: string, lost: bool)
    requires Accounted(s, m, clock, key, lost) && OnTime(clock, op) && op.SetOp?
    ensures Accounted(Step(cfg, s, op), DictStep(m, op), Tick(clock, op), key, NextLost(cfg, s, op, key, lost))
  {
    hide Evict;
    ToFrontKeeps(NewEntry(op), s.entries, key);
    assert Insert(s, NewEntry(op)).entries == ToFront(NewEntry(op), s.entries);
    if op.key != key && !Has(s.entries, key) { AbsentStays(cfg, s, op, key); }
  }

  lemma {:induction false} OtherAccounts<V>(
    cfg: Config, s: State<V>, m: Dictionary<V>, clock: int, op: Op<V>, key: string, lost: bool)
    requires Distinct(s.entries) && Backed(s, m)
    requires Accounted(s, m, clock, key, lost) && OnTime(clock, op) && !op.SetOp?
    ensures Accounted(Step(cfg, s, op), DictStep(m, op), Tick(clock, op), key, NextLost(cfg, s, op, key, lost))
  {
    hide Step, Backed;
    var n, clock' := DictStep(m, op), Tick(clock, op);
    if !Has(s.entries, key) { AbsentStays(cfg, s, op, key); }
    if key in n {
      DictStepSpares(m, op, key);
      if Has(s.entries, key) && !(m[key].expiresAt != ZERO_TIME && clock' > m[key].expiresAt) {
        var i :| 0 <= i < |s.entries| && s.entries[i].key == key;
        BackedEntry(s, m, i);
        LiveEntryStays(cfg, s, clock, op, i);
      }
    }
  }

  lemma {:induction false} BackedEntry<V>(s: State<V>, m: Dictionary<V>, i: nat)
    requires Backed(s, m) && i < |s.entries|
    ensures s.entries[i].key in m && m[s.entries[i].key] == Stored(s.entries[i].value, s.entries[i].expiresAt)
  {
    assert s.entries[i] in s.entries;
  }

  lemma {:induction false} RunAccounts<V>(
    cfg: Config, s: State<V>, m: Dictionary<V>, clock: int, ops: seq<Op<V>>, key: string, now: int, lost: bool)
    requires Bounded(cfg, s) && Backed(s, m) && Accounted(s, m, clock, key, lost)
    requires Monotone(clock, ops + [GetOp(key, now)])
    ensures Get(Run(cfg, s, ops), key, now).1 ==
      if Lost(cfg, s, ops, key, lost) then None else DictGet(DictRun(m, ops), key, now)
    decreases |ops|
  {
    if ops == [] {
      assert Tick(clock, (ops + [GetOp(key, now)])[0]) == now;
      if Holds(s, key) { BackedEntry(s, m, IndexOf(s.entries, key)); }
      assert Has(s.entries, key) <==> Holds(s, key);
    } else {
      hide Backed, Bounded, Accounted, NextLost, DictGet, Get;
      var op, rest := ops[0], ops[1..];
      assert (ops + [GetOp(key, now)])[0] == op && (ops + [GetOp(key, now)])[1..] == rest + [GetOp(key, now)];
      StepKeepsBacked(cfg, s, m, op);
      StepKeepsBounded(cfg, s, op);
      BoundedIsDistinct(cfg, s);
      if op.SetOp? {
        SetAccounts(cfg, s, m, clock, op, key, lost);
      } else {
        OtherAccounts(cfg, s, m, clock, op, key, lost);
      }
      RunAccounts(cfg, Step(cfg, s, op), DictStep(m, op), Tick(clock, op), rest, key, now,
                  NextLost(cfg, s, op, key, lost));
    }
  }

  lemma {:induction false} BoundedIsDistinct<V>(cfg: Config, s: State<V>)
    requires Bounded(cfg, s)
    ensures Distinct(s.entries)
  {
  }

  // For either policy and any trace whose clock does not go back, a Get answers what
  // the unbounded dictionary answers, unless an eviction has taken the key since it was
  // last set; then it misses. So every miss of a stored, unexpired key is the work of
  // an eviction.
  lemma {:induction false} OnlyEvictionsLose<V>(cfg: Config, clock: int, ops: seq<Op<V>>, key: string, now: int)
    requires Monotone(clock, ops + [GetOp(key, now)])
    ensures Get(Run(cfg, Empty(), ops), key, now).1 ==
      if Lost(cfg, Empty(), ops, key, false) then None else DictGet(DictRun(map[], ops), key, now)
  {
    RunAccounts(cfg, Empty<V>(), map[], clock, ops, key, now, false);
  }

  // ------------------------------------------------- when nothing is evicted

  // All keys set and not deleted, cleared or invalidated, expired ones included, fit
  // the capacity at every point.
  ghost predicate Roomy<V>(cfg: Config, m: Dictionary<V>, ops: seq<Op<V>>)
    decreases |ops|
  {
    |m| <= cfg.capacity && (ops == [] || Roomy(cfg, DictStep(m, ops[0]), ops[1..]))
  }

  lemma {:induction false} KeysFit<V>(es: seq<Entry<V>>, m: Dictionary<V>)
    requires Distinct(es) && forall i :: 0 <= i < |es| ==> es[i].key in m
    ensures |es| <= |m|
  {
    if es != [] {
      var m' := m - {es[0].key};
      KeysFit(es[1..], m');
      assert m.Keys == m'.Keys + {es[0].key};
    }
  }

  lemma {:induction false} SetKeepsAll<V>(cfg: Config, s: State<V>, m: Dictionary<V>, e: Entry<V>)
    requires Distinct(s.entries) && Backed(s, m)
    requires |m[e.key := Stored(e.value, e.expiresAt)]| <= cfg.capacity
    ensures Evict(cfg, Insert(s, e)) == Insert(s, e)
  {
    var es, n := ToFront(e, s.entries), m[e.key := Stored(e.value, e.expiresAt)];
    ToFrontFacts(e, s.entries);
    forall i | 0 <= i < |es| ensures es[i].key in n {
      if i > 0 {
        assert es[i] == es[1..][i - 1];
        PurgeMember(s.entries, Keys({e.key}), es[i]);
      }
    }
    KeysFit(es, n);
  }

  lemma {:induction false} RoomyLosesNothing<V>(
    cfg: Config, s: State<V>, m: Dictionary<V>, ops: seq<Op<V>>, key: string)
    requires Bounded(cfg, s) && Backed(s, m) && Roomy(cfg, m, ops)
    ensures !Lost(cfg, s, ops, key, false)
    decreases |ops|
  {
    if ops != [] {
      hide Evict, Backed;
      var op := ops[0];
      if op.SetOp? { SetKeepsAll(cfg, s, m, NewEntry(op)); }
      StepKeepsBacked(cfg, s, m, op);
      StepKeepsBounded(cfg, s, op);
      RoomyLosesNothing(cfg, Step(cfg, s, op), DictStep(m, op), ops[1..], key);
    }
  }

  // Then the cache is the unbounded dictionary: every Get, hit or miss, answers the same.
  lemma {:induction false} RoomyCacheIsDictionary<V>(cfg: Config, clock: int, ops: seq<Op<V>>, key: string, now: int)
    requires Roomy(cfg, map[], ops) && Monotone(clock, ops + [GetOp(key, now)])
    ensures Get(Run(cfg, Empty(), ops), key, now).1 == DictGet(DictRun(map[], ops), key, now)
  {
    RoomyLosesNothing(cfg, Empty<V>(), map[], ops, key);
    OnlyEvictionsLose(cfg, clock, ops, key, now);
  }

  // ------------------------------------------------- what frequency counts

  // How many Gets have hit the key since it was last set, given `c` so far.
  function HitsSinceSet<V>(cfg: Config, s: State<V>, ops: seq<Op<V>>, key: string, c: nat): nat
    decreases |ops|
  {
    if ops == [] then c
    else HitsSinceSet(cfg, Step(cfg, s, ops[0]), ops[1..], key, NextHits(s, ops[0], key, c))
  }

  function NextHits<V>(s: State<V>, op: Op<V>, key: string, c: nat): nat {
    match op
    case SetOp(k, _, _, _) => if k == key then 0 else c
    case GetOp(k, now) => if k == key && Get(s, k, now).1.Some? then c + 1 else c
    case _ => c
  }

  ghost predicate Counted<V>(es: seq<Entry<V>>, key: string, c: nat) {
    forall i :: 0 <= i < |es| && es[i].key == key ==> es[i].frequency == c
  }

  lemma {:induction false} PurgeCounted<V>(es: seq<Entry<V>>, d: Selector, key: string, c: nat)
    requires Counted(es, key, c)
    ensures Counted(Purge(es, d), key, c)
  {
    forall i | 0 <= i < |Purge(es, d)| && Purge(es, d)[i].key == key ensures Purge(es, d)[i].frequency == c {
      PurgeMember(es, d, Purge(es, d)[i]);
    }
  }

  lemma {:induction false} PushCounted<V>(e: Entry<V>, es: seq<Entry<V>>, key: string, c: nat)
    requires Counted(es, key, c)
    ensures Counted(ToFront(e, es), key, if e.key == key then e.frequency else c)
  {
    PurgeCounted(es, Keys({e.key}), key, c);
    var rest, all := Purge(es, Keys({e.key})), ToFront(e, es);
    forall i | 0 <= i < |all| && all[i].key == key
      ensures all[i].frequency == if e.key == key then e.frequency else c
    {
      if i > 0 {
        assert all[i] == rest[i - 1];
        PurgeMember(es, Keys({e.key}), rest[i - 1]);
      }
    }
  }

  lemma {:induction false} EvictCounted<V>(cfg: Config, s: State<V>, key: string, c: nat)
    requires Counted(s.entries, key, c)
    ensures Counted(Evict(cfg, s).entries, key, c)
  {
    EvictFacts(cfg, s);
    var es := Evict(cfg, s).entries;
    forall i | 0 <= i < |es| && es[i].key == key ensures es[i].frequency == c {
      assert es[i] in s.entries;
      var j :| 0 <= j < |s.entries| && s.entries[j] == es[i];
    }
  }

  lemma {:induction false} StepCounted<V>(cfg: Config, s: State<V>, op: Op<V>, key: string, c: nat)
    requires Counted(s.entries, key, c)
    ensures Counted(Step(cfg, s, op).entries, key, NextHits(s, op, key, c))
  {
    hide Evict, Purge, Counted;
    match op
    case GetOp(k, now) =>
      PurgeCounted(s.entries, Keys({k}), key, c);
      if Get(s, k, now).1.Some? { GetCounted(s, k, now, key, c); }
    case SetOp(k, value, ttl, now) =>
      var e := Entry(k, value, now + ttl, 0);
      PushCounted(e, s.entries, key, c);
      assert Insert(s, e).entries == ToFront(e, s.entries);
      EvictCounted(cfg, Insert(s, e), key, NextHits(s, op, key, c));
    case DeleteOp(k) => PurgeCounted(s.entries, Keys({k}), key, c);
    case ClearOp => NoneCounted<V>(key, c);
    case CleanupOp(seen, _) => PurgeCounted(s.entries, Expired(seen), key, c);
    case InvalidateOp(pattern) =>
      NoneCounted<V>(key, c);
      PurgeCounted(s.entries, Matching(s.entries, pattern), key, c);
  }

  lemma {:induction false} NoneCounted<V>(key: string, c: nat)
    ensures Counted<V>([], key, c)
  {
  }

  lemma {:induction false} GetCounted<V>(s: State<V>, k: string, now: int, key: string, c: nat)
    requires Counted(s.entries, key, c) && Holds(s, k) && Get(s, k, now).1.Some?
    ensures Counted(Get(s, k, now).0.entries, key, if k == key then c + 1 else c)
  {
    var e := s.entries[IndexOf(s.entries, k)];
    PushCounted(e.(frequency := e.frequency + 1), s.entries, key, c);
  }

  // The frequency of a live entry is the number of hits since its key was last set.
  lemma {:induction false} FrequencyCountsHits<V>(cfg: Config, s: State<V>, ops: seq<Op<V>>, key: string, c: nat)
    requires Counted(s.entries, key, c)
    ensures Counted(Run(cfg, s, ops).entries, key, HitsSinceSet(cfg, s, ops, key, c))
    decreases |ops|
  {
    if ops != [] {
      hide Counted;
      StepCounted(cfg, s, ops[0], key, c);
      FrequencyCountsHits(cfg, Step(cfg, s, ops[0]), ops[1..], key, NextHits(s, ops[0], key, c));
    }
  }

  // ------------------------------------------------------- conservation

  datatype Tally = Tally(answered: nat, unanswered: nat, sets: nat, overwrites: nat, cleared: nat, drift: nat)

  // Counted from outside, over the run: Gets that returned a value and others, Set calls,
  // Sets of a key that was present, entries dropped by a full clear, and overwrites since
  // the last one.
  function Count<V>(cfg: Config, s: State<V>, ops: seq<Op<V>>, t: Tally): Tally
    decreases |ops|
  {
    if ops == [] then t else Count(cfg, Step(cfg, s, ops[0]), ops[1..], CountStep(s, ops[0], t))
  }

  function CountStep<V>(s: State<V>, op: Op<V>, t: Tally): Tally {
    match op
    case GetOp(key, now) =>
      if Get(s, key, now).1.Some? then t.(answered := t.answered + 1) else t.(unanswered := t.unanswered + 1)
    case SetOp(key, _, _, _) =>
      var over := if Holds(s, key) then 1 else 0;
      t.(sets := t.sets + 1, overwrites := t.overwrites + over, drift := t.drift + over)
    case ClearOp => t.(cleared := t.cleared + |s.entries|, drift := 0)
    case InvalidateOp(pattern) =>
      if pattern == "*" then t.(cleared := t.cleared + |s.entries|, drift := 0) else t
    case _ => t
  }

  ghost predicate Balanced<V>(s: State<V>, t: Tally) {
    && Distinct(s.entries)
    && t.sets == |s.entries| + s.evicted + t.overwrites + t.cleared
    && s.hits == t.answered && s.misses == t.unanswered
    && s.size == |s.entries| + t.drift
  }

  lemma {:induction false} RemoveKeepsBalance<V>(s: State<V>, d: Selector, t: Tally)
    requires Balanced(s, t)
    ensures Balanced(Remove(s, d), t)
  {
    PurgeDistinct(s.entries, d);
  }

  lemma {:induction false} GetKeepsBalance<V>(s: State<V>, key: string, now: int, t: Tally)
    requires Balanced(s, t)
    ensures Balanced(Get(s, key, now).0, CountStep(s, GetOp(key, now), t))
  {
    GetFacts(s, key, now);
  }

  lemma {:induction false} SetKeepsBalance<V>(cfg: Config, s: State<V>, op: Op<V>, t: Tally)
    requires Balanced(s, t) && op.SetOp?
    ensures Balanced(Step(cfg, s, op), CountStep(s, op, t))
  {
    var e, over := Entry(op.key, op.value, op.now + op.ttl, 0), if Holds(s, op.key) then 1 else 0;
    SetFacts(cfg, s, e);
    var r, u := Evict(cfg, Insert(s, e)), CountStep(s, op, t);
    assert u.sets == t.sets + 1 && u.overwrites == t.overwrites + over && u.drift == t.drift + over;
    assert Balanced(r, u);
  }

  lemma {:induction false} StepKeepsBalance<V>(cfg: Config, s: State<V>, op: Op<V>, t: Tally)
    requires Balanced(s, t)
    ensures Balanced(Step(cfg, s, op), CountStep(s, op, t))
  {
    match op
    case GetOp(key, now) => GetKeepsBalance(s, key, now, t);
    case SetOp(_, _, _, _) => SetKeepsBalance(cfg, s, op, t);
    case DeleteOp(key) => RemoveKeepsBalance(s, Keys({key}), t);
    case ClearOp =>
    case CleanupOp(seen, _) => RemoveKeepsBalance(s, Expired(seen), t);
    case InvalidateOp(pattern) => RemoveKeepsBalance(s, Matching(s.entries, pattern), t);
  }

  // Every Set is live, evicted, overwritten or cleared; hits count the Gets that returned
  // a value and misses the others; and the raw size counter exceeds the list length by
  // the overwrites since the last clear, which is why Stats reports the length instead.
  lemma {:induction false} Conservation<V>(cfg: Config, s: State<V>, ops: seq<Op<V>>, t: Tally)
    requires Balanced(s, t)
    ensures Balanced(Run(cfg, s, ops), Count(cfg, s, ops, t))
    decreases |ops|
  {
    if ops != [] {
      StepKeepsBalance(cfg, s, ops[0], t);
      Conservation(cfg, Step(cfg, s, ops[0]), ops[1..], CountStep(s, ops[0], t));
    }
  }
}
