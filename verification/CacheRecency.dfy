/** What the order of the recency list means over a trace, and so what an eviction takes. */
module CacheRecency {
  import opened CacheSpec
  import opened CacheTraces

  predicate Uses<V>(op: Op<V>, key: string) {
    (op.SetOp? && op.key == key) || (op.GetOp? && op.key == key)
  }

  // Which operation of the trace was the latest Set or Get of the key; -1 for none.
  function LastUse<V>(ops: seq<Op<V>>, key: string): (n: int)
    ensures -1 <= n < |ops|
  {
    if ops == [] then -1
    else if Uses(ops[|ops| - 1], key) then |ops| - 1
    else LastUse(ops[..|ops| - 1], key)
  }

  // From front to back every entry was used before the one in front of it.
  ghost predicate Recent<V>(es: seq<Entry<V>>, ops: seq<Op<V>>) {
    forall i, j :: 0 <= i < j < |es| ==> LastUse(ops, es[i].key) > LastUse(ops, es[j].key)
  }

  lemma {:induction false} NextUse<V>(ops: seq<Op<V>>, op: Op<V>, key: string)
    ensures LastUse(ops + [op], key) == if Uses(op, key) then |ops| else LastUse(ops, key)
  {
    assert (ops + [op])[..|ops|] == ops;
  }

  // An operation on other keys does not change the order.
  lemma {:induction false} RecentLater<V>(es: seq<Entry<V>>, ops: seq<Op<V>>, op: Op<V>)
    requires Recent(es, ops) && forall i :: 0 <= i < |es| ==> !Uses(op, es[i].key)
    ensures Recent(es, ops + [op])
  {
    hide LastUse;
    forall i, j | 0 <= i < j < |es| ensures LastUse(ops + [op], es[i].key) > LastUse(ops + [op], es[j].key) {
      NextUse(ops, op, es[i].key);
      NextUse(ops, op, es[j].key);
    }
  }

  lemma {:induction false} PurgeRecent<V>(es: seq<Entry<V>>, d: Selector, ops: seq<Op<V>>)
    requires Recent(es, ops)
    ensures Recent(Purge(es, d), ops)
  {
    if es != [] {
      hide LastUse;
      var rest := Purge(es[1..], d);
      PurgeRecent(es[1..], d, ops);
      forall j | 0 <= j < |rest| ensures LastUse(ops, es[0].key) > LastUse(ops, rest[j].key) {
        PurgeMember(es[1..], d, rest[j]);
        var i :| 0 <= i < |es[1..]| && es[1..][i] == rest[j];
        assert es[i + 1] == rest[j];
      }
    }
  }

  // Removing the key an operation uses leaves an order it does not change.
  lemma {:induction false} PurgeUsed<V>(es: seq<Entry<V>>, ops: seq<Op<V>>, op: Op<V>)
    requires Recent(es, ops) && (op.SetOp? || op.GetOp?)
    ensures Recent(Purge(es, Keys({op.key})), ops + [op])
  {
    var rest := Purge(es, Keys({op.key}));
    PurgeRecent(es, Keys({op.key}), ops);
    forall i | 0 <= i < |rest| ensures !Uses(op, rest[i].key) { PurgeMember(es, Keys({op.key}), rest[i]); }
    RecentLater(rest, ops, op);
  }

  // What is used goes to the front.
  lemma {:induction false} ToFrontRecent<V>(e: Entry<V>, es: seq<Entry<V>>, ops: seq<Op<V>>, op: Op<V>)
    requires Recent(es, ops) && (op.SetOp? || op.GetOp?) && op.key == e.key
    ensures Recent(ToFront(e, es), ops + [op])
  {
    hide LastUse;
    var rest, all := Purge(es, Keys({e.key})), ToFront(e, es);
    PurgeUsed(es, ops, op);
    NextUse(ops, op, e.key);
    forall j | 0 <= j < |rest| ensures |ops| > LastUse(ops + [op], rest[j].key) {
      PurgeMember(es, Keys({e.key}), rest[j]);
      NextUse(ops, op, rest[j].key);
    }
    forall i, j | 0 <= i < j < |all| ensures LastUse(ops + [op], all[i].key) > LastUse(ops + [op], all[j].key) {
      assert all[j] == rest[j - 1] && (i > 0 ==> all[i] == rest[i - 1]);
    }
  }

  lemma {:induction false} EvictRecent<V>(cfg: Config, s: State<V>, ops: seq<Op<V>>)
    requires Recent(s.entries, ops)
    ensures Recent(Evict(cfg, s).entries, ops)
    decreases |s.entries|
  {
    if !(|s.entries| <= cfg.capacity || s.entries == []) {
      hide LastUse;
      EvictRecent(cfg, Drop(s, Victim(cfg.policy, s.entries)), ops);
    }
  }

  lemma {:induction false} StepRecent<V>(cfg: Config, s: State<V>, ops: seq<Op<V>>, op: Op<V>)
    requires Recent(s.entries, ops)
    ensures Recent(Step(cfg, s, op).entries, ops + [op])
  {
    hide Recent, Evict, Purge;
    var es := s.entries;
    match op
    case GetOp(key, now) =>
      if Holds(s, key) {
        var e := es[IndexOf(es, key)];
        PurgeUsed(es, ops, op);
        ToFrontRecent(e.(frequency := e.frequency + 1), es, ops, op);
      } else {
        RecentLater(es, ops, op);
      }
    case SetOp(_, _, _, _) =>
      ToFrontRecent(NewEntry(op), es, ops, op);
      assert Insert(s, NewEntry(op)).entries == ToFront(NewEntry(op), es);
      EvictRecent(cfg, Insert(s, NewEntry(op)), ops + [op]);
    case ClearOp => NoneRecent<V>(ops + [op]);
    case DeleteOp(key) =>
      PurgeRecent(es, Keys({key}), ops);
      RecentLater(Purge(es, Keys({key})), ops, op);
    case CleanupOp(seen, _) =>
      PurgeRecent(es, Expired(seen), ops);
      RecentLater(Purge(es, Expired(seen)), ops, op);
    case InvalidateOp(pattern) =>
      NoneRecent<V>(ops + [op]);
      PurgeRecent(es, Matching(es, pattern), ops);
      RecentLater(Purge(es, Matching(es, pattern)), ops, op);
  }

  lemma {:induction false} NoneRecent<V>(ops: seq<Op<V>>)
    ensures Recent([], ops)
  {
  }

  lemma {:induction false} RunOneMore<V>(cfg: Config, s: State<V>, ops: seq<Op<V>>, op: Op<V>, key: string, c: nat)
    ensures Run(cfg, s, ops + [op]) == Step(cfg, Run(cfg, s, ops), op)
    ensures HitsSinceSet(cfg, s, ops + [op], key, c) ==
      NextHits(Run(cfg, s, ops), op, key, HitsSinceSet(cfg, s, ops, key, c))
    decreases |ops|
  {
    var all := ops + [op];
    if ops == [] {
      assert all[0] == op && all[1..] == [];
      hide Step, NextHits;
      assert Run(cfg, s, all) == Run(cfg, Step(cfg, s, op), []);
    } else {
      hide Step, NextHits;
      assert all[0] == ops[0] && all[1..] == ops[1..] + [op];
      RunOneMore(cfg, Step(cfg, s, ops[0]), ops[1..], op, key, NextHits(s, ops[0], key, c));
    }
  }

  // Over every trace and under either policy, the list is in the order of last use, most
  // recent first.
  lemma {:induction false} ListIsByRecency<V>(cfg: Config, ops: seq<Op<V>>)
    ensures Recent(Run(cfg, Empty<V>(), ops).entries, ops)
    decreases |ops|
  {
    if ops != [] {
      var n := |ops| - 1;
      hide Step, Recent;
      ListIsByRecency(cfg, ops[..n]);
      assert ops == ops[..n] + [ops[n]];
      RunOneMore(cfg, Empty<V>(), ops[..n], ops[n], "", 0);
      StepRecent(cfg, Run(cfg, Empty<V>(), ops[..n]), ops[..n], ops[n]);
    }
  }

  // ------------------------------------------------------ what is evicted

  // How often the key has been hit since it was last set.
  function Hits<V>(cfg: Config, ops: seq<Op<V>>, key: string): nat {
    HitsSinceSet(cfg, Empty<V>(), ops, key, 0)
  }

  // Of two keys, the one this policy gives up first after this trace.
  ghost predicate Weaker<V>(cfg: Config, ops: seq<Op<V>>, a: string, b: string) {
    match cfg.policy
    case LRU => LastUse(ops, a) < LastUse(ops, b)
    case LFU =>
      || Hits(cfg, ops, a) < Hits(cfg, ops, b)
      || (Hits(cfg, ops, a) == Hits(cfg, ops, b) && LastUse(ops, a) < LastUse(ops, b))
  }

  lemma {:induction false} VictimIsWeakest<V>(cfg: Config, es: seq<Entry<V>>, ops: seq<Op<V>>, i: nat)
    requires es != [] && Recent(es, ops) && i < |es| && i != Victim(cfg.policy, es)
    requires forall j :: 0 <= j < |es| ==> es[j].frequency == Hits(cfg, ops, es[j].key)
    ensures Weaker(cfg, ops, es[Victim(cfg.policy, es)].key, es[i].key)
  {
    hide LastUse, Hits, Victim;
    var v := Victim(cfg.policy, es);
    match cfg.policy
    case LRU => assert v == |es| - 1 by { LruVictim(es); }
    case LFU => LfuVictimIsLastOfLeastUsed(es, v);
  }

  lemma {:induction false} LruVictim<V>(es: seq<Entry<V>>)
    requires es != []
    ensures Victim(LRU, es) == |es| - 1
  {
  }

  // The entries before a Set together with the new one.
  function Inserted<V>(cfg: Config, ops: seq<Op<V>>, op: Op<V>): seq<Entry<V>>
    requires op.SetOp?
  {
    Insert(Run(cfg, Empty<V>(), ops), NewEntry(op)).entries
  }

  lemma {:induction false} EvictOne<V>(cfg: Config, s: State<V>)
    requires cfg.capacity < |s.entries| == Room(cfg) + 1
    ensures Evict(cfg, s) == Drop(s, Victim(cfg.policy, s.entries))
  {
    hide Victim;
    var t := Drop(s, Victim(cfg.policy, s.entries));
    assert |t.entries| == Room(cfg) && Evict(cfg, t) == t;
  }

  // A Set within the capacity keeps everything. One beyond it drops a single entry, the
  // one among those before and the new one that was used least recently (LRU), or hit
  // least often since it was set and, among those, used least recently (LFU).
  lemma {:induction false} EvictionLaw<V>(cfg: Config, ops: seq<Op<V>>, op: Op<V>)
    requires op.SetOp?
    ensures Inserted(cfg, ops, op) != []
    ensures var all := Inserted(cfg, ops, op);
      var t, v := Step(cfg, Run(cfg, Empty<V>(), ops), op).entries, Victim(cfg.policy, all);
      if |all| <= cfg.capacity then t == all
      else
        && t == RemoveAt(all, v)
        && forall i :: 0 <= i < |all| && i != v ==> Weaker(cfg, ops + [op], all[v].key, all[i].key)
  {
    hide Weaker, Run, Insert, Victim, Evict;
    var s, all := Run(cfg, Empty<V>(), ops), Inserted(cfg, ops, op);
    InsertedFits(cfg, ops, op);
    assert Step(cfg, s, op) == Evict(cfg, Insert(s, NewEntry(op)));
    if |all| <= cfg.capacity {
      EvictNone(cfg, Insert(s, NewEntry(op)));
    } else {
      EvictOne(cfg, Insert(s, NewEntry(op)));
      forall i | 0 <= i < |all| && i != Victim(cfg.policy, all)
        ensures Weaker(cfg, ops + [op], all[Victim(cfg.policy, all)].key, all[i].key)
      {
        InsertedWeakest(cfg, ops, op, i);
      }
    }
  }

  lemma {:induction false} EvictNone<V>(cfg: Config, s: State<V>)
    requires |s.entries| <= cfg.capacity
    ensures Evict(cfg, s) == s
  {
  }

  lemma {:induction false} InsertedFits<V>(cfg: Config, ops: seq<Op<V>>, op: Op<V>)
    requires op.SetOp?
    ensures 0 < |Inserted(cfg, ops, op)| <= Room(cfg) + 1
  {
    HitReturnsLatestSet(cfg, ops, "", 0);
    ToFrontFacts(NewEntry(op), Run(cfg, Empty<V>(), ops).entries);
  }

  lemma {:induction false} InsertedWeakest<V>(cfg: Config, ops: seq<Op<V>>, op: Op<V>, i: nat)
    requires op.SetOp?
    ensures var all := Inserted(cfg, ops, op);
      all != [] && (i < |all| && i != Victim(cfg.policy, all) ==>
        Weaker(cfg, ops + [op], all[Victim(cfg.policy, all)].key, all[i].key))
  {
    hide Recent, Weaker, Hits, Victim, Run;
    var s, all := Run(cfg, Empty<V>(), ops), Inserted(cfg, ops, op);
    assert all == ToFront(NewEntry(op), s.entries);
    ListIsByRecency(cfg, ops);
    ToFrontRecent(NewEntry(op), s.entries, ops, op);
    FrequencyIsHits(cfg, ops, op);
    if i < |all| && i != Victim(cfg.policy, all) { VictimIsWeakest(cfg, all, ops + [op], i); }
  }

  lemma {:induction false} FrequencyIsHits<V>(cfg: Config, ops: seq<Op<V>>, op: Op<V>)
    requires op.SetOp?
    ensures var all := Inserted(cfg, ops, op);
      forall j :: 0 <= j < |all| ==> all[j].frequency == Hits(cfg, ops + [op], all[j].key)
  {
    hide HitsSinceSet, Run, Purge;
    var s := Run(cfg, Empty<V>(), ops);
    var all := ToFront(NewEntry(op), s.entries);
    assert Insert(s, NewEntry(op)).entries == all;
    forall j | 0 <= j < |all| ensures all[j].frequency == Hits(cfg, ops + [op], all[j].key) {
      var key := all[j].key;
      FrequencyCountsHits(cfg, Empty<V>(), ops, key, 0);
      PushCounted(NewEntry(op), s.entries, key, Hits(cfg, ops, key));
      RunOneMore(cfg, Empty<V>(), ops, op, key, 0);
    }
  }
}
