/**
  The hash-chained audit log of internal/audit. The digest (SHA-256 over the JSON of
  an event with its Hash field cleared) is a parameter: all that is asked of it is
  that it returns no empty string and that the events at hand do not collide.
 */
module AuditChain {

  datatype Event = Event(
    id: string,
    timestamp: int,
    userID: string,
    action: string,
    resource: string,
    resourceID: string,
    ip: string,
    userAgent: string,
    status: string,
    details: string,
    metadata: map<string, string>,
    previousHash: string,
    hash: string)

  type Digest = Event -> string

  function ComputeHash(digest: Digest, e: Event): string { digest(e.(hash := "")) }

  datatype Violation =
    | BrokenLink(index: nat, id: string, expected: string, got: string)
    | HashMismatch(index: nat, id: string)

  // The complaints about one event that follows an event with hash `prev`.
  function Complaints(digest: Digest, e: Event, i: nat, prev: string): seq<Violation> {
    (if e.previousHash != prev then [BrokenLink(i, e.id, prev, e.previousHash)] else []) +
    (if ComputeHash(digest, e) != e.hash then [HashMismatch(i, e.id)] else [])
  }

  // All complaints, in order; the event at position k follows the one at k - 1.
  function Violations(digest: Digest, es: seq<Event>): seq<Violation> {
    if es == [] then []
    else
      var n := |es| - 1;
      Violations(digest, es[..n]) + Complaints(digest, es[n], n, LastHash(es[..n]))
  }

  function LastHash(es: seq<Event>): string { if es == [] then "" else es[|es| - 1].hash }

  method VerifyChain(digest: Digest, events: seq<Event>) returns (violations: seq<Violation>)
    ensures violations == Violations(digest, events)
    ensures forall v :: v in violations <==> Complains(digest, events, v)
    ensures InOrder(violations)
    ensures violations == [] <==> Passes(digest, events)
  {
    violations := [];
    var prevHash := "";
    for i := 0 to |events|
      invariant violations == Violations(digest, events[..i]) && prevHash == LastHash(events[..i])
    {
      var e := events[i];
      assert events[..i + 1][..i] == events[..i];
      if e.previousHash != prevHash {
        violations := violations + [BrokenLink(i, e.id, prevHash, e.previousHash)];
      }
      if ComputeHash(digest, e) != e.hash {
        violations := violations + [HashMismatch(i, e.id)];
      }
      prevHash := e.hash;
    }
    assert events[..|events|] == events;
    NoViolations(digest, events);
    ViolationsInOrder(digest, events);
    forall v ensures v in violations <==> Complains(digest, events, v) { ViolationsMean(digest, events, v); }
  }

  // What there is to report: an event that does not name the hash of the one before it,
  // or "" if it is the first, and one that does not carry its own.
  ghost predicate Complains(digest: Digest, es: seq<Event>, v: Violation) {
    v.index < |es| && v.id == es[v.index].id &&
    match v
    case BrokenLink(i, _, expected, got) =>
      expected == (if i == 0 then "" else es[i - 1].hash) && got == es[i].previousHash && expected != got
    case HashMismatch(i, _) => digest(es[i].(hash := "")) != es[i].hash
  }

  // By event, a broken link before a wrong hash, and nothing twice.
  ghost predicate InOrder(vs: seq<Violation>) {
    forall p, q :: 0 <= p < q < |vs| ==>
      vs[p].index < vs[q].index || (vs[p].index == vs[q].index && vs[p].BrokenLink? && vs[q].HashMismatch?)
  }

  lemma {:induction false} ComplaintsMean(digest: Digest, es: seq<Event>, v: Violation)
    requires es != []
    ensures var n := |es| - 1;
      v in Complaints(digest, es[n], n, LastHash(es[..n])) <==> v.index == n && Complains(digest, es, v)
  {
    var n := |es| - 1;
    assert n > 0 ==> LastHash(es[..n]) == es[n - 1].hash;
  }

  lemma {:induction false} ComplainsBefore(digest: Digest, es: seq<Event>, n: nat, v: Violation)
    requires v.index < n <= |es|
    ensures Complains(digest, es, v) <==> Complains(digest, es[..n], v)
  {
  }

  lemma {:induction false} ViolationsMean(digest: Digest, es: seq<Event>, v: Violation)
    ensures v in Violations(digest, es) <==> Complains(digest, es, v)
  {
    if es != [] {
      hide Complaints;
      var n := |es| - 1;
      ViolationsMean(digest, es[..n], v);
      ComplaintsMean(digest, es, v);
      if v.index < n { ComplainsBefore(digest, es, n, v); }
    }
  }

  lemma {:induction false} ComplaintsInOrder(digest: Digest, e: Event, i: nat, prev: string)
    ensures var vs := Complaints(digest, e, i, prev);
      InOrder(vs) && forall p :: 0 <= p < |vs| ==> vs[p].index == i
  {
  }

  lemma {:induction false} ViolationsInOrder(digest: Digest, es: seq<Event>)
    ensures InOrder(Violations(digest, es))
  {
    if es != [] {
      var n := |es| - 1;
      var before, here := Violations(digest, es[..n]), Complaints(digest, es[n], n, LastHash(es[..n]));
      ViolationsInOrder(digest, es[..n]);
      forall p | 0 <= p < |before| ensures before[p].index < n { ViolationsMean(digest, es[..n], before[p]); }
      ComplaintsInOrder(digest, es[n], n, LastHash(es[..n]));
      hide Complaints, Complains;
      var all := before + here;
      forall p, q | 0 <= p < q < |all|
        ensures all[p].index < all[q].index ||
          (all[p].index == all[q].index && all[p].BrokenLink? && all[q].HashMismatch?)
      {
        if p < |before| <= q {
          assert all[p] == before[p] && all[q] == here[q - |before|];
        } else if p >= |before| {
          assert all[p] == here[p - |before|] && all[q] == here[q - |before|];
        }
      }
    }
  }

  ghost predicate Linked(digest: Digest, es: seq<Event>, i: nat)
    requires i < |es|
  {
    es[i].previousHash == LastHash(es[..i]) && ComputeHash(digest, es[i]) == es[i].hash
  }

  // Every event carries its own hash and that of its predecessor.
  ghost predicate Passes(digest: Digest, es: seq<Event>) {
    forall i :: 0 <= i < |es| ==> Linked(digest, es, i)
  }

  lemma {:induction false} PrefixPasses(digest: Digest, es: seq<Event>, n: nat)
    requires n <= |es|
    ensures Passes(digest, es) ==> Passes(digest, es[..n])
    ensures n + 1 == |es| && Passes(digest, es[..n]) && Linked(digest, es, n) ==> Passes(digest, es)
  {
    forall i | 0 <= i < n ensures Linked(digest, es[..n], i) == Linked(digest, es, i) {
      assert es[..n][..i] == es[..i];
    }
  }

  lemma {:induction false} NoViolations(digest: Digest, es: seq<Event>)
    ensures Violations(digest, es) == [] <==> Passes(digest, es)
  {
    if es != [] {
      var n := |es| - 1;
      NoViolations(digest, es[..n]);
      PrefixPasses(digest, es, n);
    }
  }

  // ------------------------------------------------------- tamper evidence

  // Among these events, different contents have different digests, none of them empty.
  ghost predicate CollisionFree(digest: Digest, all: set<Event>) {
    && (forall e :: e in all ==> ComputeHash(digest, e) != "")
    && (forall e, f :: e in all && f in all && ComputeHash(digest, e) == ComputeHash(digest, f) ==> SameContent(e, f))
  }

  ghost predicate SameContent(e: Event, f: Event) { e.(hash := "") == f.(hash := "") }

  ghost predicate Within(es: seq<Event>, all: set<Event>) { forall i :: 0 <= i < |es| ==> es[i] in all }

  ghost function EventsOf(es: seq<Event>): (all: set<Event>)
    ensures Within(es, all)
  {
    set i | 0 <= i < |es| :: es[i]
  }

  lemma {:induction false} SameHashSameEvent(digest: Digest, all: set<Event>, a: Event, b: Event)
    requires CollisionFree(digest, all) && a in all && b in all
    requires ComputeHash(digest, a) == a.hash == b.hash == ComputeHash(digest, b)
    ensures a == b
  {
    assert SameContent(a, b);
    assert a.(hash := "").(hash := a.hash) == a;
    assert b.(hash := "").(hash := b.hash) == b;
  }

  // A non-empty passing log: its last event links to the log before it.
  lemma {:induction false} LastLink(digest: Digest, all: set<Event>, es: seq<Event>)
    requires es != [] && Passes(digest, es) && Within(es, all) && CollisionFree(digest, all)
    ensures var n := |es| - 1;
      && es == es[..n] + [es[n]] && Passes(digest, es[..n]) && Within(es[..n], all) && es[n] in all
      && es[n].previousHash == LastHash(es[..n]) && ComputeHash(digest, es[n]) == es[n].hash == LastHash(es) != ""
  {
    var n := |es| - 1;
    PrefixPasses(digest, es, n);
    assert Linked(digest, es, n);
  }

  // The last hash determines the whole log. So an edit, insertion, deletion or
  // reordering that leaves it unchanged is detected, whatever the lengths.
  lemma {:induction false} LastHashDeterminesLog(digest: Digest, all: set<Event>, a: seq<Event>, b: seq<Event>)
    requires CollisionFree(digest, all) && Within(a, all) && Within(b, all)
    requires Passes(digest, a) && Passes(digest, b) && LastHash(a) == LastHash(b)
    ensures a == b
    decreases |a|
  {
    hide CollisionFree, Passes, Within;
    if a != [] { LastLink(digest, all, a); }
    if b != [] { LastLink(digest, all, b); }
    if a != [] && b != [] {
      var m, n := |a| - 1, |b| - 1;
      SameHashSameEvent(digest, all, a[m], b[n]);
      LastHashDeterminesLog(digest, all, a[..m], b[..n]);
    }
  }

  // What the verifier cannot see is the loss of a suffix: cutting events out of a
  // passing log leaves a passing log exactly when everything after the cut goes too.
  lemma {:induction false} OnlyTruncationPasses(digest: Digest, es: seq<Event>, i: nat, j: nat)
    requires CollisionFree(digest, EventsOf(es)) && Passes(digest, es) && i < j <= |es|
    ensures Passes(digest, es[..i] + es[j..]) <==> j == |es|
  {
    hide CollisionFree, Passes, EventsOf;
    var cut := es[..i] + es[j..];
    if j == |es| {
      assert cut == es[..i];
      PrefixPasses(digest, es, i);
    } else if Passes(digest, cut) {
      assert LastHash(cut) == LastHash(es) && |cut| < |es|;
      LastHashDeterminesLog(digest, EventsOf(es), es, cut);
    }
  }

  // --------------------------------------------------------------- logging

  // What Log makes of the caller's event: an id and a time where there is none, then
  // the link and the hash.
  function Stamp(digest: Digest, lastID: string, e: Event, freshID: string, now: int): Event {
    var f := e.(id := if e.id == "" then freshID else e.id, timestamp := if e.timestamp == 0 then now else e.timestamp,
                previousHash := lastID);
    f.(hash := ComputeHash(digest, f))
  }

  // One call of Log: the event, the id and time at hand, and whether the inner write
  // succeeds.
  datatype Call = Call(event: Event, freshID: string, now: int, written: bool)

  class InnerAuditor {
    var events: seq<Event>

    constructor ()
      ensures events == []
    {
      events := [];
    }

    method Log(event: Event, writable: bool) returns (ok: bool)
      modifies this
      ensures ok == writable && events == if writable then old(events) + [event] else old(events)
    {
      if writable { events := events + [event]; }
      ok := writable;
    }
  }

  class HashedAuditor {
    const inner: InnerAuditor
    var lastID: string
    const digest: Digest

    constructor (inner: InnerAuditor, digest: Digest)
      ensures this.inner == inner && this.digest == digest && lastID == ""
    {
      this.inner, this.digest, lastID := inner, digest, "";
    }

    // The hash advances before the inner write, so also when that write fails.
    method Log(event: Event, freshID: string, now: int, writable: bool) returns (ok: bool)
      modifies this, inner
      ensures var e := Stamp(digest, old(lastID), event, freshID, now);
        && lastID == e.hash && ok == writable && Records(e, Call(event, freshID, now, writable))
        && inner.events == if writable then old(inner.events) + [e] else old(inner.events)
    {
      var e := event;
      if e.id == "" { e := e.(id := freshID); }
      if e.timestamp == 0 { e := e.(timestamp := now); }
      e := e.(previousHash := lastID);
      e := e.(hash := ComputeHash(digest, e));
      lastID := e.hash;
      ok := inner.Log(e, writable);
    }
  }

  // Every event stamped over a run of calls, written or not.
  function Stamped(digest: Digest, calls: seq<Call>): (r: seq<Event>)
    ensures |r| == |calls|
  {
    if calls == [] then []
    else
      var n := |calls| - 1;
      var before := Stamped(digest, calls[..n]);
      before + [Stamp(digest, LastHash(before), calls[n].event, calls[n].freshID, calls[n].now)]
  }

  // The ones that reached the inner auditor.
  function Stored(digest: Digest, calls: seq<Call>): seq<Event> {
    if calls == [] then []
    else
      var n := |calls| - 1;
      Stored(digest, calls[..n]) + if calls[n].written then [Stamped(digest, calls)[n]] else []
  }

  // The calls whose write succeeded, in order.
  function Written(calls: seq<Call>): seq<Call> {
    if calls == [] then []
    else Written(calls[..|calls| - 1]) + if calls[|calls| - 1].written then [calls[|calls| - 1]] else []
  }

  // The event of a call as it is stored: the caller's, but for the link and the hash, an
  // id where the caller gave none and a time where it gave none.
  ghost predicate Records(e: Event, c: Call) {
    && (e.id == if c.event.id != "" then c.event.id else c.freshID)
    && (e.timestamp == if c.event.timestamp != 0 then c.event.timestamp else c.now)
    && e.userID == c.event.userID && e.action == c.event.action && e.resource == c.event.resource
    && e.resourceID == c.event.resourceID && e.ip == c.event.ip && e.userAgent == c.event.userAgent
    && e.status == c.event.status && e.details == c.event.details && e.metadata == c.event.metadata
  }

  ghost predicate RecordsAll(es: seq<Event>, cs: seq<Call>) {
    |es| == |cs| && forall k :: 0 <= k < |es| ==> Records(es[k], cs[k])
  }

  // What is stored is what was logged and written, call by call.
  lemma {:induction false} StoredAreWritten(digest: Digest, calls: seq<Call>)
    ensures RecordsAll(Stored(digest, calls), Written(calls))
  {
    if calls != [] {
      hide Records;
      var n := |calls| - 1;
      StoredAreWritten(digest, calls[..n]);
      StampedRecords(digest, calls);
    }
  }

  lemma {:induction false} StampedRecords(digest: Digest, calls: seq<Call>)
    requires calls != []
    ensures Records(Stamped(digest, calls)[|calls| - 1], calls[|calls| - 1])
  {
  }

  // Run the calls on a fresh auditor: the object does what the functions say.
  method LogAll(digest: Digest, calls: seq<Call>) returns (stored: seq<Event>)
    ensures stored == Stored(digest, calls) && RecordsAll(stored, Written(calls))
  {
    StoredAreWritten(digest, calls);
    hide RecordsAll;
    var inner := new InnerAuditor();
    var auditor := new HashedAuditor(inner, digest);
    for i := 0 to |calls|
      invariant auditor.inner == inner && auditor.digest == digest && fresh(auditor) && fresh(inner)
      invariant auditor.lastID == LastHash(Stamped(digest, calls[..i]))
      invariant inner.events == Stored(digest, calls[..i])
    {
      assert calls[..i + 1][..i] == calls[..i];
      var _ := auditor.Log(calls[i].event, calls[i].freshID, calls[i].now, calls[i].written);
    }
    assert calls[..|calls|] == calls;
    stored := inner.events;
  }

  lemma {:induction false} StampedPasses(digest: Digest, calls: seq<Call>)
    ensures Passes(digest, Stamped(digest, calls))
  {
    if calls != [] {
      var n := |calls| - 1;
      StampedPasses(digest, calls[..n]);
      assert Stamped(digest, calls)[..n] == Stamped(digest, calls[..n]);
      PrefixPasses(digest, Stamped(digest, calls), n);
    }
  }

  lemma {:induction false} StampedBefore(digest: Digest, calls: seq<Call>)
    requires calls != []
    ensures Stamped(digest, calls)[..|calls| - 1] == Stamped(digest, calls[..|calls| - 1])
  {
    hide Stamp;
  }

  lemma {:induction false} StampedPrefix(digest: Digest, calls: seq<Call>, n: nat)
    requires n <= |calls|
    ensures Stamped(digest, calls)[..n] == Stamped(digest, calls[..n])
    decreases |calls|
  {
    hide Stamped;
    if n == |calls| {
      assert calls[..n] == calls && Stamped(digest, calls)[..n] == Stamped(digest, calls);
    } else {
      var m, all := |calls| - 1, Stamped(digest, calls);
      StampedBefore(digest, calls);
      StampedPrefix(digest, calls[..m], n);
      assert calls[..m][..n] == calls[..n] && all[..m][..n] == all[..n];
    }
  }

  // In a passing log all hashes differ: equal ones would make prefixes of different
  // length equal.
  lemma {:induction false} HashesDiffer(digest: Digest, es: seq<Event>, i: nat, j: nat)
    requires CollisionFree(digest, EventsOf(es)) && Passes(digest, es) && i < j <= |es|
    ensures LastHash(es[..i]) != LastHash(es[..j])
  {
    hide CollisionFree, Passes, EventsOf;
    PrefixPasses(digest, es, i);
    PrefixPasses(digest, es, j);
    if LastHash(es[..i]) == LastHash(es[..j]) {
      LastHashDeterminesLog(digest, EventsOf(es), es[..i], es[..j]);
    }
  }

  // No call whose write failed comes before one that was written.
  ghost predicate FailuresLast(calls: seq<Call>) {
    forall i, j :: 0 <= i < j < |calls| && calls[j].written ==> calls[i].written
  }

  // Then the stored log is the beginning of the stamped one.
  lemma {:induction false} StoredIsPrefix(digest: Digest, calls: seq<Call>)
    requires FailuresLast(calls)
    ensures var k := |Stored(digest, calls)|;
      && k <= |calls| && Stored(digest, calls) == Stamped(digest, calls)[..k]
      && (k == |calls| <==> forall i :: 0 <= i < |calls| ==> calls[i].written)
  {
    if calls != [] {
      var n := |calls| - 1;
      hide Stamped;
      StoredIsPrefix(digest, calls[..n]);
      StampedPrefix(digest, calls, n);
      var k := |Stored(digest, calls[..n])|;
      assert Stamped(digest, calls)[..n][..k] == Stamped(digest, calls)[..k];
      if calls[n].written {
        assert k == n;
      } else {
        assert Stored(digest, calls) == Stored(digest, calls[..n]);
      }
    }
  }

  // The log passes exactly when no failed write precedes a successful one: Log moves
  // on to the next hash even when the inner write fails.
  lemma {:induction false} LogPassesIff(digest: Digest, calls: seq<Call>)
    requires CollisionFree(digest, EventsOf(Stamped(digest, calls)))
    ensures Passes(digest, Stored(digest, calls)) <==> FailuresLast(calls)
  {
    StampedPasses(digest, calls);
    if FailuresLast(calls) {
      StoredIsPrefix(digest, calls);
      PrefixPasses(digest, Stamped(digest, calls), |Stored(digest, calls)|);
    } else {
      LateSuccessFails(digest, Stamped(digest, calls), calls);
    }
  }

  // `run` is the stamped log of the whole run, of which these are the first calls.
  lemma {:induction false} LateSuccessFails(digest: Digest, run: seq<Event>, calls: seq<Call>)
    requires CollisionFree(digest, EventsOf(run)) && Passes(digest, run)
    requires |calls| <= |run| && Stamped(digest, calls) == run[..|calls|]
    requires !FailuresLast(calls)
    ensures !Passes(digest, Stored(digest, calls))
    decreases |calls|
  {
    hide CollisionFree, EventsOf, Passes, Stamped;
    var n := |calls| - 1;
    var before, stored := Stored(digest, calls[..n]), Stored(digest, calls);
    assert stored[..|before|] == before;
    if FailuresLast(calls[..n]) {
      FirstLateSuccessFails(digest, run, calls);
    } else {
      StampedPrefix(digest, calls, n);
      assert run[..|calls|][..n] == run[..n];
      LateSuccessFails(digest, run, calls[..n]);
      if Passes(digest, stored) { PrefixPasses(digest, stored, |before|); }
    }
  }

  // The successful write that follows the failed ones carries the hash of an event
  // that was never stored.
  lemma {:induction false} FirstLateSuccessFails(digest: Digest, run: seq<Event>, calls: seq<Call>)
    requires CollisionFree(digest, EventsOf(run)) && Passes(digest, run)
    requires 0 < |calls| <= |run| && Stamped(digest, calls) == run[..|calls|]
    requires FailuresLast(calls[..|calls| - 1]) && !FailuresLast(calls)
    ensures !Passes(digest, Stored(digest, calls))
  {
    hide CollisionFree, EventsOf, Stored, Stamped, Passes;
    var n := |calls| - 1;
    var before := Stored(digest, calls[..n]);
    var k := |before|;
    StoredIsPrefix(digest, calls[..n]);
    assert calls[n].written && k < n;
    StampedPrefix(digest, calls, n);
    assert run[..|calls|][..n] == run[..n] && run[..n][..k] == run[..k];
    HashesDiffer(digest, run, k, n);
    LastStored(digest, calls);
  }

  // Where the last stored event links to, and where the verifier expects it to link.
  lemma {:induction false} LastStored(digest: Digest, calls: seq<Call>)
    requires calls != [] && calls[|calls| - 1].written
    ensures var n := |calls| - 1;
      Passes(digest, Stored(digest, calls)) ==>
        LastHash(Stored(digest, calls[..n])) == LastHash(Stamped(digest, calls[..n]))
  {
    var n := |calls| - 1;
    var before, stored := Stored(digest, calls[..n]), Stored(digest, calls);
    assert stored[..|before|] == before;
    assert stored[|before|].previousHash == LastHash(Stamped(digest, calls[..n]));
    if Passes(digest, stored) { assert Linked(digest, stored, |before|); }
  }
}
