/** Properties of every run of the rate limiter. */
module RateLimitTraces {
  import opened Sets
  import opened Arithmetic
  import opened RateLimitSpec

  // ------------------------------------------------- sliding-window bound

  // A record idle long enough for a sweep has been idle for a whole window.
  ghost predicate SweepSafe(cfg: Config) { SweepAge(cfg) >= cfg.window - 1 }

  ghost predicate Sorted(h: seq<int>) {
    forall i, j :: 0 <= i < j < |h| ==> h[i] <= h[j]
  }

  // Any rate + 1 consecutive admissions take at least a window.
  ghost predicate Spaced(cfg: Config, h: seq<int>)
    requires cfg.rate > 0
  {
    forall i :: 0 <= i && i + cfg.rate < |h| ==> h[i + cfg.rate] - h[i] >= cfg.window
  }

  ghost predicate UpTo(h: seq<int>, now: int) { forall i :: 0 <= i < |h| ==> h[i] <= now }

  // Of the admissions `h` of one client, the last `b` were paid from the tokens it
  // got at its latest refill, and everything before them is a window away.
  ghost predicate Bucket(cfg: Config, r: Record, h: seq<int>, b: nat, now: int)
    requires cfg.rate > 0
  {
    && b <= |h| && r.tokens + b <= cfg.rate
    && r.lastSeen <= now && UpTo(h, r.lastSeen)
    && (0 < b < |h| ==> h[|h| - b] - h[|h| - b - 1] >= cfg.window)
    && (b == 0 < |h| ==> r.lastSeen - h[|h| - 1] >= cfg.window)
  }

  ghost predicate History(cfg: Config, m: Clients, id: string, h: seq<int>, b: nat, now: int)
    requires cfg.rate > 0
  {
    && Sorted(h) && Spaced(cfg, h)
    && (id in m ==> Bucket(cfg, m[id], h, b, now))
    && (id !in m && |h| > 0 ==> now - h[|h| - 1] >= cfg.window)
  }

  // One more admission, a window after the start of what it has to be a window from.
  lemma {:induction false} Admit(cfg: Config, h: seq<int>, at: int)
    requires cfg.rate > 0 && Sorted(h) && Spaced(cfg, h)
    requires |h| > 0 ==> h[|h| - 1] <= at
    requires |h| >= cfg.rate ==> at - h[|h| - cfg.rate] >= cfg.window
    ensures Sorted(h + [at]) && Spaced(cfg, h + [at])
  {
  }

  lemma {:induction false} RefilledBucket(cfg: Config, r: Record, h: seq<int>, b: nat, now: int, at: int)
    requires cfg.Sane() && cfg.rate > 0 && Sorted(h) && Spaced(cfg, h)
    requires Bucket(cfg, r, h, b, now) && now <= at && Refills(cfg, r, at) > 0
    ensures Bucket(cfg, Refill(cfg, r, at), h, 0, at)
  {
    RefillTakesWindow(cfg, r, at);
  }

  lemma {:induction false} SpentToken(cfg: Config, r: Record, h: seq<int>, b: nat, at: int)
    requires cfg.Sane() && cfg.rate > 0 && Sorted(h) && Spaced(cfg, h)
    requires Bucket(cfg, r, h, b, at) && r.tokens > 0
    ensures Sorted(h + [at]) && Spaced(cfg, h + [at])
    ensures Bucket(cfg, Record(r.tokens - 1, at), h + [at], b + 1, at)
  {
    Admit(cfg, h, at);
  }

  // The client's own request, when it has a record.
  lemma {:induction false} KnownClient(cfg: Config, m: Clients, id: string, at: int, h: seq<int>, b: nat, now: int)
    returns (h': seq<int>, b': nat)
    requires cfg.Sane() && cfg.rate > 0 && History(cfg, m, id, h, b, now) && now <= at && id in m
    ensures History(cfg, Allow(cfg, m, id, at).0, id, h', b', at)
    ensures h' == if Allow(cfg, m, id, at).1 then h + [at] else h
  {
    hide Wrap, Refills, Spaced;
    var r := Refill(cfg, m[id], at);
    h', b' := h, b;
    if Refills(cfg, m[id], at) > 0 {
      RefilledBucket(cfg, m[id], h, b, now, at);
      b' := 0;
    }
    if r.tokens > 0 {
      SpentToken(cfg, r, h, b', at);
      h', b' := h + [at], b' + 1;
    }
  }

  lemma {:induction false} StepHistory(cfg: Config, m: Clients, e: Event, id: string, h: seq<int>, b: nat, now: int)
    returns (h': seq<int>, b': nat)
    requires cfg.Sane() && cfg.rate > 0 && SweepSafe(cfg)
    requires History(cfg, m, id, h, b, now) && now <= e.at
    ensures History(cfg, Step(cfg, m, e), id, h', b', e.at)
    ensures h' == if e.AllowEvent? && e.id == id && Allow(cfg, m, id, e.at).1 then h + [e.at] else h
  {
    hide Refill;
    h', b' := h, b;
    if e.AllowEvent? && e.id == id {
      if id in m {
        h', b' := KnownClient(cfg, m, id, e.at, h, b, now);
      } else if |m| < cfg.maxClients {
        Admit(cfg, h, e.at);
        h', b' := h + [e.at], 1;
      }
    }
  }

  lemma {:induction false} FirstAdmission(cfg: Config, m: Clients, es: seq<Event>, id: string, h: seq<int>)
    requires cfg.window > 0 && es != []
    ensures var e, later := es[0], Admissions(cfg, Step(cfg, m, es[0]), es[1..], id);
      h + Admissions(cfg, m, es, id) ==
        (if e.AllowEvent? && e.id == id && Allow(cfg, m, id, e.at).1 then h + [e.at] else h) + later
  {
    hide Allow, Step;
  }

  lemma {:induction false} RunHistory(
    cfg: Config, m: Clients, es: seq<Event>, id: string, h: seq<int>, b: nat, now: int)
    requires cfg.Sane() && cfg.rate > 0 && SweepSafe(cfg)
    requires History(cfg, m, id, h, b, now) && Monotone(now, es)
    ensures Sorted(h + Admissions(cfg, m, es, id)) && Spaced(cfg, h + Admissions(cfg, m, es, id))
    decreases |es|
  {
    if es == [] {
      assert h + [] == h;
    } else {
      hide History, Allow, Step, Admissions;
      var h', b' := StepHistory(cfg, m, es[0], id, h, b, now);
      RunHistory(cfg, Step(cfg, m, es[0]), es[1..], id, h', b', es[0].at);
      FirstAdmission(cfg, m, es, id, h);
    }
  }

  // ------------------------------------------------------------- counting

  function CountIn(h: seq<int>, lo: int, hi: int): nat {
    if h == [] then 0 else (if lo <= h[0] < hi then 1 else 0) + CountIn(h[1..], lo, hi)
  }

  lemma {:induction false} CountBounds(h: seq<int>, lo: int, hi: int)
    ensures CountIn(h, lo, hi) <= |h|
    ensures (forall i :: 0 <= i < |h| ==> h[i] >= hi) ==> CountIn(h, lo, hi) == 0
  {
    if h != [] { CountBounds(h[1..], lo, hi); }
  }

  lemma {:induction false} CountConcat(a: seq<int>, b: seq<int>, lo: int, hi: int)
    ensures CountIn(a + b, lo, hi) == CountIn(a, lo, hi) + CountIn(b, lo, hi)
  {
    if a == [] {
      assert a + b == b;
    } else {
      assert (a + b)[1..] == a[1..] + b;
      CountConcat(a[1..], b, lo, hi);
    }
  }

  lemma {:induction false} CountRanges(h: seq<int>, lo: int, mid: int, hi: int)
    requires lo <= mid <= hi
    ensures CountIn(h, lo, hi) == CountIn(h, lo, mid) + CountIn(h, mid, hi)
  {
    if h != [] { CountRanges(h[1..], lo, mid, hi); }
  }

  lemma {:induction false} SpacedCount(cfg: Config, h: seq<int>, t: int)
    requires cfg.rate > 0 && Sorted(h) && Spaced(cfg, h)
    ensures CountIn(h, t, t + cfg.window) <= cfg.rate
    decreases |h|
  {
    if |h| <= cfg.rate {
      CountBounds(h, t, t + cfg.window);
    } else if h[0] < t {
      assert Spaced(cfg, h[1..]) by {
        forall i | 0 <= i && i + cfg.rate < |h[1..]| ensures h[1..][i + cfg.rate] - h[1..][i] >= cfg.window {
          assert h[1 + i + cfg.rate] - h[1 + i] >= cfg.window;
        }
      }
      SpacedCount(cfg, h[1..], t);
    } else {
      var k := cfg.rate;
      assert h[0 + k] - h[0] >= cfg.window;
      CountBounds(h[..k], t, t + cfg.window);
      CountBounds(h[k..], t, t + cfg.window);
      CountConcat(h[..k], h[k..], t, t + cfg.window);
      assert h[..k] + h[k..] == h;
    }
  }

  // For every run of Allow calls by any clients, with sweeps anywhere, no client is
  // admitted more than `rate` times within any window.
  lemma {:induction false} SlidingWindow(cfg: Config, now: int, es: seq<Event>, id: string, t: int)
    requires cfg.Sane() && cfg.rate > 0 && SweepSafe(cfg) && Monotone(now, es)
    ensures CountIn(Admissions(cfg, map[], es, id), t, t + cfg.window) <= cfg.rate
  {
    RunHistory(cfg, map[], es, id, [], 0, now);
    var h := Admissions(cfg, map[], es, id);
    assert [] + h == h;
    SpacedCount(cfg, h, t);
  }

  // What a client may be admitted in a span of this length.
  function Budget(cfg: Config, span: nat): int
    requires cfg.window > 0
  {
    cfg.rate * (span / cfg.window + 1)
  }

  lemma {:induction false} BudgetStep(cfg: Config, span: nat)
    requires cfg.window > 0
    ensures span < cfg.window ==> Budget(cfg, span) == cfg.rate
    ensures span >= cfg.window ==> Budget(cfg, span) == Budget(cfg, span - cfg.window) + cfg.rate
  {
    var w := cfg.window;
    QuotientBounds(span, span, w);
    if span >= w {
      DivideBounds(span, w);
      DivideBounds(span - w, w);
      FactorBounds(w, span / w, (span - w) / w + 1);
      FactorBounds(w, (span - w) / w + 1, span / w);
    }
  }

  lemma {:induction false} SpanCount(cfg: Config, h: seq<int>, t: int, span: nat)
    requires cfg.Sane() && cfg.rate > 0 && Sorted(h) && Spaced(cfg, h)
    ensures CountIn(h, t, t + span + 1) <= Budget(cfg, span)
    decreases span
  {
    hide Budget;
    SpacedCount(cfg, h, t);
    BudgetStep(cfg, span);
    if span < cfg.window {
      CountRanges(h, t, t + span + 1, t + cfg.window);
    } else {
      var less := span - cfg.window;
      SpanCount(cfg, h, t + cfg.window, less);
      CountRanges(h, t, t + cfg.window, t + span + 1);
    }
  }

  // In any span [t, t + span], at most rate * (span / window + 1) are admitted.
  lemma {:induction false} SpanBound(cfg: Config, now: int, es: seq<Event>, id: string, t: int, span: nat)
    requires cfg.Sane() && cfg.rate > 0 && SweepSafe(cfg) && Monotone(now, es)
    ensures CountIn(Admissions(cfg, map[], es, id), t, t + span + 1) <= Budget(cfg, span)
  {
    RunHistory(cfg, map[], es, id, [], 0, now);
    var h := Admissions(cfg, map[], es, id);
    assert [] + h == h;
    SpanCount(cfg, h, t, span);
  }

  // ------------------------------------------- the exact bound on a window

  ghost predicate AtMostRate(cfg: Config, es: seq<Event>, id: string, t: int)
    requires cfg.window > 0
  {
    CountIn(Admissions(cfg, map[], es, id), t, t + cfg.window) <= cfg.rate
  }

  ghost predicate WindowBound(cfg: Config)
    requires cfg.window > 0
  {
    forall es, now, id, t :: Monotone(now, es) ==> AtMostRate(cfg, es, id, t)
  }

  // Given room for one client, "at most rate in any window" holds of all runs exactly
  // when the rate is at least one and ten windows do not overflow to less than one. With
  // a rate below one an unknown client's first request is admitted all the same; with
  // such a window a sweep forgives a client that has just spent its tokens.
  lemma {:induction false} WindowBoundExactly(cfg: Config)
    requires cfg.Sane() && cfg.maxClients > 0
    ensures WindowBound(cfg) <==> cfg.rate > 0 && SweepSafe(cfg)
  {
    if cfg.rate <= 0 {
      FirstRequestAdmitted(cfg);
    } else if SweepSafe(cfg) {
      forall es, now, id, t | Monotone(now, es) ensures AtMostRate(cfg, es, id, t) {
        SlidingWindow(cfg, now, es, id, t);
      }
    } else {
      SweptTooSoon(cfg, "");
    }
  }

  lemma {:induction false} FirstRequestAdmitted(cfg: Config)
    requires cfg.Sane() && cfg.rate <= 0 && cfg.maxClients > 0
    ensures !WindowBound(cfg)
  {
    var es := [AllowEvent("", 0)];
    assert Admissions(cfg, map[], es, "") == [0];
    assert Monotone(0, es) && !AtMostRate(cfg, es, "", 0);
  }

  // n copies of x before the tail
  function Repeat<T>(x: T, n: nat, tail: seq<T>): seq<T> {
    if n == 0 then tail else [x] + Repeat(x, n - 1, tail)
  }

  lemma {:induction false} RepeatFirst<T>(x: T, n: nat, tail: seq<T>)
    ensures Repeat(x, n, tail) == if n == 0 then tail else [x] + Repeat(x, n - 1, tail)
  {
  }

  lemma {:induction false} CountZeros(n: nat, tail: seq<int>, hi: int)
    requires hi > 0
    ensures CountIn(Repeat(0, n, tail), 0, hi) == n + CountIn(tail, 0, hi)
  {
    if n > 0 { CountZeros(n - 1, tail, hi); }
  }

  // Within a window of its last use a record is not refilled.
  lemma {:induction false} FreshRecord(cfg: Config, r: Record, now: int)
    requires cfg.Sane() && r.lastSeen <= now < r.lastSeen + cfg.window
    ensures Refills(cfg, r, now) == 0 && Refill(cfg, r, now) == r
  {
    hide Wrap;
    QuotientBounds(Elapsed(now, r.lastSeen), MAX, cfg.window);
    assert 0 * cfg.rate == 0;
  }

  // The table with the one client of the runs below.
  function Only(id: string, tokens: int, lastSeen: int): Clients { map[id := Record(tokens, lastSeen)] }

  lemma {:induction false} SpendOne(cfg: Config, id: string, k: nat)
    requires cfg.Sane() && 0 < k
    ensures Allow(cfg, Only(id, k, 0), id, 0) == (Only(id, k - 1, 0), true)
  {
    FreshRecord(cfg, Record(k, 0), 0);
    assert Only(id, k, 0)[id := Record(k - 1, 0)] == Only(id, k - 1, 0);
  }

  lemma {:induction false} EnterOne(cfg: Config, id: string, now: int)
    requires cfg.window > 0 && cfg.maxClients > 0
    ensures Allow(cfg, map[], id, now) == (Only(id, Wrap(cfg.rate - 1), now), true)
  {
    var k := Wrap(cfg.rate - 1);
    assert map[][id := Record(k, now)] == Only(id, k, now);
  }

  // A run that starts with an admitted request of the client.
  lemma {:induction false} AdmittedFirst(cfg: Config, m: Clients, id: string, n: nat, tail: seq<Event>, m': Clients)
    requires cfg.window > 0 && n > 0 && Allow(cfg, m, id, 0) == (m', true)
    ensures var es, later := Repeat(AllowEvent(id, 0), n, tail), Repeat(AllowEvent(id, 0), n - 1, tail);
      && Admissions(cfg, m, es, id) == [0] + Admissions(cfg, m', later, id)
      && Run(cfg, m, es) == Run(cfg, m', later)
  {
    hide Allow;
    var es := Repeat(AllowEvent(id, 0), n, tail);
    assert es[0] == AllowEvent(id, 0) && es[1..] == Repeat(AllowEvent(id, 0), n - 1, tail);
  }

  // One client spends n of its k tokens at instant 0.
  lemma {:induction false} Spend(cfg: Config, id: string, k: nat, n: nat, tail: seq<Event>)
    requires cfg.Sane() && n <= k
    ensures var es := Repeat(AllowEvent(id, 0), n, tail);
      && Admissions(cfg, Only(id, k, 0), es, id) == Repeat(0, n, Admissions(cfg, Only(id, k - n, 0), tail, id))
      && Run(cfg, Only(id, k, 0), es) == Run(cfg, Only(id, k - n, 0), tail)
    decreases n
  {
    if n > 0 {
      hide Allow, Only, Admissions, Run, Repeat;
      SpendOne(cfg, id, k);
      AdmittedFirst(cfg, Only(id, k, 0), id, n, tail, Only(id, k - 1, 0));
      Spend(cfg, id, k - 1, n - 1, tail);
      RepeatFirst(0, n, Admissions(cfg, Only(id, k - n, 0), tail, id));
    } else {
      RepeatFirst(AllowEvent(id, 0), 0, tail);
      RepeatFirst(0, 0, Admissions(cfg, Only(id, k, 0), tail, id));
    }
  }

  // From an empty table, n requests at instant 0 are all admitted, up to the rate if it
  // is positive; below that the first one is, and at the least rate, which wraps, 2^63.
  lemma {:induction false} SpendFirst(cfg: Config, id: string, n: nat, tail: seq<Event>)
    requires cfg.Sane() && cfg.maxClients > 0 && (n == 1 || 0 < n <= Wrap(cfg.rate - 1) + 1)
    ensures var es, m := Repeat(AllowEvent(id, 0), n, tail), Only(id, Wrap(cfg.rate - 1) + 1 - n, 0);
      && Admissions(cfg, map[], es, id) == Repeat(0, n, Admissions(cfg, m, tail, id))
      && Run(cfg, map[], es) == Run(cfg, m, tail)
  {
    hide Allow, Only, Admissions, Run;
    EnterOne(cfg, id, 0);
    AdmittedFirst(cfg, map[], id, n, tail, Only(id, Wrap(cfg.rate - 1), 0));
    if n > 1 { Spend(cfg, id, Wrap(cfg.rate - 1), n - 1, tail); }
  }

  lemma {:induction false} RepeatMonotone(id: string, n: nat, tail: seq<Event>)
    requires Monotone(0, tail)
    ensures Monotone(0, Repeat(AllowEvent(id, 0), n, tail))
  {
    if n > 0 { RepeatMonotone(id, n - 1, tail); }
  }

  // The run that breaks the bound: a client spends its tokens, is swept, asks again.
  lemma {:induction false} SweptTooSoon(cfg: Config, id: string)
    requires cfg.Sane() && cfg.rate > 0 && cfg.maxClients > 0 && !SweepSafe(cfg)
    ensures !WindowBound(cfg)
  {
    hide AtMostRate, Admissions;
    var s := if SweepAge(cfg) < 0 then 0 else SweepAge(cfg) + 1;
    var tail := [SweepEvent(s), AllowEvent(id, s)];
    var es := Repeat(AllowEvent(id, 0), cfg.rate, tail);
    TailAdmission(cfg, id, s);
    SpendFirst(cfg, id, cfg.rate, tail);
    CountZeros(cfg.rate, [s], cfg.window);
    RepeatMonotone(id, cfg.rate, tail);
    assert !AtMostRate(cfg, es, id, 0) by { OverRate(cfg, es, id); }
  }

  lemma {:induction false} OverRate(cfg: Config, es: seq<Event>, id: string)
    requires cfg.window > 0 && CountIn(Admissions(cfg, map[], es, id), 0, cfg.window) > cfg.rate
    ensures !AtMostRate(cfg, es, id, 0)
  {
  }

  lemma {:induction false} TailAdmission(cfg: Config, id: string, s: nat)
    requires cfg.Sane() && cfg.rate > 0 && cfg.maxClients > 0 && SweepAge(cfg) < s < cfg.window
    ensures Admissions(cfg, Only(id, 0, 0), [SweepEvent(s), AllowEvent(id, s)], id) == [s]
  {
    var spent, tail := Only(id, 0, 0), [SweepEvent(s), AllowEvent(id, s)];
    assert Stale(cfg, spent[id], s);
    assert Sweep(cfg, spent, s) == map[];
    assert tail[1..] == [AllowEvent(id, s)];
    assert Admissions(cfg, map[], tail[1..], id) == [s];
  }

  // ------------------------------------------------------ room for clients

  lemma {:induction false} StepKeepsRoom(cfg: Config, m: Clients, e: Event)
    requires cfg.window > 0 && |m| <= cfg.maxClients
    ensures |Step(cfg, m, e)| <= cfg.maxClients
  {
    hide Refill, Stale;
    var n := Step(cfg, m, e);
    match e
    case AllowEvent(id, _) =>
      if id in m {
        assert n.Keys == m.Keys;
        SubsetSize(n.Keys, m.Keys);
      } else if n != m {
        assert n.Keys - {id} == m.Keys;
      }
    case SweepEvent(_) => SubsetSize(n.Keys, m.Keys);
  }

  lemma {:induction false} RunKeepsRoom(cfg: Config, m: Clients, es: seq<Event>)
    requires cfg.window > 0 && |m| <= cfg.maxClients
    ensures |Run(cfg, m, es)| <= cfg.maxClients
    decreases |es|
  {
    if es != [] {
      hide Step;
      StepKeepsRoom(cfg, m, es[0]);
      RunKeepsRoom(cfg, Step(cfg, m, es[0]), es[1..]);
    }
  }

  // After every run no more clients than the limit have a record. A client without one
  // is let in exactly when fewer have one, and is then the only one added; turned away,
  // it leaves no trace.
  lemma {:induction false} RoomLaw(cfg: Config, es: seq<Event>, id: string, now: int)
    requires cfg.window > 0
    ensures var m := Run(cfg, map[], es); var (n, ok) := Allow(cfg, m, id, now);
      && |m| <= cfg.maxClients
      && (id !in m ==> (ok <==> |m| < cfg.maxClients) && (if ok then n.Keys == m.Keys + {id} else n == m))
      && (forall k :: k in m && k != id ==> k in n && n[k] == m[k])
  {
    hide Run, Refill;
    RunKeepsRoom(cfg, map[], es);
  }
}
