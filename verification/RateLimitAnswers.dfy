/** What clients of the rate limiter are told by Allow, Remaining and ResetTime, over every run. */
module RateLimitAnswers {
  import opened Arithmetic
  import opened RateLimitSpec
  import opened RateLimitTraces
  import opened RateLimitRefills

  // The answers to the Allow calls of a run, in order.
  function Answers(cfg: Config, m: Clients, es: seq<Event>): seq<bool>
    requires cfg.window > 0
    decreases |es|
  {
    if es == [] then []
    else
      var rest := Answers(cfg, Step(cfg, m, es[0]), es[1..]);
      if es[0].AllowEvent? then [Allow(cfg, m, es[0].id, es[0].at).1] + rest else rest
  }

  // The clock after a run.
  function Clock(now: int, es: seq<Event>): int
    decreases |es|
  {
    if es == [] then now else Clock(es[0].at, es[1..])
  }

  // ------------------------------------------------------ reachable tables

  ghost predicate AllModest(cfg: Config, m: Clients, now: int) {
    forall id :: id in m ==> Modest(cfg, m[id], now)
  }

  ghost predicate AllProper(cfg: Config, m: Clients, now: int) {
    forall id :: id in m ==> Proper(cfg, m[id], now)
  }

  lemma {:induction false} StepModest(cfg: Config, m: Clients, e: Event, now: int)
    requires cfg.Sane() && cfg.rate > 0 && AllModest(cfg, m, now) && now <= e.at
    ensures AllModest(cfg, Step(cfg, m, e), e.at)
  {
    hide Refills;
  }

  lemma {:induction false} RunModest(cfg: Config, m: Clients, es: seq<Event>, now: int)
    requires cfg.Sane() && cfg.rate > 0 && AllModest(cfg, m, now) && Monotone(now, es)
    ensures AllModest(cfg, Run(cfg, m, es), Clock(now, es))
    decreases |es|
  {
    if es != [] {
      hide Step, AllModest;
      StepModest(cfg, m, es[0], now);
      RunModest(cfg, Step(cfg, m, es[0]), es[1..], es[0].at);
    }
  }

  lemma {:induction false} StepProper(cfg: Config, m: Clients, e: Event, now: int)
    requires cfg.Sane() && cfg.rate > 0 && NeverNegative(cfg) && AllProper(cfg, m, now) && now <= e.at
    ensures AllProper(cfg, Step(cfg, m, e), e.at)
  {
    hide Refills;
    if e.AllowEvent? && e.id in m {
      assert Proper(cfg, m[e.id], e.at);
      assert Refill(cfg, m[e.id], e.at).tokens >= 0;
    }
  }

  lemma {:induction false} RunProper(cfg: Config, m: Clients, es: seq<Event>, now: int)
    requires cfg.Sane() && cfg.rate > 0 && NeverNegative(cfg) && AllProper(cfg, m, now) && Monotone(now, es)
    ensures AllProper(cfg, Run(cfg, m, es), Clock(now, es))
    decreases |es|
  {
    if es != [] {
      hide Step, AllProper, NeverNegative;
      StepProper(cfg, m, es[0], now);
      RunProper(cfg, Step(cfg, m, es[0]), es[1..], es[0].at);
    }
  }

  ghost predicate StaysProper(cfg: Config)
    requires cfg.window > 0
  {
    forall es, now :: Monotone(now, es) ==> AllProper(cfg, Run(cfg, map[], es), Clock(now, es))
  }

  // Every run keeps every count between zero and rate - 1 exactly when the rate is
  // positive and no refill overflows or the rate divides 2^63.
  lemma {:induction false} StaysProperIff(cfg: Config)
    requires cfg.Sane() && cfg.maxClients > 0
    ensures StaysProper(cfg) <==> cfg.rate > 0 && (Fits(cfg) || (MAX + 1) % cfg.rate == 0)
  {
    if cfg.rate > 0 { NeverNegativeIff(cfg); }
    if cfg.rate <= 0 {
      var n := SpendOut(cfg);
      var es := Repeat(AllowEvent("", 0), n, []);
      assert !AllProper(cfg, Run(cfg, map[], es), Clock(0, es));
    } else if NeverNegative(cfg) {
      forall es, now | Monotone(now, es) ensures AllProper(cfg, Run(cfg, map[], es), Clock(now, es)) {
        RunProper(cfg, map[], es, now);
      }
    } else {
      var es, id, q := NegativeRun(cfg);
      assert !AllProper(cfg, Run(cfg, map[], es), Clock(0, es));
    }
  }

  // With a rate below one: a client asks until it is out of tokens.
  lemma {:induction false} SpendOut(cfg: Config) returns (n: nat)
    requires cfg.Sane() && cfg.rate <= 0 && cfg.maxClients > 0
    ensures n > 0
    ensures var es, m := Repeat(AllowEvent("", 0), n, []), Run(cfg, map[], Repeat(AllowEvent("", 0), n, []));
      && Monotone(0, es) && Clock(0, es) == 0
      && m.Keys == {""} && m[""].lastSeen == 0 && m[""].tokens <= 0
  {
    hide Run, Monotone, Clock;
    n := if Wrap(cfg.rate - 1) > 0 then Wrap(cfg.rate - 1) + 1 else 1;
    SpendFirst(cfg, "", n, []);
    RunEmpty(cfg, Only("", Wrap(cfg.rate - 1) + 1 - n, 0));
    RepeatMonotone("", n, []);
    RepeatClock("", n, []);
    RunsEmpty(0);
  }

  lemma {:induction false} RunsEmpty(now: int)
    ensures Clock(now, []) == now && Monotone(now, [])
  {
  }

  // A client whose second request, after a long time, leaves it below zero.
  lemma {:induction false} NegativeRun(cfg: Config) returns (es: seq<Event>, id: string, q: nat)
    requires cfg.Sane() && cfg.rate > 0 && !Fits(cfg) && (MAX + 1) % cfg.rate != 0 && cfg.maxClients > 0
    ensures es == [AllowEvent(id, 0), AllowEvent(id, cfg.window * q)] && Monotone(0, es)
    ensures var m := Run(cfg, map[], es);
      m.Keys == {id} && m[id].lastSeen == cfg.window * q && MIN <= m[id].tokens <= cfg.rate - 2 - MAX - 1 < 0
  {
    hide Run, Refill;
    q := NegativeAfter(cfg);
    id := "";
    es := [AllowEvent(id, 0), AllowEvent(id, cfg.window * q)];
    RunTwo(cfg, map[], es[0], es[1]);
    EnterOne(cfg, id, 0);
    assert es[1..] == [es[1]] && [es[1]][1..] == [];
    assert Monotone(es[0].at, [es[1]]);
  }

  lemma {:induction false} RunTwo(cfg: Config, m: Clients, d: Event, e: Event)
    requires cfg.window > 0
    ensures Run(cfg, m, [d, e]) == Step(cfg, Step(cfg, m, d), e)
  {
    hide Step;
    assert [d, e][1..] == [e] && [e][1..] == [];
    assert Run(cfg, m, [d, e]) == Run(cfg, Step(cfg, m, d), [e]);
  }

  // -------------------------------------------- Remaining predicts Allow

  // n requests of one client at one instant.
  function Burst(id: string, now: int, n: nat): (es: seq<Event>)
    ensures |es| == n && forall i :: 0 <= i < n ==> es[i] == AllowEvent(id, now)
  {
    seq(n, i => AllowEvent(id, now))
  }

  // How many requests of a client at this instant are let in.
  function Admittable(cfg: Config, m: Clients, id: string, now: int): int
    requires cfg.window > 0
  {
    if id in m then Refill(cfg, m[id], now).tokens else cfg.rate
  }

  // A record that Allow has just refilled is not refilled again.
  lemma {:induction false} RefilledOnce(cfg: Config, r: Record, now: int)
    requires cfg.Sane()
    ensures var r' := Refill(cfg, r, now); Refill(cfg, r', now) == r'
  {
    hide Wrap;
    if Refills(cfg, r, now) > 0 { FreshRecord(cfg, Refill(cfg, r, now), now); }
  }

  lemma {:induction false} OneAllow(cfg: Config, m: Clients, id: string, now: int)
    requires cfg.Sane() && cfg.rate > 0
    requires id in m || |m| < cfg.maxClients
    ensures var k, m' := Admittable(cfg, m, id, now), Allow(cfg, m, id, now).0;
      && Allow(cfg, m, id, now).1 == (k > 0)
      && id in m' && Admittable(cfg, m', id, now) == if k > 0 then k - 1 else k
  {
    hide Refill;
    if id in m { RefilledOnce(cfg, m[id], now); }
    FreshRecord(cfg, Record(Admittable(cfg, m, id, now) - 1, now), now);
  }

  // A burst of requests is answered yes until the refilled tokens are spent, and no from there on.
  lemma {:induction false} BurstAnswers(cfg: Config, m: Clients, id: string, now: int, n: nat)
    requires cfg.Sane() && cfg.rate > 0
    requires id in m || |m| < cfg.maxClients
    ensures Answers(cfg, m, Burst(id, now, n)) == seq(n, i => i < Admittable(cfg, m, id, now))
    decreases n
  {
    if n > 0 {
      hide Admittable, Allow;
      var m', ok := Allow(cfg, m, id, now).0, Allow(cfg, m, id, now).1;
      var k, k' := Admittable(cfg, m, id, now), Admittable(cfg, m', id, now);
      OneAllow(cfg, m, id, now);
      assert ok == (k > 0) && k' == if k > 0 then k - 1 else k;
      BurstAnswers(cfg, m', id, now, n - 1);
      assert Burst(id, now, n)[1..] == Burst(id, now, n - 1);
      assert seq(n, i => i < k) == [k > 0] + seq(n - 1, i => i < k');
    }
  }

  // A client is let in at this instant exactly as many more times as Remaining says.
  ghost predicate Predicts(cfg: Config, m: Clients, id: string, now: int)
    requires cfg.window > 0
  {
    forall n: nat :: Answers(cfg, m, Burst(id, now, n)) == seq(n, i => i < Remaining(cfg, m, id, now))
  }

  lemma {:induction false} PredictsSame(cfg: Config, m: Clients, id: string, now: int)
    requires cfg.Sane() && cfg.rate > 0
    requires id in m || |m| < cfg.maxClients
    ensures var k, k' := Admittable(cfg, m, id, now), Remaining(cfg, m, id, now);
      Predicts(cfg, m, id, now) <==> k == k' || (k <= 0 && k' <= 0)
  {
    hide Admittable, Remaining, Answers;
    var k, k' := Admittable(cfg, m, id, now), Remaining(cfg, m, id, now);
    if k == k' || (k <= 0 && k' <= 0) {
      forall n: nat ensures Answers(cfg, m, Burst(id, now, n)) == seq(n, i => i < k') {
        BurstAnswers(cfg, m, id, now, n);
        assert seq(n, i => i < k) == seq(n, i => i < k');
      }
    } else {
      var low: nat := if k < k' then (if k < 0 then 0 else k) else if k' < 0 then 0 else k';
      BurstAnswers(cfg, m, id, now, low + 1);
      assert seq(low + 1, i => i < k)[low] != seq(low + 1, i => i < k')[low];
      assert Answers(cfg, m, Burst(id, now, low + 1)) != seq(low + 1, i => i < k');
    }
  }

  // Remaining counts a product that has wrapped below zero, and Allow does not: the
  // prediction is right exactly when there is no such product, or the client is
  // turned away either way.
  lemma {:induction false} RemainingPredictsAllowIff(cfg: Config, m: Clients, id: string, now: int)
    requires cfg.Sane() && cfg.rate > 0
    requires if id in m then Modest(cfg, m[id], now) else |m| < cfg.maxClients
    ensures Predicts(cfg, m, id, now) <==>
      (id in m ==> var refills := Refills(cfg, m[id], now);
        refills >= 0 || (m[id].tokens <= 0 && Wrap(m[id].tokens + refills) <= 0))
  {
    hide Quotient, Elapsed, Predicts;
    PredictsSame(cfg, m, id, now);
  }

  ghost predicate RemainingLaw(cfg: Config)
    requires cfg.window > 0
  {
    forall es, now, id, at :: Monotone(now, es) && Clock(now, es) <= at ==>
      var m := Run(cfg, map[], es);
      id in m || |m| < cfg.maxClients ==> Predicts(cfg, m, id, at)
  }

  // After every run Remaining predicts Allow, exactly when the rate is positive and the
  // refill for the longest idle time is representable.
  lemma {:induction false} RemainingLawIff(cfg: Config)
    requires cfg.Sane() && cfg.maxClients > 0
    ensures RemainingLaw(cfg) <==> cfg.rate > 0 && cfg.rate * (MAX / cfg.window) <= MAX
  {
    hide Predicts, Run;
    if cfg.rate <= 0 {
      FirstUnpredicted(cfg);
      RunEmpty(cfg, map[]);
      RunsEmpty(0);
    } else if cfg.rate * (MAX / cfg.window) <= MAX {
      forall es, now, id, at | Monotone(now, es) && Clock(now, es) <= at
        ensures var m := Run(cfg, map[], es);
          id in m || |m| < cfg.maxClients ==> Predicts(cfg, m, id, at)
      {
        RunModest(cfg, map[], es, now);
        var m := Run(cfg, map[], es);
        if id in m { RefillsRepresentable(cfg, m[id], at); }
        if id in m || |m| < cfg.maxClients { RemainingPredictsAllowIff(cfg, m, id, at); }
      }
    } else {
      var q := OverflowingProduct(cfg.rate, MAX / cfg.window);
      var es := Repeat(AllowEvent("", 0), cfg.rate - 1, []);
      SpendFirst(cfg, "", cfg.rate - 1, []);
      RepeatMonotone("", cfg.rate - 1, []);
      RepeatClock("", cfg.rate - 1, []);
      RunEmpty(cfg, Only("", 1, 0));
      RefillsAfter(cfg, Record(1, 0), q);
      RemainingPredictsAllowIff(cfg, Only("", 1, 0), "", cfg.window * q);
    }
  }

  lemma {:induction false} FirstUnpredicted(cfg: Config)
    requires cfg.Sane() && cfg.rate <= 0 && cfg.maxClients > 0
    ensures !Predicts(cfg, map[], "", 0)
  {
    EnterOne(cfg, "", 0);
    assert Answers(cfg, map[], Burst("", 0, 1))[0] != seq(1, i => i < Remaining(cfg, map[], "", 0))[0];
  }

  lemma {:induction false} RunEmpty(cfg: Config, m: Clients)
    requires cfg.window > 0
    ensures Run(cfg, m, []) == m
  {
  }

  lemma {:induction false} RepeatClock(id: string, n: nat, tail: seq<Event>)
    ensures Clock(0, Repeat(AllowEvent(id, 0), n, tail)) == Clock(0, tail)
  {
    if n > 0 { RepeatClock(id, n - 1, tail); }
  }

  lemma {:induction false} RefillsRepresentable(cfg: Config, r: Record, now: int)
    requires cfg.Sane() && cfg.rate > 0 && cfg.rate * (MAX / cfg.window) <= MAX && r.lastSeen <= now
    ensures Refills(cfg, r, now) >= 0
  {
    hide Wrap;
    var e := Elapsed(now, r.lastSeen);
    QuotientBounds(e, MAX, cfg.window);
    if e / cfg.window >= 1 { ProductBounds(e / cfg.window, MAX / cfg.window, cfg.rate); }
  }

  // The least number of windows whose product with the rate overflows.
  lemma {:induction false} OverflowingProduct(rate: int, k: nat) returns (q: nat)
    requires 0 < rate <= MAX && rate * k > MAX
    ensures 1 <= q <= k && MAX < rate * q <= MAX + rate
    ensures rate > 1 || q > MAX
    decreases k
  {
    assert rate * k == rate * (k - 1) + rate;
    if rate * (k - 1) > MAX { q := OverflowingProduct(rate, k - 1); } else { q := k; }
  }

  // ---------------------------------------------------- the reset time

  // A client out of tokens is let in again exactly from its reset time on; with
  // tokens left it is let in at any time.
  ghost predicate ResetExact(cfg: Config, m: Clients, id: string, now: int)
    requires cfg.window > 0 && id in m
  {
    Allow(cfg, m, id, now).1 <==> m[id].tokens > 0 || now >= ResetTime(cfg, m, id, now)
  }

  ghost predicate ResetLaw(cfg: Config)
    requires cfg.window > 0
  {
    forall es, now, id, at :: Monotone(now, es) && Clock(now, es) <= at ==>
      var m := Run(cfg, map[], es); id in m ==> ResetExact(cfg, m, id, at)
  }

  // After every run the reset time is right, exactly when the rate is positive and no
  // refill overflows.
  lemma {:induction false} ResetLawIff(cfg: Config)
    requires cfg.Sane() && cfg.maxClients > 0
    ensures ResetLaw(cfg) <==> cfg.rate > 0 && Fits(cfg)
  {
    hide Run, ResetExact;
    if cfg.rate <= 0 {
      var n := SpendOut(cfg);
      NotRefilled(cfg, Run(cfg, map[], Repeat(AllowEvent("", 0), n, [])), "", cfg.window);
    } else if Fits(cfg) {
      NeverNegativeIff(cfg);
      forall es, now, id, at | Monotone(now, es) && Clock(now, es) <= at
        ensures var m := Run(cfg, map[], es); id in m ==> ResetExact(cfg, m, id, at)
      {
        RunProper(cfg, map[], es, now);
        var m := Run(cfg, map[], es);
        if id in m { ProperReset(cfg, m, id, at); }
      }
    } else {
      var k, at := WrongReset(cfg);
      var es := Repeat(AllowEvent("", 0), cfg.rate - k, []);
      SpendFirst(cfg, "", cfg.rate - k, []);
      RepeatMonotone("", cfg.rate - k, []);
      RepeatClock("", cfg.rate - k, []);
      RunEmpty(cfg, Only("", k, 0));
    }
  }

  lemma {:induction false} NotRefilled(cfg: Config, m: Clients, id: string, now: int)
    requires cfg.Sane() && cfg.rate <= 0 && now == cfg.window
    requires id in m && m[id].tokens <= 0 && m[id].lastSeen == 0
    ensures !ResetExact(cfg, m, id, now)
  {
    DivideUnique(cfg.window, cfg.window, 1, 0);
  }

  lemma {:induction false} ProperReset(cfg: Config, m: Clients, id: string, now: int)
    requires cfg.Sane() && cfg.rate > 0 && Fits(cfg) && id in m && Proper(cfg, m[id], now)
    ensures ResetExact(cfg, m, id, now)
  {
    if now - m[id].lastSeen >= cfg.window {
      IdleIsFull(cfg, m[id], now);
    } else {
      FreshRecord(cfg, m[id], now);
    }
  }

  // A client with all but one of its tokens whose refill overflows to a negative count,
  // or one out of tokens whose refill is skipped.
  lemma {:induction false} WrongReset(cfg: Config) returns (k: nat, now: nat)
    requires cfg.Sane() && cfg.rate > 0 && !Fits(cfg)
    ensures k < cfg.rate && !ResetExact(cfg, Only("", k, 0), "", now)
  {
    var q := Overflowing(cfg.rate, MAX / cfg.window);
    k, now := if cfg.rate * q > MAX then 0 else cfg.rate - 1, cfg.window * q;
    RefillsAfter(cfg, Record(k, 0), q);
  }
}
