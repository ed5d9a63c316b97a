/** When the sweeps of the rate limiter go unnoticed. */
module RateLimitSweeps {
  import opened Sets
  import opened Arithmetic
  import opened RateLimitSpec
  import opened RateLimitTraces
  import opened RateLimitRefills
  import opened RateLimitAnswers

  function WithoutSweeps(es: seq<Event>): seq<Event> {
    if es == [] then []
    else if es[0].SweepEvent? then WithoutSweeps(es[1..])
    else [es[0]] + WithoutSweeps(es[1..])
  }

  // No unknown client is ever turned away for want of room.
  ghost predicate NeverCrowded(cfg: Config, m: Clients, es: seq<Event>)
    requires cfg.window > 0
    decreases |es|
  {
    es == [] ||
    ((es[0].AllowEvent? && es[0].id !in m ==> |m| < cfg.maxClients) &&
     NeverCrowded(cfg, Step(cfg, m, es[0]), es[1..]))
  }

  // Leaving the sweeps out of a run changes no answer, and not what is left to any client.
  ghost predicate Unnoticed(cfg: Config, es: seq<Event>, id: string, at: int)
    requires cfg.window > 0
  {
    && Answers(cfg, map[], es) == Answers(cfg, map[], WithoutSweeps(es))
    && Remaining(cfg, Run(cfg, map[], es), id, at) == Remaining(cfg, Run(cfg, map[], WithoutSweeps(es)), id, at)
  }

  ghost predicate Invisible(cfg: Config)
    requires cfg.window > 0
  {
    forall es, now, id, at :: Monotone(now, es) && Clock(now, es) <= at && NeverCrowded(cfg, map[], WithoutSweeps(es))
      ==> Unnoticed(cfg, es, id, at)
  }

  // --------------------------------------------------- what a sweep drops

  // The fewest whole windows a record may have been idle when it is swept.
  function FirstSwept(cfg: Config): int
    requires cfg.window > 0
  {
    (if SweepAge(cfg) < 0 then 0 else SweepAge(cfg) + 1) / cfg.window
  }

  // After q windows any count between zero and rate - 1 is refilled to the rate.
  predicate Fills(cfg: Config, q: int) { cfg.rate <= Wrap(q * cfg.rate) <= MAX - (cfg.rate - 1) }

  // Every record a sweep drops would have been refilled to the rate.
  predicate SweptFull(cfg: Config)
    requires cfg.window > 0
  {
    var first := FirstSwept(cfg);
    var gain := Wrap(first * cfg.rate);
    cfg.rate <= gain && gain + (MAX / cfg.window - first) * cfg.rate <= MAX - (cfg.rate - 1)
  }

  lemma {:induction false} WrapAdd(x: int, r: int)
    requires MIN <= Wrap(x) + r <= MAX || MIN <= Wrap(x + r) - r <= MAX
    ensures Wrap(x + r) == Wrap(x) + r
  {
    hide Wrap;
    var i := WrapOffset(x);
    var j := WrapOffset(x + r);
  }

  lemma {:induction false} FirstSweptBounds(cfg: Config)
    requires cfg.Sane()
    ensures SweepAge(cfg) < MAX
    ensures 0 <= FirstSwept(cfg) <= MAX / cfg.window
  {
    hide Wrap;
    var j := WrapOffset(cfg.window * 10);
    QuotientBounds(if SweepAge(cfg) < 0 then 0 else SweepAge(cfg) + 1, MAX, cfg.window);
  }

  lemma {:induction false} NextGain(cfg: Config, first: int, gain: int, q: int)
    requires cfg.Sane() && cfg.rate > 0 && first < q
    requires Wrap((q - 1) * cfg.rate) == gain + (q - 1 - first) * cfg.rate
    requires Fills(cfg, q) || 0 <= gain + (q - first) * cfg.rate <= MAX
    ensures Wrap(q * cfg.rate) == gain + (q - first) * cfg.rate
  {
    hide Wrap;
    assert q * cfg.rate == (q - 1) * cfg.rate + cfg.rate;
    assert (q - first) * cfg.rate == (q - 1 - first) * cfg.rate + cfg.rate;
    WrapAdd((q - 1) * cfg.rate, cfg.rate);
  }

  lemma {:induction false} Steps(rate: int, x: int, y: int)
    requires rate > 0 && 0 <= x <= y
    ensures 0 <= x * rate <= y * rate
  {
    assert x * rate >= 0 && (y - x) * rate >= 0;
  }

  // Within the idle times of swept records the refills grow in equal steps, because a
  // step is too short to jump over the counts that would not do.
  lemma {:induction false} GainsWhenFull(cfg: Config, q: int)
    requires cfg.Sane() && cfg.rate > 0 && SweptFull(cfg) && FirstSwept(cfg) <= q <= MAX / cfg.window
    ensures Wrap(q * cfg.rate) == Wrap(FirstSwept(cfg) * cfg.rate) + (q - FirstSwept(cfg)) * cfg.rate
    ensures Fills(cfg, q)
    decreases q - FirstSwept(cfg)
  {
    hide Wrap, FirstSwept;
    var first, gain, last := FirstSwept(cfg), Wrap(FirstSwept(cfg) * cfg.rate), MAX / cfg.window;
    Steps(cfg.rate, q - first, last - first);
    assert 0 <= gain + (q - first) * cfg.rate <= MAX - (cfg.rate - 1);
    hide SweptFull;
    if q > first {
      GainsWhenFull(cfg, q - 1);
      NextGain(cfg, first, gain, q);
    } else {
      assert (q - first) * cfg.rate == 0;
    }
  }

  lemma {:induction false} GainsWhenFilling(cfg: Config, q: int)
    requires cfg.Sane() && cfg.rate > 0 && FirstSwept(cfg) <= q
    requires forall p :: FirstSwept(cfg) <= p <= q ==> Fills(cfg, p)
    ensures Wrap(q * cfg.rate) == Wrap(FirstSwept(cfg) * cfg.rate) + (q - FirstSwept(cfg)) * cfg.rate
    decreases q - FirstSwept(cfg)
  {
    hide Wrap, FirstSwept, Fills;
    var first, gain := FirstSwept(cfg), Wrap(FirstSwept(cfg) * cfg.rate);
    if q > first {
      GainsWhenFilling(cfg, q - 1);
      NextGain(cfg, first, gain, q);
    } else {
      assert (q - first) * cfg.rate == 0;
    }
  }

  // `SweptFull` looks at the shortest and the longest idle time only, and that is enough.
  lemma {:induction false} SweptFullMeans(cfg: Config)
    requires cfg.Sane() && cfg.rate > 0
    ensures SweptFull(cfg) <==> forall q :: FirstSwept(cfg) <= q <= MAX / cfg.window ==> Fills(cfg, q)
  {
    hide Wrap, FirstSwept;
    FirstSweptBounds(cfg);
    var first, last := FirstSwept(cfg), MAX / cfg.window;
    if SweptFull(cfg) {
      forall q | first <= q <= last ensures Fills(cfg, q) { GainsWhenFull(cfg, q); }
    }
    if forall q :: first <= q <= last ==> Fills(cfg, q) {
      GainsWhenFilling(cfg, last);
      assert Fills(cfg, first) && Fills(cfg, last);
    }
  }

  // ------------------------------------------------ swept runs in step

  // The swept table `a` is the unswept `b` without some records idle for longer than
  // the age of a sweep.
  ghost predicate Shadows(cfg: Config, a: Clients, b: Clients, now: int) {
    && (forall id :: id in a ==> id in b && a[id] == b[id])
    && (forall id :: id in b && id !in a ==> now - b[id].lastSeen > SweepAge(cfg))
  }

  ghost predicate Faithful(cfg: Config)
    requires cfg.window > 0
  {
    cfg.Sane() && cfg.rate > 0 && SweptFull(cfg) && NeverNegative(cfg)
  }

  lemma {:induction false} SweptIsFull(cfg: Config, r: Record, now: int)
    requires cfg.window > 0 && Faithful(cfg) && Proper(cfg, r, now) && now - r.lastSeen > SweepAge(cfg)
    ensures Refill(cfg, r, now) == Record(cfg.rate, now)
    ensures Wrap(r.tokens + Refills(cfg, r, now)) >= cfg.rate
  {
    hide Wrap, SweptFull, NeverNegative, SweepAge;
    FirstSweptBounds(cfg);
    var e, least := Elapsed(now, r.lastSeen), if SweepAge(cfg) < 0 then 0 else SweepAge(cfg) + 1;
    QuotientBounds(e, MAX, cfg.window);
    QuotientBounds(least, e, cfg.window);
    GainsWhenFull(cfg, e / cfg.window);
  }

  lemma {:induction false} ShadowIsSmaller(a: Clients, b: Clients, id: string)
    requires forall k :: k in a ==> k in b
    ensures |a| <= |b|
    ensures id in b && id !in a ==> |a| < |b|
  {
    SubsetSize(a.Keys, b.Keys);
    if id in b && id !in a { SubsetSize(a.Keys, b.Keys - {id}); }
  }

  lemma {:induction false} ShadowRemaining(cfg: Config, a: Clients, b: Clients, id: string, now: int)
    requires cfg.window > 0 && Faithful(cfg) && Shadows(cfg, a, b, now) && AllProper(cfg, b, now)
    ensures Remaining(cfg, a, id, now) == Remaining(cfg, b, id, now)
  {
    hide Faithful, Refills, Wrap;
    if id in b && id !in a { SweptIsFull(cfg, b[id], now); }
  }

  lemma {:induction false} ShadowAllow(cfg: Config, a: Clients, b: Clients, id: string, now: int, at: int)
    requires cfg.window > 0 && Faithful(cfg) && Shadows(cfg, a, b, now) && AllProper(cfg, b, now) && now <= at
    requires |b| <= cfg.maxClients && (id !in b ==> |b| < cfg.maxClients)
    ensures Allow(cfg, a, id, at).1 == Allow(cfg, b, id, at).1
    ensures Shadows(cfg, Allow(cfg, a, id, at).0, Allow(cfg, b, id, at).0, at)
    ensures |Allow(cfg, b, id, at).0| <= cfg.maxClients
  {
    hide SweptFull, NeverNegative, Refill, SweepAge;
    ShadowIsSmaller(a, b, id);
    if id in b && id !in a { SweptIsFull(cfg, b[id], at); }
  }

  lemma {:induction false} ShadowSweep(cfg: Config, a: Clients, b: Clients, now: int, at: int)
    requires cfg.Sane() && Shadows(cfg, a, b, now) && AllProper(cfg, b, now) && now <= at
    ensures Shadows(cfg, Sweep(cfg, a, at), b, at)
  {
    hide SweepAge;
    FirstSweptBounds(cfg);
    forall id | id in b && id !in Sweep(cfg, a, at) ensures at - b[id].lastSeen > SweepAge(cfg) {
      if id in a { assert Stale(cfg, a[id], at); }
    }
  }

  lemma {:induction false} RunInShadow(
    cfg: Config, a: Clients, b: Clients, es: seq<Event>, now: int, id: string, at: int)
    requires cfg.window > 0 && Faithful(cfg) && Monotone(now, es) && Clock(now, es) <= at
    requires Shadows(cfg, a, b, now) && AllProper(cfg, b, now) && |b| <= cfg.maxClients
    requires NeverCrowded(cfg, b, WithoutSweeps(es))
    ensures Answers(cfg, a, es) == Answers(cfg, b, WithoutSweeps(es))
    ensures Remaining(cfg, Run(cfg, a, es), id, at) == Remaining(cfg, Run(cfg, b, WithoutSweeps(es)), id, at)
    decreases |es|
  {
    hide Allow, Sweep, SweptFull, NeverNegative, Remaining, SweepAge;
    if es == [] {
      ShadowRemaining(cfg, a, b, id, at);
    } else {
      var e := es[0];
      if e.SweepEvent? {
        ShadowSweep(cfg, a, b, now, e.at);
        RunInShadow(cfg, Sweep(cfg, a, e.at), b, es[1..], e.at, id, at);
      } else {
        ShadowAllow(cfg, a, b, e.id, now, e.at);
        StepProper(cfg, b, e, now);
        assert WithoutSweeps(es)[1..] == WithoutSweeps(es[1..]);
        RunInShadow(cfg, Step(cfg, a, e), Step(cfg, b, e), es[1..], e.at, id, at);
      }
    }
  }

  // --------------------------------------------------- the exact condition

  // Wherever sweeps stand in a run, every Allow answers what it answers without them,
  // and so does Remaining for any client afterwards, exactly when the rate is positive,
  // every record old enough for a sweep would have been refilled to the rate, and no
  // count can go below zero.
  lemma {:induction false} SweepsAreInvisibleIff(cfg: Config)
    requires cfg.Sane() && cfg.maxClients > 0
    ensures Invisible(cfg) <==> cfg.rate > 0 && SweptFull(cfg) && (Fits(cfg) || (MAX + 1) % cfg.rate == 0)
  {
    hide SweptFull, NeverNegative, Unnoticed, Fits, NeverCrowded;
    if cfg.rate > 0 { NeverNegativeIff(cfg); }
    if cfg.rate <= 0 {
      NeverRefilled(cfg);
    } else if !SweptFull(cfg) {
      ForgivenRun(cfg);
    } else if !NeverNegative(cfg) {
      ForgottenDebt(cfg);
    } else {
      forall es, now, id, at
        | Monotone(now, es) && Clock(now, es) <= at && NeverCrowded(cfg, map[], WithoutSweeps(es))
        ensures Unnoticed(cfg, es, id, at)
      {
        InStep(cfg, es, now, id, at);
      }
    }
  }

  // Without overflow in the refills or in ten windows, sweeps are invisible.
  lemma {:induction false} OrdinaryIsInvisible(cfg: Config)
    requires cfg.Sane() && cfg.rate > 0 && cfg.maxClients > 0 && Fits(cfg) && SweepSafe(cfg)
    ensures Invisible(cfg)
  {
    hide Invisible, SweptFull, SweepAge;
    SweepsAreInvisibleIff(cfg);
    SweptFullMeans(cfg);
    FirstSweptBounds(cfg);
    QuotientBounds(SweepAge(cfg) + 1, MAX, cfg.window);
    forall q | FirstSwept(cfg) <= q <= MAX / cfg.window ensures Fills(cfg, q) {
      ProductBounds(q, MAX / cfg.window, cfg.rate);
    }
  }

  lemma {:induction false} InStep(cfg: Config, es: seq<Event>, now: int, id: string, at: int)
    requires cfg.window > 0 && Faithful(cfg) && Monotone(now, es) && Clock(now, es) <= at
    requires NeverCrowded(cfg, map[], WithoutSweeps(es))
    ensures Unnoticed(cfg, es, id, at)
  {
    hide Run, Answers, Remaining, Faithful, SweepAge;
    RunInShadow(cfg, map[], map[], es, now, id, at);
  }

  // Only requests of one client.
  ghost predicate Alone(es: seq<Event>, id: string) {
    forall i :: 0 <= i < |es| ==> es[i].AllowEvent? && es[i].id == id
  }

  lemma {:induction false} AloneFits(cfg: Config, m: Clients, es: seq<Event>, id: string)
    requires cfg.window > 0 && cfg.maxClients > 0 && Alone(es, id) && m.Keys <= {id}
    ensures NeverCrowded(cfg, m, es)
    decreases |es|
  {
    if es != [] {
      hide Refill;
      if id !in m { assert m == map[]; }
      AloneFits(cfg, Step(cfg, m, es[0]), es[1..], id);
    }
  }

  // The requests of one client, and then a sweep.
  lemma {:induction false} AloneThenSweep(cfg: Config, es: seq<Event>, id: string, at: int)
    requires cfg.window > 0 && cfg.maxClients > 0 && Alone(es, id)
    ensures WithoutSweeps(es + [SweepEvent(at)]) == es && NeverCrowded(cfg, map[], es)
  {
    AloneFits(cfg, map[], es, id);
    DropSweep(es, id, at);
  }

  lemma {:induction false} DropSweep(es: seq<Event>, id: string, at: int)
    requires Alone(es, id)
    ensures WithoutSweeps(es + [SweepEvent(at)]) == es
    decreases |es|
  {
    var all := es + [SweepEvent(at)];
    if es == [] {
      assert all[1..] == [];
    } else {
      assert all[1..] == es[1..] + [SweepEvent(at)];
      DropSweep(es[1..], id, at);
    }
  }

  lemma {:induction false} ThenSweep(cfg: Config, m: Clients, es: seq<Event>, now: int, at: int)
    requires cfg.window > 0 && Monotone(now, es) && Clock(now, es) <= at
    ensures var all := es + [SweepEvent(at)];
      Run(cfg, m, all) == Sweep(cfg, Run(cfg, m, es), at) && Monotone(now, all) && Clock(now, all) == at
    decreases |es|
  {
    hide Step, Sweep;
    var all := es + [SweepEvent(at)];
    if es == [] {
      assert all[0] == SweepEvent(at) && all[1..] == [];
      assert Step(cfg, m, all[0]) == Sweep(cfg, m, at) by { StepSweep(cfg, m, at); }
      assert Run(cfg, m, all) == Run(cfg, Step(cfg, m, all[0]), []);
    } else {
      assert all[0] == es[0] && all[1..] == es[1..] + [SweepEvent(at)];
      ThenSweep(cfg, Step(cfg, m, es[0]), es[1..], es[0].at, at);
    }
  }

  lemma {:induction false} StepSweep(cfg: Config, m: Clients, at: int)
    requires cfg.window > 0
    ensures Step(cfg, m, SweepEvent(at)) == Sweep(cfg, m, at)
  {
  }

  lemma {:induction false} AnswersConcat(cfg: Config, m: Clients, es: seq<Event>, later: seq<Event>)
    requires cfg.window > 0
    ensures Answers(cfg, m, es + later) == Answers(cfg, m, es) + Answers(cfg, Run(cfg, m, es), later)
    decreases |es|
  {
    if es == [] {
      assert es + later == later;
    } else {
      hide Step, Allow;
      assert (es + later)[0] == es[0] && (es + later)[1..] == es[1..] + later;
      AnswersConcat(cfg, Step(cfg, m, es[0]), es[1..], later);
    }
  }

  lemma {:induction false} LastAnswer(cfg: Config, m: Clients, id: string, at: int)
    requires cfg.window > 0
    ensures Answers(cfg, m, [AllowEvent(id, at)]) == [Allow(cfg, m, id, at).1]
    ensures Answers(cfg, m, [SweepEvent(at), AllowEvent(id, at)]) == [Allow(cfg, Sweep(cfg, m, at), id, at).1]
  {
    hide Allow, Sweep;
    var two, last := [SweepEvent(at), AllowEvent(id, at)], [AllowEvent(id, at)];
    assert last[1..] == [] && two[1..] == last;
    StepSweep(cfg, m, at);
    assert Answers(cfg, m, two) == Answers(cfg, Sweep(cfg, m, at), last);
  }

  lemma {:induction false} DropLastSweep(es: seq<Event>, id: string, at: int)
    requires Alone(es, id)
    ensures WithoutSweeps(es + [SweepEvent(at), AllowEvent(id, at)]) == es + [AllowEvent(id, at)]
    decreases |es|
  {
    var last := [AllowEvent(id, at)];
    var all := es + [SweepEvent(at)] + last;
    assert all == es + [SweepEvent(at), AllowEvent(id, at)];
    if es == [] {
      assert all[1..] == last && last[1..] == [];
      assert WithoutSweeps(last) == last + WithoutSweeps([]);
    } else {
      assert all[0] == es[0] && all[1..] == es[1..] + [SweepEvent(at), AllowEvent(id, at)];
      DropLastSweep(es[1..], id, at);
      assert es == [es[0]] + es[1..];
    }
  }

  lemma {:induction false} ThenAsk(es: seq<Event>, now: int, id: string, at: int)
    requires Monotone(now, es) && Clock(now, es) <= at
    ensures var all := es + [SweepEvent(at), AllowEvent(id, at)]; Monotone(now, all) && Clock(now, all) == at
    decreases |es|
  {
    var all, last := es + [SweepEvent(at), AllowEvent(id, at)], [AllowEvent(id, at)];
    if es == [] {
      assert all[1..] == last && last[1..] == [];
      assert Monotone(at, last) && Clock(at, last) == at;
    } else {
      assert all[0] == es[0] && all[1..] == es[1..] + [SweepEvent(at), AllowEvent(id, at)];
      ThenAsk(es[1..], es[0].at, id, at);
    }
  }

  // With a rate below one a client out of tokens gets some only by being swept.
  lemma {:induction false} NeverRefilled(cfg: Config)
    requires cfg.Sane() && cfg.rate <= 0 && cfg.maxClients > 0
    ensures !Invisible(cfg)
  {
    hide Run, Answers, NeverCrowded, Remaining, Allow, SweepAge, Monotone, Clock;
    var n := SpendOut(cfg);
    var es := Repeat(AllowEvent("", 0), n, []);
    var m, all := Run(cfg, map[], es), es + [SweepEvent(MAX), AllowEvent("", MAX)];
    RepeatAlone("", n);
    AloneFits(cfg, map[], es + [AllowEvent("", MAX)], "");
    DropLastSweep(es, "", MAX);
    ThenAsk(es, 0, "", MAX);
    AnswersConcat(cfg, map[], es, [AllowEvent("", MAX)]);
    AnswersConcat(cfg, map[], es, [SweepEvent(MAX), AllowEvent("", MAX)]);
    LastAnswer(cfg, m, "", MAX);
    FirstSweptBounds(cfg);
    assert Sweep(cfg, m, MAX) == map[];
    EnterOne(cfg, "", MAX);
    TurnedAway(cfg, m, "", MAX);
    LastDiffers(Answers(cfg, map[], es));
    assert !Unnoticed(cfg, all, "", MAX);
  }

  lemma {:induction false} LastDiffers(s: seq<bool>)
    ensures s + [true] != s + [false]
  {
    assert (s + [true])[|s|] != (s + [false])[|s|];
  }

  lemma {:induction false} TurnedAway(cfg: Config, m: Clients, id: string, now: int)
    requires cfg.window > 0 && cfg.rate <= 0 && id in m && m[id].tokens <= 0
    ensures !Allow(cfg, m, id, now).1
  {
    hide Refills;
  }

  // A run of one client that a sweep drops before it has its tokens back is noticed.
  lemma {:induction false} DroppedEarly(cfg: Config, es: seq<Event>, id: string, at: int)
    requires cfg.Sane() && cfg.maxClients > 0 && Alone(es, id) && Monotone(0, es) && Clock(0, es) <= at
    requires var m := Run(cfg, map[], es);
      m.Keys == {id} && Stale(cfg, m[id], at) && Wrap(m[id].tokens + Refills(cfg, m[id], at)) < cfg.rate
    ensures !Invisible(cfg)
  {
    var all, m := es + [SweepEvent(at)], Run(cfg, map[], es);
    hide Run, Answers, NeverCrowded, Refills, SweepAge;
    AloneThenSweep(cfg, es, id, at);
    ThenSweep(cfg, map[], es, 0, at);
    assert Sweep(cfg, m, at) == map[];
    assert Remaining(cfg, map[], id, at) != Remaining(cfg, m, id, at);
    assert !Unnoticed(cfg, all, id, at);
  }

  // A client spends enough that its refill, when it is swept, falls short or overflows.
  lemma {:induction false} ForgivenRun(cfg: Config)
    requires cfg.Sane() && cfg.rate > 0 && cfg.maxClients > 0 && !SweptFull(cfg)
    ensures !Invisible(cfg)
  {
    hide Wrap, SweptFull, Invisible, Run, Monotone, Clock, Fills, Refills, Stale;
    SweptFullMeans(cfg);
    FirstSweptBounds(cfg);
    var q :| FirstSwept(cfg) <= q <= MAX / cfg.window && !Fills(cfg, q);
    var at := IdleFor(cfg, q);
    var n := FallsShort(cfg, q, at);
    var es := Repeat(AllowEvent("", 0), n, []);
    RepeatAlone("", n);
    SpendFirst(cfg, "", n, []);
    RunEmpty(cfg, Only("", cfg.rate - n, 0));
    RepeatClock("", n, []);
    RepeatMonotone("", n, []);
    RunsEmpty(0);
    DroppedEarly(cfg, es, "", at);
  }

  // How many tokens to spend so that the refill after q windows does not fill the bucket.
  lemma {:induction false} FallsShort(cfg: Config, q: int, now: int) returns (n: nat)
    requires cfg.Sane() && cfg.rate > 0 && !Fills(cfg, q)
    requires 0 <= now <= MAX && now > SweepAge(cfg) && now / cfg.window == q
    ensures 0 < n <= cfg.rate
    ensures var r := Record(cfg.rate - n, 0); Stale(cfg, r, now) && Wrap(r.tokens + Refills(cfg, r, now)) < cfg.rate
  {
    n := if Wrap(q * cfg.rate) < cfg.rate then cfg.rate else 1;
    assert Refills(cfg, Record(cfg.rate - n, 0), now) == Wrap(q * cfg.rate);
  }

  lemma {:induction false} RepeatAlone(id: string, n: nat)
    ensures Alone(Repeat(AllowEvent(id, 0), n, []), id)
  {
    if n > 0 { RepeatAlone(id, n - 1); }
  }

  // An idle time of q windows after which a sweep drops a record.
  lemma {:induction false} IdleFor(cfg: Config, q: int) returns (e: int)
    requires cfg.Sane() && FirstSwept(cfg) <= q <= MAX / cfg.window
    ensures 0 <= e <= MAX && e > SweepAge(cfg) && e / cfg.window == q
  {
    hide Wrap, SweepAge;
    FirstSweptBounds(cfg);
    var least := if SweepAge(cfg) < 0 then 0 else SweepAge(cfg) + 1;
    if q == FirstSwept(cfg) {
      e := least;
    } else {
      e := cfg.window * q;
      Windows(cfg.window, q);
      DivideBounds(least, cfg.window);
      ProductStep(cfg.window, q, FirstSwept(cfg));
    }
  }

  // A client below zero is swept, and gets all of its tokens back.
  lemma {:induction false} ForgottenDebt(cfg: Config)
    requires cfg.Sane() && cfg.rate > 0 && cfg.maxClients > 0 && SweptFull(cfg) && !NeverNegative(cfg)
    ensures !Invisible(cfg)
  {
    hide Wrap, SweptFull, Invisible, Run, SweepAge, Stale, Refills, NeverNegative;
    NeverNegativeIff(cfg);
    var es, id, q := NegativeRun(cfg);
    var at := cfg.window * q + MAX;
    StillBelow(cfg, Run(cfg, map[], es)[id], at);
    AloneTwo(id, es);
    DroppedEarly(cfg, es, id, at);
  }

  lemma {:induction false} AloneTwo(id: string, es: seq<Event>)
    requires |es| == 2 && es[0].AllowEvent? && es[1].AllowEvent? && es[0].id == es[1].id == id
    ensures Alone(es, id) && Clock(0, es) == es[1].at
  {
    assert Clock(0, es) == Clock(es[0].at, es[1..]) == Clock(es[1].at, es[1..][1..]);
    assert es[1..][1..] == [];
  }

  lemma {:induction false} StillBelow(cfg: Config, r: Record, now: int)
    requires cfg.Sane() && cfg.rate > 0 && SweptFull(cfg)
    requires MIN <= r.tokens <= cfg.rate - 2 - MAX - 1 && now - r.lastSeen == MAX
    ensures Stale(cfg, r, now) && Wrap(r.tokens + Refills(cfg, r, now)) < cfg.rate
  {
    hide SweptFull;
    FirstSweptBounds(cfg);
    GainsWhenFull(cfg, MAX / cfg.window);
  }
}
