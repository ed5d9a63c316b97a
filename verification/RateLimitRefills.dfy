/** What a refill does to one record of the rate limiter, overflow included. */
module RateLimitRefills {
  import opened Arithmetic
  import opened RateLimitSpec
  import opened RateLimitTraces

  // The longest idle time refills without overflow; a caller can compute this from
  // the two parameters of the limiter.
  ghost predicate Fits(cfg: Config)
    requires cfg.window > 0
  {
    cfg.rate * (MAX / cfg.window) + cfg.rate - 1 <= MAX
  }

  // A record as Allow leaves it when nothing overflows.
  ghost predicate Proper(cfg: Config, r: Record, now: int) {
    0 <= r.tokens < cfg.rate && r.lastSeen <= now
  }

  // What any run leaves behind.
  ghost predicate Modest(cfg: Config, r: Record, now: int) {
    MIN <= r.tokens < cfg.rate && r.lastSeen <= now
  }

  lemma {:induction false} ProductBounds(q: int, k: int, rate: int)
    requires 1 <= q <= k && rate >= 1
    ensures rate <= q * rate <= rate * k
  {
    assert (q - 1) * rate >= 0;
    assert (k - q) * rate >= 0;
  }

  // A record idle for a window or more is as good as a full bucket.
  lemma {:induction false} IdleIsFull(cfg: Config, r: Record, now: int)
    requires cfg.Sane() && cfg.rate > 0 && Fits(cfg) && Proper(cfg, r, now)
    requires now - r.lastSeen >= cfg.window
    ensures Refill(cfg, r, now) == Record(cfg.rate, now)
    ensures Wrap(r.tokens + Refills(cfg, r, now)) >= cfg.rate
  {
    hide Wrap;
    var e := Elapsed(now, r.lastSeen);
    QuotientBounds(e, MAX, cfg.window);
    ProductBounds(e / cfg.window, MAX / cfg.window, cfg.rate);
  }

  ghost predicate AlwaysFull(cfg: Config)
    requires cfg.window > 0
  {
    forall r, now :: Proper(cfg, r, now) && now - r.lastSeen >= cfg.window ==> Refill(cfg, r, now).tokens == cfg.rate
  }

  // `Fits` is exact: when it fails, some idle record is not filled by the refill that
  // should have filled it, because the refill or the sum overflows.
  lemma {:induction false} FitsExactly(cfg: Config)
    requires cfg.Sane() && cfg.rate > 0
    ensures Fits(cfg) <==> AlwaysFull(cfg)
  {
    if Fits(cfg) {
      forall r, now | Proper(cfg, r, now) && now - r.lastSeen >= cfg.window
        ensures Refill(cfg, r, now).tokens == cfg.rate
      {
        IdleIsFull(cfg, r, now);
      }
    } else {
      var q := Overflowing(cfg.rate, MAX / cfg.window);
      var r := Record(cfg.rate - 1, 0);
      RefillsAfter(cfg, r, q);
      assert Proper(cfg, r, cfg.window * q) && Refill(cfg, r, cfg.window * q).tokens != cfg.rate;
    }
  }

  // q windows, when that many fit the range of a duration.
  lemma {:induction false} Windows(w: int, q: nat)
    requires 0 < w && 1 <= q <= MAX / w
    ensures w <= w * q <= MAX && (w * q) / w == q
  {
    DivideBounds(MAX, w);
    if q < MAX / w { ProductStep(w, MAX / w, q); }
    if q > 1 { ProductStep(w, q, 1); }
    DivideUnique(w * q, w, q, 0);
  }

  lemma {:induction false} RefillsAfter(cfg: Config, r: Record, q: nat)
    requires cfg.Sane() && r.lastSeen == 0 && 1 <= q <= MAX / cfg.window
    ensures cfg.window <= cfg.window * q <= MAX && Refills(cfg, r, cfg.window * q) == Wrap(cfg.rate * q)
  {
    hide Wrap;
    Windows(cfg.window, q);
    assert q * cfg.rate == cfg.rate * q;
  }

  // The least number of windows whose refill overflows a nearly full bucket.
  lemma {:induction false} Overflowing(rate: int, k: nat) returns (q: nat)
    requires 0 < rate <= MAX && rate * k + rate - 1 > MAX
    ensures 1 <= q <= k && rate * q <= MAX + 1 && rate * q + rate - 1 > MAX
    decreases k
  {
    if k == 0 {
      assert false;
    } else {
      assert rate * k == rate * (k - 1) + rate;
      if rate * (k - 1) + rate - 1 > MAX { q := Overflowing(rate, k - 1); } else { q := k; }
    }
  }

  // ----------------------------------------------- counts below zero

  ghost predicate NeverNegative(cfg: Config)
    requires cfg.window > 0
  {
    forall r, now :: Proper(cfg, r, now) ==> Refill(cfg, r, now).tokens >= 0
  }

  // An overflow leaves some client with a negative count exactly when the refill does
  // not fit and the rate does not divide 2^63; if it divides, a product that overflows is
  // never positive just short of the limit, so the refill is skipped instead.
  lemma {:induction false} NeverNegativeIff(cfg: Config)
    requires cfg.Sane() && cfg.rate > 0
    ensures NeverNegative(cfg) <==> Fits(cfg) || (MAX + 1) % cfg.rate == 0
  {
    if Fits(cfg) || (MAX + 1) % cfg.rate == 0 {
      forall r, now | Proper(cfg, r, now) ensures Refill(cfg, r, now).tokens >= 0 {
        if now - r.lastSeen < cfg.window {
          FreshRecord(cfg, r, now);
        } else if Fits(cfg) {
          IdleIsFull(cfg, r, now);
        } else {
          DividingRate(cfg, r, now);
        }
      }
    } else {
      var q := NegativeAfter(cfg);
      assert Proper(cfg, Record(cfg.rate - 1, 0), cfg.window * q);
    }
  }

  lemma {:induction false} WrapOffset(x: int) returns (j: int)
    ensures Wrap(x) == x - TWO_64 * j
  {
    if MIN <= x <= MAX {
      j := 0;
    } else {
      j := (x - MIN) / TWO_64;
      assert x - MIN == TWO_64 * j + (x - MIN) % TWO_64;
    }
  }

  lemma {:induction false} DividingRate(cfg: Config, r: Record, now: int)
    requires cfg.Sane() && cfg.rate > 0 && (MAX + 1) % cfg.rate == 0 && Proper(cfg, r, now)
    ensures Refill(cfg, r, now).tokens >= 0
  {
    var e := Elapsed(now, r.lastSeen);
    var q, c := Quotient(e, cfg.window), (MAX + 1) / cfg.rate;
    var j := WrapOffset(q * cfg.rate);
    var refills, y := Refills(cfg, r, now), q - 2 * c * j;
    assert MAX + 1 == cfg.rate * c;
    Multiple(cfg.rate, q, c, j, refills, y);
    if refills > 0 {
      hide Wrap;
      if y >= c { MultipleAtLeast(cfg.rate, y, c); assert false; }
      MultipleAtLeast(cfg.rate, c - 1, y);
      assert cfg.rate * (c - 1) == cfg.rate * c - cfg.rate;
    }
  }

  lemma {:induction false} Multiple(rate: int, q: int, c: int, j: int, refills: int, y: int)
    requires MAX + 1 == rate * c && refills == q * rate - TWO_64 * j && y == q - 2 * c * j
    ensures refills == rate * y
  {
    assert TWO_64 * j == 2 * (rate * c) * j == rate * (2 * c * j);
    assert rate * y == rate * q - rate * (2 * c * j);
  }

  lemma {:induction false} MultipleAtLeast(rate: int, a: int, b: int)
    requires rate > 0 && a >= b
    ensures rate * a >= rate * b
  {
    assert rate * (a - b) >= 0;
  }

  // How long a client with all but one of its tokens must be idle to end up below zero.
  lemma {:induction false} NegativeAfter(cfg: Config) returns (q: nat)
    requires cfg.Sane() && cfg.rate > 0 && !Fits(cfg) && (MAX + 1) % cfg.rate != 0
    ensures 1 <= q <= MAX / cfg.window && cfg.window <= cfg.window * q <= MAX
    ensures var r := Refill(cfg, Record(cfg.rate - 1, 0), cfg.window * q);
      MIN <= r.tokens <= cfg.rate - 2 - MAX - 1 && r.tokens < 0 && r.lastSeen == cfg.window * q
  {
    q := Overflowing(cfg.rate, MAX / cfg.window);
    RefillsAfter(cfg, Record(cfg.rate - 1, 0), q);
    if cfg.rate * q == MAX + 1 {
      DivideUnique(MAX + 1, cfg.rate, q, 0);
      assert false;
    }
  }
}
