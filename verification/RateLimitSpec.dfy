/**
  The per-client token bucket of internal/api, on values. Durations and token
  counts are Go's 64-bit integers: subtraction of times saturates, multiplication
  and addition wrap, and division truncates toward zero.
 */
module RateLimitSpec {
  import opened Arithmetic

  const MAX: int := 0x7fff_ffff_ffff_ffff
  const MIN: int := -0x8000_0000_0000_0000
  const TWO_64: int := 0x1_0000_0000_0000_0000

  function Wrap(x: int): (r: int)
    ensures MIN <= r <= MAX
    ensures MIN <= x <= MAX ==> r == x
    ensures MAX < x <= MAX + TWO_64 ==> r == x - TWO_64
  {
    if MIN <= x <= MAX then x else (x - MIN) % TWO_64 + MIN
  }

  // now.Sub(since)
  function Elapsed(now: int, since: int): int {
    var d := now - since;
    if d > MAX then MAX else if d < MIN then MIN else d
  }

  function Quotient(a: int, b: int): int
    requires b > 0
  {
    if a >= 0 then a / b else -((-a) / b)
  }

  datatype Record = Record(tokens: int, lastSeen: int)

  datatype Config = Config(rate: int, window: int, maxClients: nat) {
    // What the type of the fields and time.NewTicker demand.
    ghost predicate Sane() { MIN <= rate <= MAX && 0 < window <= MAX }
  }

  type Clients = map<string, Record>

  function Refills(cfg: Config, r: Record, now: int): int
    requires cfg.window > 0
  {
    Wrap(Quotient(Elapsed(now, r.lastSeen), cfg.window) * cfg.rate)
  }

  // The record after the lazy refill of Allow.
  function Refill(cfg: Config, r: Record, now: int): Record
    requires cfg.window > 0
  {
    var refills := Refills(cfg, r, now);
    if refills > 0 then
      var tokens := Wrap(r.tokens + refills);
      Record(if tokens > cfg.rate then cfg.rate else tokens, now)
    else r
  }

  function Allow(cfg: Config, m: Clients, id: string, now: int): (Clients, bool)
    requires cfg.window > 0
  {
    if id !in m then
      if |m| >= cfg.maxClients then (m, false)
      else (m[id := Record(Wrap(cfg.rate - 1), now)], true)
    else
      var r := Refill(cfg, m[id], now);
      if r.tokens <= 0 then (m[id := r], false)
      else (m[id := Record(r.tokens - 1, now)], true)
  }

  function Remaining(cfg: Config, m: Clients, id: string, now: int): int
    requires cfg.window > 0
  {
    if id !in m then cfg.rate
    else
      var tokens := Wrap(m[id].tokens + Refills(cfg, m[id], now));
      if tokens > cfg.rate then cfg.rate else tokens
  }

  function ResetTime(cfg: Config, m: Clients, id: string, now: int): int {
    if id !in m then now else m[id].lastSeen + cfg.window
  }

  // How long a record must have been idle for a sweep to drop it.
  function SweepAge(cfg: Config): int { Wrap(cfg.window * 10) }

  predicate Stale(cfg: Config, r: Record, now: int) { Elapsed(now, r.lastSeen) > SweepAge(cfg) }

  function Sweep(cfg: Config, m: Clients, now: int): Clients {
    map id | id in m && !Stale(cfg, m[id], now) :: m[id]
  }

  // ------------------------------------------------------------------ runs

  datatype Event = AllowEvent(id: string, at: int) | SweepEvent(at: int)

  function Step(cfg: Config, m: Clients, e: Event): Clients
    requires cfg.window > 0
  {
    match e
    case AllowEvent(id, at) => Allow(cfg, m, id, at).0
    case SweepEvent(at) => Sweep(cfg, m, at)
  }

  function Run(cfg: Config, m: Clients, es: seq<Event>): Clients
    requires cfg.window > 0
    decreases |es|
  {
    if es == [] then m else Run(cfg, Step(cfg, m, es[0]), es[1..])
  }

  // The clock at `now` does not go back over the events.
  ghost predicate Monotone(now: int, es: seq<Event>)
    decreases |es|
  {
    es == [] || (now <= es[0].at && Monotone(es[0].at, es[1..]))
  }

  // When requests of `id` are admitted in a run, in order.
  function Admissions(cfg: Config, m: Clients, es: seq<Event>, id: string): seq<int>
    requires cfg.window > 0
    decreases |es|
  {
    if es == [] then []
    else
      var rest := Admissions(cfg, Step(cfg, m, es[0]), es[1..], id);
      if es[0].AllowEvent? && es[0].id == id && Allow(cfg, m, id, es[0].at).1 then [es[0].at] + rest else rest
  }

  // --------------------------------------------------- integer arithmetic

  // A larger dividend has the larger quotient.
  lemma {:induction false} QuotientBounds(a: nat, m: nat, b: int)
    requires b > 0 && a <= m
    ensures 0 <= a / b <= m / b
    ensures a >= b ==> a / b >= 1
    ensures a < b ==> a / b == 0
  {
    DivideBounds(a, b);
    DivideBounds(m, b);
    FactorBounds(b, a / b, m / b);
    if a >= b { FactorBounds(b, 1, a / b); }
    if a < b { FactorBounds(b, a / b, 0); }
  }

  // A refill takes a full window.
  lemma {:induction false} RefillTakesWindow(cfg: Config, r: Record, now: int)
    requires cfg.Sane() && now >= r.lastSeen && Refills(cfg, r, now) > 0
    ensures now - r.lastSeen >= cfg.window
  {
    hide Wrap;
    QuotientBounds(Elapsed(now, r.lastSeen), MAX, cfg.window);
  }
}
