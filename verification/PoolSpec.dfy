/**
  Round-robin over the healthy members of a connection pool, on values: where a ticket
  lands, and how often each member is returned over a run of concurrent calls.
 */
module PoolSpec {
  import opened Wrappers
  import opened Arithmetic

  // Tickets are counted in 64 bits.
  const TWO_64: int := 0x1_0000_0000_0000_0000

  type Health = seq<bool>

  // Where position x falls on a ring of n.
  function Mod(x: int, n: nat): (r: nat)
    requires n > 0
    ensures r < n
  {
    x % n
  }

  // The member the scan for ticket `start` looks at in its step i.
  function Index(start: int, i: nat, n: nat): (k: nat)
    requires n > 0
    ensures k < n
  {
    Mod((start + i) % TWO_64, n)
  }

  // The scan from step i on.
  function ScanFrom(h: Health, start: int, i: nat): (r: Option<nat>)
    requires i <= |h|
    ensures r.Some? ==> r.value < |h| && h[r.value]
    decreases |h| - i
  {
    if i == |h| then None
    else if h[Index(start, i, |h|)] then Some(Index(start, i, |h|))
    else ScanFrom(h, start, i + 1)
  }

  function Land(h: Health, start: int): Option<nat> { ScanFrom(h, start, 0) }

  // No index of the scan for this ticket overflows, or overflowing does no harm.
  ghost predicate Steady(n: nat, start: int) {
    n > 0 && start >= 0 && (start + n <= TWO_64 || TWO_64 % n == 0)
  }

  // --------------------------------------------------- modular arithmetic

  lemma {:induction false} ModUnique(x: int, n: nat, q: int, r: int)
    requires n > 0 && 0 <= r < n && x == n * q + r
    ensures Mod(x, n) == r
  {
    DivideUnique(x, n, q, r);
  }

  lemma {:induction false} ModOfMod(x: int, m: nat, n: nat)
    requires n > 0 && m > 0 && m % n == 0
    ensures Mod(x % m, n) == Mod(x, n)
  {
    var a, b, c, d := x / m, m / n, (x % m) / n, (x % m) % n;
    assert x == m * a + x % m && m == n * b && x % m == n * c + d;
    assert m * a == n * (b * a);
    assert x == n * (b * a + c) + d;
    ModUnique(x, n, b * a + c, d);
  }

  // The scan of a steady ticket goes round the members from the ticket's residue on.
  lemma {:induction false} SteadyIndex(start: int, i: nat, n: nat)
    requires Steady(n, start) && i < n
    ensures Index(start, i, n) == Mod(start + i, n)
  {
    if start + n <= TWO_64 { DivideUnique(start + i, TWO_64, 0, start + i); } else { ModOfMod(start + i, TWO_64, n); }
  }

  // ------------------------------------------------------ where tickets land

  // How far behind member b the ticket starts, going forward round the ring.
  function Distance(b: int, start: int, n: nat): (d: nat)
    requires n > 0
    ensures d < n
  {
    Mod(b - start, n)
  }

  // The j-th member before b is unhealthy.
  predicate Down(h: Health, b: nat, j: int)
    requires b < |h|
  {
    !h[Mod(b - j, |h|)]
  }

  // The unhealthy members directly before b, cyclically, from the k-th on.
  function GapFrom(h: Health, b: nat, k: nat): (g: nat)
    requires b < |h| && k < |h|
    ensures k <= g < |h|
    decreases |h| - k
  {
    if k == |h| - 1 || !Down(h, b, k + 1) then k else GapFrom(h, b, k + 1)
  }

  function Gap(h: Health, b: nat): nat
    requires b < |h|
  {
    GapFrom(h, b, 0)
  }

  lemma {:induction false} GapMeans(h: Health, b: nat, k: nat)
    requires b < |h| && k < |h|
    ensures var g := GapFrom(h, b, k);
      (forall j :: k < j <= g ==> Down(h, b, j)) && (g < |h| - 1 ==> !Down(h, b, g + 1))
    decreases |h| - k
  {
    hide Down;
    if !(k == |h| - 1 || !Down(h, b, k + 1)) { GapMeans(h, b, k + 1); }
  }

  // From step i on, with d - i unhealthy members ahead of b, the scan reaches b.
  lemma {:induction false} ScanReaches(h: Health, start: int, b: nat, i: nat)
    requires b < |h| && h[b] && Steady(|h|, start) && i <= Distance(b, start, |h|) <= Gap(h, b)
    ensures ScanFrom(h, start, i) == Some(b)
    decreases |h| - i
  {
    hide Mod, Index, Distance;
    var n, d := |h|, Distance(b, start, |h|);
    SteadyIndex(start, i, n);
    StepBehind(b, start, i, n);
    if i < d {
      GapMeans(h, b, 0);
      assert Down(h, b, d - i);
      ScanReaches(h, start, b, i + 1);
    }
  }

  // Step i looks d - i members behind b.
  lemma {:induction false} StepBehind(b: nat, start: int, i: nat, n: nat)
    requires b < n
    ensures Mod(start + i, n) == Mod(b - (Distance(b, start, n) - i), n)
    ensures Distance(b, start, n) == i ==> Mod(start + i, n) == b
  {
    var d, q := Distance(b, start, n), (b - start) / n;
    assert b - start == n * q + d;
    assert b - (d - i) == (start + i) + n * q;
    var q', r' := (start + i) / n, (start + i) % n;
    assert start + i == n * q' + r';
    ModUnique(b - (d - i), n, q' + q, r');
    if d == i { ModUnique(b, n, 0, b); }
  }

  // With more than the gap to go, a healthy member comes before b.
  lemma {:induction false} ScanStopsShort(h: Health, start: int, b: nat, i: nat)
    requires b < |h| && Steady(|h|, start) && i <= Distance(b, start, |h|) - Gap(h, b) - 1
    ensures ScanFrom(h, start, i) != Some(b)
    decreases |h| - i
  {
    hide Mod, Index, Distance;
    var n, d, g := |h|, Distance(b, start, |h|), Gap(h, b);
    SteadyIndex(start, i, n);
    StepBehind(b, start, i, n);
    NotYet(b, d - i, n);
    GapMeans(h, b, 0);
    assert d - i == g + 1 ==> !Down(h, b, g + 1);
    if d - i > g + 1 { ScanStopsShort(h, start, b, i + 1); }
  }

  lemma {:induction false} NotYet(b: nat, k: int, n: nat)
    requires b < n && 0 < k < n
    ensures Mod(b - k, n) != b
  {
    if b >= k { ModUnique(b - k, n, 0, b - k); } else { ModUnique(b - k, n, -1, b - k + n); }
  }

  // A ticket lands on a healthy member exactly when it starts at it or at one of the
  // unhealthy members directly before it.
  lemma {:induction false} LandsIff(h: Health, start: int, b: nat)
    requires b < |h| && h[b] && Steady(|h|, start)
    ensures Land(h, start) == Some(b) <==> Distance(b, start, |h|) <= Gap(h, b)
  {
    if Distance(b, start, |h|) <= Gap(h, b) { ScanReaches(h, start, b, 0); } else { ScanStopsShort(h, start, b, 0); }
  }

  // ------------------------------------------------- when a member is found

  lemma {:induction false} ScanSees(h: Health, start: int, i: nat, j: nat)
    requires i <= j < |h| && h[Index(start, j, |h|)]
    ensures ScanFrom(h, start, i).Some?
    decreases |h| - i
  {
    hide Index;
    if i < j { ScanSees(h, start, i + 1, j); }
  }

  lemma {:induction false} ScanMisses(h: Health, start: int, i: nat)
    requires i <= |h| && forall j :: i <= j < |h| ==> !h[Index(start, j, |h|)]
    ensures ScanFrom(h, start, i) == None
    decreases |h| - i
  {
    hide Index;
    if i < |h| { ScanMisses(h, start, i + 1); }
  }

  ghost predicate FindsHealthy(n: nat, start: int) {
    forall h: Health :: |h| == n ==> (Land(h, start) == None <==> forall i :: 0 <= i < n ==> !h[i])
  }

  // The scan finds a healthy member whenever there is one, whatever their health,
  // exactly when its ticket is steady. A scan that runs over the end of the counter
  // starts again at member 0, and with a number of members that does not divide the
  // range of the counter it then leaves one out.
  lemma {:induction false} FindsHealthyIff(n: nat, start: int)
    requires 0 < n < TWO_64 && 0 <= start < TWO_64
    ensures FindsHealthy(n, start) <==> Steady(n, start)
  {
    if Steady(n, start) {
      forall h: Health | |h| == n ensures Land(h, start) == None <==> forall i :: 0 <= i < n ==> !h[i] {
        if b :| 0 <= b < n && h[b] {
          var d := Distance(b, start, n);
          SteadyIndex(start, d, n);
          StepBehind(b, start, d, n);
          ScanSees(h, start, 0, d);
        } else {
          ScanMisses(h, start, 0);
        }
      }
    } else {
      var x := LeftOut(n, start);
      var h := seq(n, i => i == x);
      ScanMisses(h, start, 0);
      assert |h| == n && h[x];
    }
  }

  // The member an overflowing scan never looks at.
  lemma {:induction false} LeftOut(n: nat, start: int) returns (x: nat)
    requires 0 < n < TWO_64 && 0 <= start < TWO_64 && !Steady(n, start)
    ensures x < n && forall i :: 0 <= i < n ==> Index(start, i, n) != x
  {
    hide Index;
    var a, r := TWO_64 - start, TWO_64 % n;
    var k := if r < a then r - 1 else a - 1;
    x := n - a + k;
    forall i | 0 <= i < n ensures Index(start, i, n) != x {
      if i < a { BeforeOverflow(n, start, i, k, x); } else { AfterOverflow(n, start, i); }
    }
  }

  lemma {:induction false} AfterOverflow(n: nat, start: int, i: nat)
    requires 0 < n < TWO_64 && 0 <= start < TWO_64 <= start + i && i < n
    ensures Index(start, i, n) == start + i - TWO_64
  {
    var j := start + i - TWO_64;
    DivideUnique(start + i, TWO_64, 1, j);
    ModUnique(j, n, 0, j);
  }

  lemma {:induction false} BeforeOverflow(n: nat, start: int, i: nat, k: nat, x: nat)
    requires n > 0 && x < n && x == n - (TWO_64 - start) + k
    requires 0 < TWO_64 % n + i - k < n && 0 <= start <= start + i < TWO_64
    ensures Index(start, i, n) != x
  {
    DivideUnique(start + i, TWO_64, 0, start + i);
    var q, r := TWO_64 / n, TWO_64 % n;
    var e := r + i - k;
    assert TWO_64 == n * q + r;
    assert start + i == n * (q - 1) + (x + e);
    if x + e < n { ModUnique(start + i, n, q - 1, x + e); } else {
      assert start + i == n * q + (x + e - n);
      ModUnique(start + i, n, q, x + e - n);
    }
  }

  // --------------------------------------------------------------- counting

  // How many of the tickets land on b.
  function Landings(h: Health, tickets: seq<int>, b: nat): nat {
    if tickets == [] then 0
    else (if Land(h, tickets[0]) == Some(b) then 1 else 0) + Landings(h, tickets[1..], b)
  }

  // first, first + 1, ..., up to but not including first + n
  function Range(first: int, n: nat): (r: seq<int>)
    ensures |r| == n
    decreases n
  {
    if n == 0 then [] else [first] + Range(first + 1, n - 1)
  }

  // How many of them are within g behind b.
  function Close(b: nat, first: int, m: nat, n: nat, g: nat): nat
    requires n > 0
    decreases m
  {
    if m == 0 then 0 else (if Distance(b, first, n) <= g then 1 else 0) + Close(b, first + 1, m - 1, n, g)
  }

  lemma {:induction false} DistanceSteps(b: nat, first: int, n: nat)
    requires n > 0
    ensures Distance(b, first + n, n) == Distance(b, first, n)
    ensures Distance(b, first, n) > 0 ==> Distance(b, first + 1, n) == Distance(b, first, n) - 1
    ensures Distance(b, first, n) < n - 1 ==> Distance(b, first - 1, n) == Distance(b, first, n) + 1
  {
    var d, q := Distance(b, first, n), (b - first) / n;
    assert b - first == n * q + d;
    ModUnique(b - (first + n), n, q - 1, d);
    if d > 0 { ModUnique(b - (first + 1), n, q, d - 1); }
    if d < n - 1 { ModUnique(b - (first - 1), n, q, d + 1); }
  }

  lemma {:induction false} CloseAppend(b: nat, first: int, m: nat, n: nat, g: nat)
    requires n > 0
    ensures Close(b, first, m + 1, n, g) == Close(b, first, m, n, g) + if Distance(b, first + m, n) <= g then 1 else 0
    decreases m
  {
    if m > 0 { CloseAppend(b, first + 1, m - 1, n, g); }
  }

  // The last m tickets before b, b's own included.
  lemma {:induction false} CloseRun(b: nat, first: int, m: nat, n: nat, g: nat)
    requires 0 < m <= n && Distance(b, first, n) == m - 1 && g < n
    ensures Close(b, first, m, n, g) == if m <= g + 1 then m else g + 1
    decreases m
  {
    if m > 1 {
      DistanceSteps(b, first, n);
      CloseRun(b, first + 1, m - 1, n, g);
    }
  }

  // Of any n consecutive tickets, g + 1 are within g behind b.
  lemma {:induction false} CloseRound(b: nat, first: int, n: nat, g: nat)
    requires g < n
    ensures Close(b, first, n, n, g) == g + 1
    decreases n - Distance(b, first, n)
  {
    if Distance(b, first, n) == n - 1 {
      CloseRun(b, first, n, n, g);
    } else {
      DistanceSteps(b, first, n);
      DistanceSteps(b, first - 1, n);
      CloseRound(b, first - 1, n, g);
      CloseAppend(b, first, n - 1, n, g);
    }
  }

  lemma {:induction false} LandingsAreClose(h: Health, first: int, m: nat, b: nat)
    requires b < |h| && h[b] && forall t :: first <= t < first + m ==> Steady(|h|, t)
    ensures Landings(h, Range(first, m), b) == Close(b, first, m, |h|, Gap(h, b))
    decreases m
  {
    if m > 0 {
      assert Steady(|h|, first);
      LandsIff(h, first, b);
      LandingsAreClose(h, first + 1, m - 1, b);
    }
  }

  // The order in which calls finish does not matter to the counts.
  lemma {:induction false} LandingsSplit(h: Health, a: seq<int>, c: seq<int>, b: nat)
    ensures Landings(h, a + c, b) == Landings(h, a, b) + Landings(h, c, b)
  {
    if a == [] {
      assert a + c == c;
    } else {
      assert (a + c)[1..] == a[1..] + c;
      LandingsSplit(h, a[1..], c, b);
    }
  }

  lemma {:induction false} LandingsPermute(h: Health, a: seq<int>, c: seq<int>, b: nat)
    requires multiset(a) == multiset(c)
    ensures Landings(h, a, b) == Landings(h, c, b)
    decreases |a|
  {
    SameSize(a, c);
    if a != [] {
      hide Land;
      var j := TakeOut(a, c);
      var before, after := c[..j], c[j + 1..];
      LandingsPermute(h, a[1..], before + after, b);
      LandingsSplit(h, before, after, b);
      assert c == before + ([a[0]] + after) && ([a[0]] + after)[1..] == after;
      LandingsSplit(h, before, [a[0]] + after, b);
    }
  }

  lemma {:induction false} SameSize(a: seq<int>, c: seq<int>)
    requires multiset(a) == multiset(c)
    ensures |a| == |c|
  {
    assert |multiset(a)| == |a| && |multiset(c)| == |c|;
  }

  // Where the other list has the first element, and that the rest still agrees.
  lemma {:induction false} TakeOut(a: seq<int>, c: seq<int>) returns (j: nat)
    requires a != [] && multiset(a) == multiset(c)
    ensures j < |c| && c[j] == a[0] && multiset(a[1..]) == multiset(c[..j] + c[j + 1..])
  {
    j := Find(a, c);
    MultisetSplit(a, 0);
    MultisetSplit(c, j);
    assert a[1..] == a[..0] + a[1..];
  }

  lemma {:induction false} Find(a: seq<int>, c: seq<int>) returns (j: nat)
    requires a != [] && multiset(a) == multiset(c)
    ensures j < |c| && c[j] == a[0]
  {
    assert a[0] in multiset(c);
    j :| 0 <= j < |c| && c[j] == a[0];
  }

  lemma {:induction false} MultisetSplit(s: seq<int>, j: nat)
    requires j < |s|
    ensures multiset(s[..j] + s[j + 1..]) == multiset(s) - multiset{s[j]}
  {
    assert s == s[..j] + [s[j]] + s[j + 1..];
  }

  // ------------------------------------------------------- concurrent callers

  // A caller first takes a ticket, atomically, and later finishes its scan.
  datatype Calls = Calls(current: int, pending: multiset<int>, finished: seq<int>)

  datatype CallStep = Take | Finish(ticket: int)

  function CallsStep(s: Calls, step: CallStep): Calls {
    match step
    case Take => Calls(s.current + 1, s.pending + multiset{s.current}, s.finished)
    case Finish(t) =>
      if t in s.pending then Calls(s.current, s.pending - multiset{t}, s.finished + [t]) else s
  }

  function CallsRun(s: Calls, steps: seq<CallStep>): Calls
    decreases |steps|
  {
    if steps == [] then s else CallsRun(CallsStep(s, steps[0]), steps[1..])
  }

  // Each ticket since `first` has been taken once, and is pending or finished.
  ghost predicate Accounted(s: Calls, first: int) {
    s.current >= first && multiset(s.finished) + s.pending == multiset(Range(first, s.current - first))
  }

  lemma {:induction false} RangeAppend(first: int, m: nat)
    ensures Range(first, m + 1) == Range(first, m) + [first + m]
    decreases m
  {
    if m > 0 { RangeAppend(first + 1, m - 1); }
  }

  lemma {:induction false} StepAccounted(s: Calls, step: CallStep, first: int)
    requires Accounted(s, first)
    ensures Accounted(CallsStep(s, step), first)
  {
    match step
    case Take => TakeAccounted(s, first);
    case Finish(t) => if t in s.pending { FinishAccounted(s, t, first); }
  }

  lemma {:induction false} TakeAccounted(s: Calls, first: int)
    requires Accounted(s, first)
    ensures Accounted(Calls(s.current + 1, s.pending + multiset{s.current}, s.finished), first)
  {
    hide Range;
    var m, x := s.current - first, s.current;
    var taken, done := multiset(Range(first, m)), multiset(s.finished);
    RangeAppend(first, m);
    MultisetAppend(Range(first, m), x);
    AddOne(done, s.pending, x);
    assert multiset(Range(first, m + 1)) == taken + multiset{x};
    assert done + (s.pending + multiset{x}) == taken + multiset{x};
  }

  lemma {:induction false} FinishAccounted(s: Calls, t: int, first: int)
    requires Accounted(s, first) && t in s.pending
    ensures Accounted(Calls(s.current, s.pending - multiset{t}, s.finished + [t]), first)
  {
    hide Range;
    MultisetAppend(s.finished, t);
    MoveOne(multiset(s.finished), s.pending, t);
  }

  lemma {:induction false} MultisetAppend(s: seq<int>, x: int)
    ensures multiset(s + [x]) == multiset(s) + multiset{x}
  {
  }

  lemma {:induction false} AddOne(a: multiset<int>, p: multiset<int>, x: int)
    ensures a + (p + multiset{x}) == a + p + multiset{x}
  {
  }

  lemma {:induction false} MoveOne(a: multiset<int>, p: multiset<int>, x: int)
    requires x in p
    ensures a + multiset{x} + (p - multiset{x}) == a + p
  {
  }

  lemma {:induction false} RunAccounted(s: Calls, steps: seq<CallStep>, first: int)
    requires Accounted(s, first)
    ensures Accounted(CallsRun(s, steps), first)
    decreases |steps|
  {
    if steps != [] {
      StepAccounted(s, steps[0], first);
      RunAccounted(CallsStep(s, steps[0]), steps[1..], first);
    }
  }

  // All calls have been made, n of them from ticket `first` on, and have finished.
  ghost predicate Round(n: nat, first: int, steps: seq<CallStep>) {
    var s := CallsRun(Calls(first, multiset{}, []), steps); s.current == first + n && s.pending == multiset{}
  }

  function Finished(first: int, steps: seq<CallStep>): seq<int> {
    CallsRun(Calls(first, multiset{}, []), steps).finished
  }

  // However the callers interleave, the members returned are those of the tickets in order.
  lemma {:induction false} AnyOrder(h: Health, n: nat, first: int, steps: seq<CallStep>, b: nat)
    requires Round(n, first, steps)
    ensures Landings(h, Finished(first, steps), b) == Landings(h, Range(first, n), b)
  {
    hide Landings, Range;
    RunAccounted(Calls(first, multiset{}, []), steps, first);
    assert multiset(Finished(first, steps)) == multiset(Range(first, n));
    LandingsPermute(h, Finished(first, steps), Range(first, n), b);
  }

  // The scan of no ticket of a round overflows, or overflowing does no harm.
  ghost predicate SteadyRound(n: nat, first: int)
    requires n > 0
  {
    first + 2 * n <= TWO_64 + 1 || TWO_64 % n == 0
  }

  // However the callers interleave: once n calls have been made and have finished, a
  // healthy member has been returned once for itself and once for each unhealthy
  // member directly before it.
  lemma {:induction false} RoundRobinLaw(h: Health, first: int, steps: seq<CallStep>, b: nat)
    requires b < |h| && h[b] && first >= 0 && SteadyRound(|h|, first) && Round(|h|, first, steps)
    ensures Landings(h, Finished(first, steps), b) == 1 + Gap(h, b)
  {
    AnyOrder(h, |h|, first, steps, b);
    LandingsAreClose(h, first, |h|, b);
    CloseRound(b, first, |h|, Gap(h, b));
  }

  ghost predicate Fair(n: nat, first: int) {
    forall h: Health, b: nat, steps ::
      b < |h| == n && h[b] && Round(n, first, steps) ==> Landings(h, Finished(first, steps), b) == 1 + Gap(h, b)
  }

  // That law holds of all health states, members and interleavings exactly for steady
  // rounds: an overflowing scan leaves a member out, and if that is the only healthy
  // one its ticket returns nothing.
  lemma {:induction false} RoundRobinLawIff(n: nat, first: int)
    requires 0 < n < TWO_64 && 0 <= first < TWO_64
    ensures Fair(n, first) <==> SteadyRound(n, first)
  {
    if SteadyRound(n, first) {
      forall h: Health, b: nat, steps | b < |h| == n && h[b] && Round(n, first, steps)
        ensures Landings(h, Finished(first, steps), b) == 1 + Gap(h, b)
      {
        RoundRobinLaw(h, first, steps, b);
      }
    } else {
      hide Gap, Landings, Round, Finished;
      var t := if first + n <= TWO_64 then first + n - 1 else TWO_64 - 1;
      var x := LeftOut(n, t);
      var h, steps := seq(n, i => i == x), OneByOne(first, n);
      ScanMisses(h, t, 0);
      GapOfOne(h, x);
      OneByOneRound(n, first);
      AnyOrder(h, n, first, steps, x);
      MissedOne(h, first, n, x, t);
      assert Landings(h, Finished(first, steps), x) != 1 + Gap(h, x);
    }
  }

  // Callers one after the other.
  function OneByOne(first: int, n: nat): seq<CallStep>
    decreases n
  {
    if n == 0 then [] else [Take, Finish(first)] + OneByOne(first + 1, n - 1)
  }

  lemma {:induction false} OneByOneRuns(first: int, n: nat, done: seq<int>)
    ensures var s := CallsRun(Calls(first, multiset{}, done), OneByOne(first, n));
      s.current == first + n && s.pending == multiset{}
    decreases n
  {
    if n > 0 {
      hide CallsRun;
      TakeAndFinish(first, done, OneByOne(first + 1, n - 1));
      OneByOneRuns(first + 1, n - 1, done + [first]);
    } else {
      NoCalls(Calls(first, multiset{}, done));
    }
  }

  lemma {:induction false} NoCalls(s: Calls)
    ensures CallsRun(s, []) == s
  {
  }

  lemma {:induction false} TakeAndFinish(first: int, done: seq<int>, rest: seq<CallStep>)
    ensures CallsRun(Calls(first, multiset{}, done), [Take, Finish(first)] + rest) ==
      CallsRun(Calls(first + 1, multiset{}, done + [first]), rest)
  {
    var s, taken := Calls(first, multiset{}, done), Calls(first + 1, multiset{first}, done);
    var steps := [Take, Finish(first)] + rest;
    assert steps[1..] == [Finish(first)] + rest && steps[1..][1..] == rest;
    assert CallsStep(s, Take) == taken by { assert multiset{} + multiset{first} == multiset{first}; }
    assert CallsStep(taken, Finish(first)) == Calls(first + 1, multiset{}, done + [first]);
    assert CallsRun(taken, steps[1..]) == CallsRun(Calls(first + 1, multiset{}, done + [first]), rest);
  }

  lemma {:induction false} OneByOneRound(n: nat, first: int)
    ensures Round(n, first, OneByOne(first, n))
  {
    OneByOneRuns(first, n, []);
  }

  // With one healthy member all the others are directly before it.
  lemma {:induction false} GapOfOne(h: Health, x: nat)
    requires x < |h| && forall i :: 0 <= i < |h| ==> h[i] == (i == x)
    ensures Gap(h, x) == |h| - 1
  {
    hide Mod, GapFrom;
    GapMeans(h, x, 0);
    var g := Gap(h, x);
    if g < |h| - 1 { NotYet(x, g + 1, |h|); }
  }

  lemma {:induction false} MissedOne(h: Health, first: int, m: nat, b: nat, t: int)
    requires first <= t < first + m && Land(h, t) != Some(b)
    ensures Landings(h, Range(first, m), b) < m
    decreases m
  {
    hide Land;
    if first == t {
      LandingsAtMost(h, Range(first + 1, m - 1), b);
    } else {
      MissedOne(h, first + 1, m - 1, b, t);
    }
  }

  lemma {:induction false} LandingsAtMost(h: Health, tickets: seq<int>, b: nat)
    ensures Landings(h, tickets, b) <= |tickets|
  {
    hide Land;
    if tickets != [] { LandingsAtMost(h, tickets[1..], b); }
  }
}
