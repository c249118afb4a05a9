/**
 The per-subnet limiter of src/attestation.rs as transitions on its table, beside a naive limiter that
 remembers every admission, and the proof that both give the same verdicts.
 */
module RateLimit {
  import opened Bytes

  type Octets4 = s: seq<byte> | |s| == 4 witness Zeros(4)
  type Octets16 = s: seq<byte> | |s| == 16 witness Zeros(16)

  datatype IpAddr = Ipv4(v4: Octets4) | Ipv6(v6: Octets16)

  datatype Subnet = V4(prefix: seq<byte>) | V6(prefix: seq<byte>)

  /** /24 for IPv4, /64 for IPv6. */
  function SubnetOf(ip: IpAddr): Subnet {
    match ip
    case Ipv4(octets) => V4(octets[..3])
    case Ipv6(octets) => V6(octets[..8])
  }

  /** Addresses share a limit exactly when they agree in their first 24 or 64 bits; the two families never do. */
  lemma SubnetExact(a: IpAddr, b: IpAddr)
    ensures SubnetOf(a) == SubnetOf(b) <==>
            match (a, b)
            case (Ipv4(x), Ipv4(y)) => x[0] == y[0] && x[1] == y[1] && x[2] == y[2]
            case (Ipv6(x), Ipv6(y)) => forall i | 0 <= i < 8 :: x[i] == y[i]
            case _ => false
  {
    match (a, b)
    case (Ipv4(x), Ipv4(y)) =>
      assert x[..3] == y[..3] <==> x[0] == y[0] && x[1] == y[1] && x[2] == y[2];
    case (Ipv6(x), Ipv6(y)) =>
      assert x[..8] == y[..8] ==> forall i | 0 <= i < 8 :: x[..8][i] == y[..8][i];
    case _ =>
  }

  datatype Config = Config(maxRequests: nat, window: nat, maxConcurrent: nat)

  datatype SubnetState = SubnetState(requests: seq<nat>, active: nat)

  type Table = map<Subnet, SubnetState>

  datatype Verdict = Admitted | RateLimitExceeded | ConcurrencyExceeded

  const GC_THRESHOLD := 10000

  // ----- The limiter -----

  /** `duration_since` saturates at zero. */
  function Age(now: nat, t: nat): nat {
    if t <= now then now - t else 0
  }

  function PruneFront(requests: seq<nat>, now: nat, window: nat): seq<nat> {
    if requests != [] && Age(now, requests[0]) > window then PruneFront(requests[1..], now, window) else requests
  }

  function Pruned(state: SubnetState, now: nat, window: nat): SubnetState {
    state.(requests := PruneFront(state.requests, now, window))
  }

  predicate Retained(state: SubnetState) {
    state.active > 0 || state.requests != []
  }

  /** Garbage collection: every deque is pruned, and entries without permits and requests go. */
  function Collected(table: Table, now: nat, window: nat): Table {
    map s | s in table && Retained(Pruned(table[s], now, window)) :: Pruned(table[s], now, window)
  }

  function Swept(table: Table, now: nat, window: nat, collect: bool): Table {
    if collect then Collected(table, now, window) else table
  }

  function Entry(table: Table, s: Subnet): SubnetState {
    if s in table then table[s] else SubnetState([], 0)
  }

  function Judge(cfg: Config, state: SubnetState): Verdict {
    if |state.requests| >= cfg.maxRequests then RateLimitExceeded
    else if state.active >= cfg.maxConcurrent then ConcurrencyExceeded
    else Admitted
  }

  /** An admission is noted in the deque and in the counter. */
  function Noted(state: SubnetState, now: nat, verdict: Verdict): SubnetState {
    if verdict.Admitted? then SubnetState(state.requests + [now], state.active + 1) else state
  }

  /** What an acquire does to the table, and its verdict. */
  function AcquireStep(cfg: Config, table: Table, s: Subnet, now: nat, collect: bool): (Table, Verdict) {
    var swept := Swept(table, now, cfg.window, collect);
    var state := Pruned(Entry(swept, s), now, cfg.window);
    var verdict := Judge(cfg, state);
    (swept[s := Noted(state, now, verdict)], verdict)
  }

  /** What dropping a permit does to the table. */
  function ReleaseStep(table: Table, s: Subnet): Table {
    if s !in table then table
    else
      var active := table[s].active;
      table[s := table[s].(active := if active > 0 then active - 1 else 0)]
  }

  // ----- The naive limiter -----

  datatype Admission = Admission(subnet: Subnet, time: nat)
  datatype Naive = Naive(history: seq<Admission>, live: multiset<Subnet>)

  /** The admission times of one subnet, oldest first. */
  function TimesOf(history: seq<Admission>, s: Subnet): seq<nat> {
    if history == [] then []
    else
      var last := history[|history| - 1];
      TimesOf(history[..|history| - 1], s) + if last.subnet == s then [last.time] else []
  }

  /** How many of the times lie in the closed interval. */
  function CountIn(times: seq<nat>, lo: int, hi: int): (n: nat)
    ensures n <= |times|
  {
    if times == [] then 0
    else
      var k := |times| - 1;
      CountIn(times[..k], lo, hi) + if lo <= times[k] <= hi then 1 else 0
  }

  function NaiveVerdict(cfg: Config, n: Naive, s: Subnet, now: nat): Verdict {
    if CountIn(TimesOf(n.history, s), now - cfg.window, now) >= cfg.maxRequests then RateLimitExceeded
    else if n.live[s] >= cfg.maxConcurrent then ConcurrencyExceeded
    else Admitted
  }

  function NaiveAcquire(cfg: Config, n: Naive, s: Subnet, now: nat): Naive {
    if NaiveVerdict(cfg, n, s, now).Admitted? then
      Naive(n.history + [Admission(s, now)], n.live + multiset{s})
    else n
  }

  function NaiveRelease(n: Naive, s: Subnet): Naive {
    n.(live := n.live - multiset{s})
  }

  /** The positions of the admissions of a subnet at times from lo to hi, both included. */
  function AdmissionsIn(history: seq<Admission>, s: Subnet, lo: int, hi: int): set<nat> {
    set i: nat | i < |history| && history[i].subnet == s && lo <= history[i].time <= hi
  }

  lemma {:induction false} CountIsCardinality(history: seq<Admission>, s: Subnet, lo: int, hi: int)
    ensures CountIn(TimesOf(history, s), lo, hi) == |AdmissionsIn(history, s, lo, hi)|
  {
    if history == [] {
      assert AdmissionsIn(history, s, lo, hi) == {};
    } else {
      hide CountIn, AdmissionsIn;
      var k := |history| - 1;
      CountIsCardinality(history[..k], s, lo, hi);
      AdmissionsInLast(history, s, lo, hi);
      CountSnoc(TimesOf(history[..k], s), history[k].time, lo, hi);
      assert TimesOf(history[..k], s) + [] == TimesOf(history[..k], s);
    }
  }

  lemma AdmissionsInLast(history: seq<Admission>, s: Subnet, lo: int, hi: int)
    requires history != []
    ensures
      var k := |history| - 1;
      |AdmissionsIn(history, s, lo, hi)| == |AdmissionsIn(history[..k], s, lo, hi)|
      + if history[k].subnet == s && lo <= history[k].time <= hi then 1 else 0
  {
    var k := |history| - 1;
    var all, before := AdmissionsIn(history, s, lo, hi), AdmissionsIn(history[..k], s, lo, hi);
    forall i: nat
      ensures i in all - {k} <==> i in before
    {
      if i < k {
        assert history[..k][i] == history[i];
      }
    }
    assert all - {k} == before;
    hide AdmissionsIn;
    if k in all {
      assert all == before + {k};
    } else {
      assert all == before;
    }
  }

  lemma CountSnoc(times: seq<nat>, t: nat, lo: int, hi: int)
    ensures CountIn(times + [t], lo, hi) == CountIn(times, lo, hi) + if lo <= t <= hi then 1 else 0
  {
    assert (times + [t])[..|times|] == times;
  }

  // ----- The table represents the history -----

  /** The deque is the history without a prefix of requests that have left the window for good. */
  ghost predicate Represents(requests: seq<nat>, times: seq<nat>, clock: nat, window: nat) {
    && Sorted(times)
    && (forall i | 0 <= i < |times| :: times[i] <= clock)
    && |requests| <= |times|
    && requests == times[|times| - |requests|..]
    && (forall i | 0 <= i < |times| - |requests| :: clock - times[i] > window)
  }

  ghost predicate RepresentsAt(cfg: Config, table: Table, n: Naive, clock: nat, s: Subnet) {
    && Represents(Entry(table, s).requests, TimesOf(n.history, s), clock, cfg.window)
    && Entry(table, s).active == n.live[s] <= cfg.maxConcurrent
  }

  ghost predicate Refines(cfg: Config, table: Table, n: Naive, clock: nat) {
    forall s :: RepresentsAt(cfg, table, n, clock, s)
  }

  lemma {:induction false} CountNone(times: seq<nat>, lo: int, hi: int)
    requires forall i | 0 <= i < |times| :: times[i] < lo
    ensures CountIn(times, lo, hi) == 0
  {
    if times != [] {
      CountNone(times[..|times| - 1], lo, hi);
    }
  }

  /** In a sorted history whose first k times are too old and whose k-th is not, the recent ones are the rest. */
  lemma {:induction false} CountSuffix(times: seq<nat>, k: nat, lo: int, hi: int)
    requires Sorted(times) && k <= |times|
    requires forall i | 0 <= i < |times| :: times[i] <= hi && (times[i] < lo <==> i < k)
    ensures CountIn(times, lo, hi) == |times| - k
  {
    if k == |times| {
      CountNone(times, lo, hi);
    } else {
      CountSuffix(times[..|times| - 1], k, lo, hi);
    }
  }

  /** Pruning the front keeps the representation and leaves exactly the requests in the window. */
  lemma {:induction false} PruneFrontFilters(requests: seq<nat>, times: seq<nat>, clock: nat, now: nat, window: nat)
    requires Represents(requests, times, clock, window) && clock <= now
    ensures Represents(PruneFront(requests, now, window), times, now, window)
    ensures |PruneFront(requests, now, window)| == CountIn(times, now - window, now)
    decreases |requests|
  {
    var k := |times| - |requests|;
    if requests != [] && Age(now, requests[0]) > window {
      assert requests[0] == times[k];
      assert Represents(requests[1..], times, now, window);
      PruneFrontFilters(requests[1..], times, now, now, window);
    } else {
      assert requests != [] ==> requests[0] == times[k];
      CountSuffix(times, k, now - window, now);
    }
  }

  /** A request that carries a later time than now has not expired, however short the window. */
  lemma LaterIsKept(requests: seq<nat>, now: nat, window: nat)
    requires requests != [] && now <= requests[0]
    ensures PruneFront(requests, now, window) == requests
  {
  }

  /** A drop touches no other entry, adds none, and stops at zero. */
  lemma ReleaseAlone(table: Table, s: Subnet)
    ensures ReleaseStep(table, s).Keys == table.Keys
    ensures forall x | x in table && x != s :: ReleaseStep(table, s)[x] == table[x]
    ensures s in table ==>
              && ReleaseStep(table, s)[s].requests == table[s].requests
              && ReleaseStep(table, s)[s].active == if table[s].active == 0 then 0 else table[s].active - 1
  {
  }

  lemma PrunedRepresents(cfg: Config, table: Table, n: Naive, clock: nat, now: nat, s: Subnet)
    requires RepresentsAt(cfg, table, n, clock, s) && clock <= now
    ensures
      var state := Pruned(Entry(table, s), now, cfg.window);
      && Represents(state.requests, TimesOf(n.history, s), now, cfg.window)
      && Judge(cfg, state) == NaiveVerdict(cfg, n, s, now)
  {
    PruneFrontFilters(Entry(table, s).requests, TimesOf(n.history, s), clock, now, cfg.window);
  }

  lemma LaterRepresents(requests: seq<nat>, times: seq<nat>, clock: nat, now: nat, window: nat)
    requires Represents(requests, times, clock, window) && clock <= now
    ensures Represents(requests, times, now, window)
  {
  }

  /** A collected entry still represents its subnet: what is gone had nothing left to say. */
  lemma CollectedRepresents(cfg: Config, table: Table, n: Naive, clock: nat, now: nat, s: Subnet)
    requires RepresentsAt(cfg, table, n, clock, s) && clock <= now
    ensures RepresentsAt(cfg, Collected(table, now, cfg.window), n, now, s)
  {
    PrunedRepresents(cfg, table, n, clock, now, s);
  }

  lemma SweepRefines(cfg: Config, table: Table, n: Naive, clock: nat, now: nat, collect: bool, s: Subnet)
    requires RepresentsAt(cfg, table, n, clock, s) && clock <= now
    ensures RepresentsAt(cfg, Swept(table, now, cfg.window, collect), n, now, s)
  {
    hide Represents, Collected;
    if collect {
      CollectedRepresents(cfg, table, n, clock, now, s);
    } else {
      LaterRepresents(Entry(table, s).requests, TimesOf(n.history, s), clock, now, cfg.window);
    }
  }

  lemma TimesOfSnoc(history: seq<Admission>, a: Admission, s: Subnet)
    ensures TimesOf(history + [a], s) == TimesOf(history, s) + if a.subnet == s then [a.time] else []
  {
    assert (history + [a])[..|history|] == history;
  }

  /** The entry of the requesting subnet goes on representing it. */
  lemma NotedRepresents(cfg: Config, table: Table, n: Naive, now: nat, s: Subnet)
    requires RepresentsAt(cfg, table, n, now, s)
    ensures
      var state := Pruned(Entry(table, s), now, cfg.window);
      var next := Noted(state, now, Judge(cfg, state));
      var naive := NaiveAcquire(cfg, n, s, now);
      && Judge(cfg, state) == NaiveVerdict(cfg, n, s, now)
      && Represents(next.requests, TimesOf(naive.history, s), now, cfg.window)
      && next.active == naive.live[s] <= cfg.maxConcurrent
  {
    hide PruneFront, CountIn, TimesOf;
    PrunedRepresents(cfg, table, n, now, now, s);
    TimesOfSnoc(n.history, Admission(s, now), s);
  }

  /** The other subnets do not notice. */
  lemma OthersRepresented(cfg: Config, n: Naive, now: nat, s: Subnet, x: Subnet)
    requires x != s
    ensures TimesOf(NaiveAcquire(cfg, n, s, now).history, x) == TimesOf(n.history, x)
    ensures NaiveAcquire(cfg, n, s, now).live[x] == n.live[x]
  {
    hide NaiveVerdict;
    TimesOfSnoc(n.history, Admission(s, now), x);
  }

  /** An acquire gives the naive verdict, with or without a collection, and refines the naive step. */
  lemma AcquireRefines(cfg: Config, table: Table, n: Naive, clock: nat, s: Subnet, now: nat, collect: bool)
    requires Refines(cfg, table, n, clock) && clock <= now
    ensures AcquireStep(cfg, table, s, now, collect).1 == NaiveVerdict(cfg, n, s, now)
    ensures Refines(cfg, AcquireStep(cfg, table, s, now, collect).0, NaiveAcquire(cfg, n, s, now), now)
  {
    hide Swept, Pruned, Noted, Judge, NaiveVerdict, NaiveAcquire, TimesOf, Represents;
    var swept := Swept(table, now, cfg.window, collect);
    assert RepresentsAt(cfg, table, n, clock, s);
    SweepRefines(cfg, table, n, clock, now, collect, s);
    NotedRepresents(cfg, swept, n, now, s);
    forall x
      ensures RepresentsAt(cfg, AcquireStep(cfg, table, s, now, collect).0, NaiveAcquire(cfg, n, s, now), now, x)
    {
      if x != s {
        assert RepresentsAt(cfg, table, n, clock, x);
        SweepRefines(cfg, table, n, clock, now, collect, x);
        OthersRepresented(cfg, n, now, s, x);
      }
    }
  }

  lemma ReleaseRefines(cfg: Config, table: Table, n: Naive, clock: nat, s: Subnet)
    requires Refines(cfg, table, n, clock) && s in n.live
    ensures s in table && table[s].active > 0
    ensures Refines(cfg, ReleaseStep(table, s), NaiveRelease(n, s), clock)
  {
    hide TimesOf, Represents;
    assert RepresentsAt(cfg, table, n, clock, s);
    forall x
      ensures RepresentsAt(cfg, ReleaseStep(table, s), NaiveRelease(n, s), clock, x)
    {
      assert RepresentsAt(cfg, table, n, clock, x);
    }
  }

  lemma EmptyRefines(cfg: Config)
    ensures Refines(cfg, map[], Naive([], multiset{}), 0)
  {
  }

  /** Collection drops an entry exactly when it has neither a permit nor a request in the window. */
  lemma CollectionKeeps(cfg: Config, table: Table, n: Naive, clock: nat, now: nat, s: Subnet)
    requires Refines(cfg, table, n, clock) && clock <= now && s in table
    ensures s in Collected(table, now, cfg.window) <==>
            n.live[s] > 0 || CountIn(TimesOf(n.history, s), now - cfg.window, now) > 0
  {
    hide PruneFront, CountIn, TimesOf;
    assert RepresentsAt(cfg, table, n, clock, s);
    PruneFrontFilters(table[s].requests, TimesOf(n.history, s), clock, now, cfg.window);
  }

  // ----- Whole runs -----

  datatype Event = Acquire(subnet: Subnet, now: nat, collect: bool) | Release(subnet: Subnet)

  /** Time never runs backwards, and only permits that were handed out are dropped. */
  predicate ValidRun(cfg: Config, n: Naive, clock: nat, events: seq<Event>)
    decreases |events|
  {
    events == [] ||
    match events[0]
    case Acquire(s, now, _) => clock <= now && ValidRun(cfg, NaiveAcquire(cfg, n, s, now), now, events[1..])
    case Release(s) => s in n.live && ValidRun(cfg, NaiveRelease(n, s), clock, events[1..])
  }

  function Verdicts(cfg: Config, table: Table, events: seq<Event>): seq<Verdict>
    decreases |events|
  {
    if events == [] then []
    else
      match events[0]
      case Acquire(s, now, collect) =>
        var (next, verdict) := AcquireStep(cfg, table, s, now, collect);
        [verdict] + Verdicts(cfg, next, events[1..])
      case Release(s) => Verdicts(cfg, ReleaseStep(table, s), events[1..])
  }

  function NaiveVerdicts(cfg: Config, n: Naive, events: seq<Event>): seq<Verdict>
    decreases |events|
  {
    if events == [] then []
    else
      match events[0]
      case Acquire(s, now, _) =>
        [NaiveVerdict(cfg, n, s, now)] + NaiveVerdicts(cfg, NaiveAcquire(cfg, n, s, now), events[1..])
      case Release(s) => NaiveVerdicts(cfg, NaiveRelease(n, s), events[1..])
  }

  /** Over every run, and wherever collections happen, the limiter agrees with the naive one. */
  lemma {:induction false} RunRefines(cfg: Config, table: Table, n: Naive, clock: nat, events: seq<Event>)
    requires Refines(cfg, table, n, clock) && ValidRun(cfg, n, clock, events)
    ensures Verdicts(cfg, table, events) == NaiveVerdicts(cfg, n, events)
    decreases |events|
  {
    hide AcquireStep, ReleaseStep, NaiveVerdict, NaiveAcquire, NaiveRelease, Refines;
    if events != [] {
      match events[0]
      case Acquire(s, now, collect) =>
        AcquireRefines(cfg, table, n, clock, s, now, collect);
        RunRefines(cfg, AcquireStep(cfg, table, s, now, collect).0, NaiveAcquire(cfg, n, s, now), now, events[1..]);
      case Release(s) =>
        ReleaseRefines(cfg, table, n, clock, s);
        RunRefines(cfg, ReleaseStep(table, s), NaiveRelease(n, s), clock, events[1..]);
    }
  }

  /** The same requests and releases at the same times, with collections at other points. */
  predicate SameButCollections(a: seq<Event>, b: seq<Event>) {
    && |a| == |b|
    && forall i | 0 <= i < |a| ::
      (a[i].Acquire? ==> b[i] == a[i].(collect := b[i].Acquire? && b[i].collect)) && (a[i].Release? ==> b[i] == a[i])
  }

  lemma {:induction false} NaiveIgnoresCollections(cfg: Config, n: Naive, clock: nat, a: seq<Event>, b: seq<Event>)
    requires SameButCollections(a, b) && ValidRun(cfg, n, clock, a)
    ensures ValidRun(cfg, n, clock, b) && NaiveVerdicts(cfg, n, a) == NaiveVerdicts(cfg, n, b)
    decreases |a|
  {
    if a != [] {
      match a[0]
      case Acquire(s, now, _) => NaiveIgnoresCollections(cfg, NaiveAcquire(cfg, n, s, now), now, a[1..], b[1..]);
      case Release(s) => NaiveIgnoresCollections(cfg, NaiveRelease(n, s), clock, a[1..], b[1..]);
    }
  }

  /** Garbage collection is invisible: it can move to any subset of the acquires without changing a verdict. */
  lemma CollectionInvisible(cfg: Config, table: Table, n: Naive, clock: nat, a: seq<Event>, b: seq<Event>)
    requires Refines(cfg, table, n, clock) && ValidRun(cfg, n, clock, a) && SameButCollections(a, b)
    ensures Verdicts(cfg, table, a) == Verdicts(cfg, table, b)
  {
    hide Refines;
    NaiveIgnoresCollections(cfg, n, clock, a, b);
    RunRefines(cfg, table, n, clock, a);
    RunRefines(cfg, table, n, clock, b);
  }

  // ----- The rate bound -----

  /** The admissions of one subnet in the closed interval of the window's length that starts at lo. */
  function Burst(cfg: Config, n: Naive, s: Subnet, lo: int): nat {
    CountIn(TimesOf(n.history, s), lo, lo + cfg.window)
  }

  /** No such interval holds more than maxRequests admissions. */
  ghost predicate RateBounded(cfg: Config, n: Naive) {
    forall s, lo: int :: Burst(cfg, n, s, lo) <= cfg.maxRequests
  }

  predicate HistoryUpTo(n: Naive, clock: nat) {
    forall i | 0 <= i < |n.history| :: n.history[i].time <= clock
  }

  lemma {:induction false} CountWiden(times: seq<nat>, lo: int, hi: int, lo': int, hi': int)
    requires forall i | 0 <= i < |times| && lo <= times[i] <= hi :: lo' <= times[i] <= hi'
    ensures CountIn(times, lo, hi) <= CountIn(times, lo', hi')
  {
    if times != [] {
      CountWiden(times[..|times| - 1], lo, hi, lo', hi');
    }
  }

  lemma {:induction false} TimesUpTo(history: seq<Admission>, s: Subnet, clock: nat)
    requires forall i | 0 <= i < |history| :: history[i].time <= clock
    ensures forall i | 0 <= i < |TimesOf(history, s)| :: TimesOf(history, s)[i] <= clock
  {
    if history != [] {
      TimesUpTo(history[..|history| - 1], s, clock);
    }
  }

  lemma AdmissionKeepsBurst(times: seq<nat>, now: nat, lo: int, window: nat, max: nat)
    requires forall i | 0 <= i < |times| :: times[i] <= now
    requires CountIn(times, lo, lo + window) <= max && CountIn(times, now - window, now) < max
    ensures CountIn(times + [now], lo, lo + window) <= max
  {
    assert (times + [now])[..|times|] == times;
    if lo <= now <= lo + window {
      CountWiden(times, lo, lo + window, now - window, now);
    }
  }

  lemma AcquireKeepsRate(cfg: Config, n: Naive, s: Subnet, now: nat)
    requires RateBounded(cfg, n) && HistoryUpTo(n, now)
    ensures RateBounded(cfg, NaiveAcquire(cfg, n, s, now)) && HistoryUpTo(NaiveAcquire(cfg, n, s, now), now)
  {
    hide TimesOf, CountIn;
    var naive := NaiveAcquire(cfg, n, s, now);
    forall x, lo: int
      ensures Burst(cfg, naive, x, lo) <= cfg.maxRequests
    {
      assert Burst(cfg, n, x, lo) <= cfg.maxRequests;
      if x != s {
        OthersRepresented(cfg, n, now, s, x);
      } else if NaiveVerdict(cfg, n, s, now).Admitted? {
        TimesOfSnoc(n.history, Admission(s, now), s);
        TimesUpTo(n.history, s, now);
        AdmissionKeepsBurst(TimesOf(n.history, s), now, lo, cfg.window, cfg.maxRequests);
      }
    }
  }
}
