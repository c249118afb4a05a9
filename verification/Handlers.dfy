/**
 All interleavings of the connection handlers of src/attestation.rs: each one binds a subnet permit and
 perhaps a hardware permit, and drops what it holds in reverse order on whatever path it exits.
 */
module Handlers {
  import opened RateLimit
  import opened Limiter

  const HARDWARE_PERMITS := 8

  datatype Permit = OfSubnet | OfHardware

  /** The permits bound so far, the newest last, and whether the hardware queue can still be tried. */
  datatype Handler = Handler(subnet: Subnet, permits: seq<Permit>, mayTry: bool)

  type Id = nat

  /** The shared state, the handlers, and, to speak about runs, everything ever admitted. */
  datatype System = System(
    table: Table, hardwareFree: nat, handlers: map<Id, Handler>, naive: Naive, clock: nat)

  const START := System(map[], HARDWARE_PERMITS, map[], Naive([], multiset{}), 0)

  /**
   One atomic step of one handler: the acquire of a new connection, its try_acquire on the hardware
   semaphore, and, from any point on, the drop of the permit bound last.
   */
  datatype Step =
    | Accept(id: Id, ip: IpAddr, now: nat, collect: bool)
    | TryHardware(id: Id)
    | DropLast(id: Id)

  predicate Enabled(sys: System, step: Step) {
    match step
    case Accept(id, _, now, _) => id !in sys.handlers && sys.clock <= now
    case TryHardware(id) => id in sys.handlers && sys.handlers[id].mayTry
    case DropLast(id) => id in sys.handlers && sys.handlers[id].permits != []
  }

  function NextAccept(cfg: Config, sys: System, id: Id, ip: IpAddr, now: nat, collect: bool): System {
    var s := SubnetOf(ip);
    var (table, verdict) := AcquireStep(cfg, sys.table, s, now, collect);
    sys.(table := table, clock := now, naive := NaiveAcquire(cfg, sys.naive, s, now),
         handlers := sys.handlers[id := if verdict.Admitted? then Handler(s, [OfSubnet], true)
                                        else Handler(s, [], false)])
  }

  function NextTry(sys: System, id: Id): System
    requires id in sys.handlers
  {
    var h := sys.handlers[id].(mayTry := false);
    if sys.hardwareFree == 0 then sys.(handlers := sys.handlers[id := h])
    else sys.(hardwareFree := sys.hardwareFree - 1,
              handlers := sys.handlers[id := h.(permits := h.permits + [OfHardware])])
  }

  function NextDrop(sys: System, id: Id): System
    requires id in sys.handlers && sys.handlers[id].permits != []
  {
    var h := sys.handlers[id];
    var k := |h.permits| - 1;
    var moved := sys.(handlers := sys.handlers[id := Handler(h.subnet, h.permits[..k], false)]);
    match h.permits[k]
    case OfSubnet =>
      moved.(table := ReleaseStep(sys.table, h.subnet), naive := NaiveRelease(sys.naive, h.subnet))
    case OfHardware => moved.(hardwareFree := sys.hardwareFree + 1)
  }

  function Next(cfg: Config, sys: System, step: Step): System
    requires Enabled(sys, step)
  {
    match step
    case Accept(id, ip, now, collect) => NextAccept(cfg, sys, id, ip, now, collect)
    case TryHardware(id) => NextTry(sys, id)
    case DropLast(id) => NextDrop(sys, id)
  }

  // ----- The invariant -----

  predicate HoldsSubnet(handlers: map<Id, Handler>, id: Id, s: Subnet) {
    id in handlers && handlers[id].subnet == s && OfSubnet in handlers[id].permits
  }

  predicate HoldsHardware(handlers: map<Id, Handler>, id: Id) {
    id in handlers && OfHardware in handlers[id].permits
  }

  /** The handlers that hold a permit of this subnet. */
  function SubnetHolders(handlers: map<Id, Handler>, s: Subnet): set<Id> {
    set id | id in handlers && HoldsSubnet(handlers, id, s)
  }

  function HardwareHolders(handlers: map<Id, Handler>): set<Id> {
    set id | id in handlers && HoldsHardware(handlers, id)
  }

  /** The hardware permit is only ever held on top of the subnet permit, and no permit is held twice. */
  predicate WellStacked(h: Handler) {
    && (h.permits == [] || h.permits == [OfSubnet] || h.permits == [OfSubnet, OfHardware])
    && (h.mayTry ==> h.permits == [OfSubnet])
  }

  ghost predicate CountsSubnet(sys: System, s: Subnet) {
    sys.naive.live[s] == |SubnetHolders(sys.handlers, s)|
  }

  ghost predicate Inv(cfg: Config, sys: System) {
    && Refines(cfg, sys.table, sys.naive, sys.clock)
    && RateBounded(cfg, sys.naive) && HistoryUpTo(sys.naive, sys.clock)
    && (forall id | id in sys.handlers :: WellStacked(sys.handlers[id]))
    && (forall s :: CountsSubnet(sys, s))
    && sys.hardwareFree + |HardwareHolders(sys.handlers)| == HARDWARE_PERMITS
  }

  lemma StartInv(cfg: Config)
    ensures Inv(cfg, START)
  {
    EmptyRefines(cfg);
    forall s
      ensures CountsSubnet(START, s)
    {
      assert SubnetHolders(START.handlers, s) == {};
    }
    assert HardwareHolders(START.handlers) == {};
  }

  function One(b: bool): nat {
    if b then 1 else 0
  }

  lemma SizeAfter(before: set<Id>, after: set<Id>, id: Id)
    requires after - {id} == before - {id}
    ensures |after| == |before| - One(id in before) + One(id in after)
  {
    assert |before - {id}| == |before| - One(id in before);
    assert |after - {id}| == |after| - One(id in after);
  }

  lemma SubnetHoldersAfter(handlers: map<Id, Handler>, id: Id, h: Handler, s: Subnet)
    ensures |SubnetHolders(handlers[id := h], s)| == |SubnetHolders(handlers, s)|
              - One(HoldsSubnet(handlers, id, s)) + One(HoldsSubnet(handlers[id := h], id, s))
  {
    SizeAfter(SubnetHolders(handlers, s), SubnetHolders(handlers[id := h], s), id);
  }

  lemma HardwareHoldersAfter(handlers: map<Id, Handler>, id: Id, h: Handler)
    ensures |HardwareHolders(handlers[id := h])| == |HardwareHolders(handlers)|
              - One(HoldsHardware(handlers, id)) + One(HoldsHardware(handlers[id := h], id))
  {
    SizeAfter(HardwareHolders(handlers), HardwareHolders(handlers[id := h]), id);
  }

  lemma AcceptInv(cfg: Config, sys: System, id: Id, ip: IpAddr, now: nat, collect: bool)
    requires Inv(cfg, sys) && id !in sys.handlers && sys.clock <= now
    ensures Inv(cfg, NextAccept(cfg, sys, id, ip, now, collect))
  {
    hide Refines, RateBounded, AcquireStep, NaiveVerdict, SubnetHolders, HardwareHolders, HistoryUpTo, SubnetOf;
    var s, next := SubnetOf(ip), NextAccept(cfg, sys, id, ip, now, collect);
    AcquireRefines(cfg, sys.table, sys.naive, sys.clock, s, now, collect);
    HistoryLater(sys.naive, sys.clock, now);
    AcquireKeepsRate(cfg, sys.naive, s, now);
    HardwareHoldersAfter(sys.handlers, id, next.handlers[id]);
    forall x
      ensures CountsSubnet(next, x)
    {
      assert CountsSubnet(sys, x);
      SubnetHoldersAfter(sys.handlers, id, next.handlers[id], x);
    }
  }

  lemma HistoryLater(n: Naive, clock: nat, now: nat)
    requires HistoryUpTo(n, clock) && clock <= now
    ensures HistoryUpTo(n, now)
  {
  }

  lemma TryInv(cfg: Config, sys: System, id: Id)
    requires Inv(cfg, sys) && id in sys.handlers && sys.handlers[id].mayTry
    ensures Inv(cfg, NextTry(sys, id))
  {
    hide Refines, RateBounded, SubnetHolders, HardwareHolders, HistoryUpTo;
    var next := NextTry(sys, id);
    assert WellStacked(sys.handlers[id]);
    HardwareHoldersAfter(sys.handlers, id, next.handlers[id]);
    forall x
      ensures CountsSubnet(next, x)
    {
      assert CountsSubnet(sys, x);
      SubnetHoldersAfter(sys.handlers, id, next.handlers[id], x);
    }
  }

  lemma DropHardwareInv(cfg: Config, sys: System, id: Id)
    requires Inv(cfg, sys) && id in sys.handlers && sys.handlers[id].permits == [OfSubnet, OfHardware]
    ensures Inv(cfg, NextDrop(sys, id))
  {
    hide Refines, RateBounded, SubnetHolders, HardwareHolders, HistoryUpTo;
    var next := NextDrop(sys, id);
    assert next.handlers[id].permits == [OfSubnet];
    HardwareHoldersAfter(sys.handlers, id, next.handlers[id]);
    forall x
      ensures CountsSubnet(next, x)
    {
      assert CountsSubnet(sys, x);
      SubnetHoldersAfter(sys.handlers, id, next.handlers[id], x);
    }
  }

  lemma HolderCounts(handlers: map<Id, Handler>, id: Id, s: Subnet)
    requires HoldsSubnet(handlers, id, s)
    ensures |SubnetHolders(handlers, s)| > 0
  {
    assert id in SubnetHolders(handlers, s);
  }

  lemma DropSubnetInv(cfg: Config, sys: System, id: Id)
    requires Inv(cfg, sys) && id in sys.handlers && sys.handlers[id].permits == [OfSubnet]
    ensures sys.handlers[id].subnet in sys.naive.live
    ensures Inv(cfg, NextDrop(sys, id))
  {
    hide Refines, RateBounded, SubnetHolders, HardwareHolders, HistoryUpTo, ReleaseStep;
    var next := NextDrop(sys, id);
    var s := sys.handlers[id].subnet;
    HolderCounts(sys.handlers, id, s);
    assert CountsSubnet(sys, s);
    ReleaseRefines(cfg, sys.table, sys.naive, sys.clock, s);
    ReleaseKeepsRate(cfg, sys.naive, s);
    ReleaseHistory(sys.naive, s, sys.clock);
    HardwareHoldersAfter(sys.handlers, id, next.handlers[id]);
    forall x
      ensures CountsSubnet(next, x)
    {
      assert CountsSubnet(sys, x);
      SubnetHoldersAfter(sys.handlers, id, next.handlers[id], x);
    }
  }

  lemma ReleaseHistory(n: Naive, s: Subnet, clock: nat)
    requires HistoryUpTo(n, clock)
    ensures HistoryUpTo(NaiveRelease(n, s), clock)
  {
  }

  lemma StepInv(cfg: Config, sys: System, step: Step)
    requires Inv(cfg, sys) && Enabled(sys, step)
    ensures Inv(cfg, Next(cfg, sys, step))
  {
    hide NextAccept, NextTry, NextDrop, Refines, RateBounded, CountsSubnet, HardwareHolders;
    match step
    case Accept(id, ip, now, collect) => AcceptInv(cfg, sys, id, ip, now, collect);
    case TryHardware(id) => TryInv(cfg, sys, id);
    case DropLast(id) =>
      assert WellStacked(sys.handlers[id]);
      if sys.handlers[id].permits == [OfSubnet] {
        DropSubnetInv(cfg, sys, id);
      } else {
        DropHardwareInv(cfg, sys, id);
      }
  }

  // ----- Every reachable state -----

  ghost predicate Reaches(cfg: Config, sys: System, steps: seq<Step>, final: System)
    decreases |steps|
  {
    if steps == [] then sys == final
    else Enabled(sys, steps[0]) && Reaches(cfg, Next(cfg, sys, steps[0]), steps[1..], final)
  }

  lemma {:induction false} RunInv(cfg: Config, sys: System, steps: seq<Step>, final: System)
    requires Inv(cfg, sys) && Reaches(cfg, sys, steps, final)
    ensures Inv(cfg, final)
    decreases |steps|
  {
    hide Inv, Enabled, Next;
    if steps != [] {
      StepInv(cfg, sys, steps[0]);
      RunInv(cfg, Next(cfg, sys, steps[0]), steps[1..], final);
    }
  }

  lemma ReachableInv(cfg: Config, steps: seq<Step>, sys: System)
    requires Reaches(cfg, START, steps, sys)
    ensures Inv(cfg, sys)
  {
    hide Inv;
    StartInv(cfg);
    RunInv(cfg, START, steps, sys);
  }

  /** In every reachable state the counters are the permits held, within their bounds, and hardware is held on top. */
  lemma PermitSafety(cfg: Config, steps: seq<Step>, sys: System, s: Subnet)
    requires Reaches(cfg, START, steps, sys)
    ensures Entry(sys.table, s).active == |SubnetHolders(sys.handlers, s)| <= cfg.maxConcurrent
    ensures |HardwareHolders(sys.handlers)| == HARDWARE_PERMITS - sys.hardwareFree <= HARDWARE_PERMITS
    ensures forall id | id in HardwareHolders(sys.handlers) ::
      id in SubnetHolders(sys.handlers, sys.handlers[id].subnet)
  {
    hide Represents, RateBounded, Reaches;
    ReachableInv(cfg, steps, sys);
    assert RepresentsAt(cfg, sys.table, sys.naive, sys.clock, s);
    assert CountsSubnet(sys, s);
  }

  /** In every reachable state the rate of each subnet was bounded over every interval of the window's length. */
  lemma RateSafety(cfg: Config, steps: seq<Step>, sys: System, s: Subnet, lo: int)
    requires Reaches(cfg, START, steps, sys)
    ensures Burst(cfg, sys.naive, s, lo) <= cfg.maxRequests
  {
    hide Reaches, Burst;
    ReachableInv(cfg, steps, sys);
  }

  /** Whenever a subnet permit is dropped its counter is positive, so the saturating decrement is exact. */
  lemma DropIsExact(cfg: Config, steps: seq<Step>, sys: System, id: Id)
    requires Reaches(cfg, START, steps, sys)
    requires id in sys.handlers && sys.handlers[id].permits == [OfSubnet]
    ensures
      var s := sys.handlers[id].subnet;
      Entry(NextDrop(sys, id).table, s).active == Entry(sys.table, s).active - 1
  {
    hide Represents, RateBounded, Reaches;
    ReachableInv(cfg, steps, sys);
    DropSubnetInv(cfg, sys, id);
    ReleaseRefines(cfg, sys.table, sys.naive, sys.clock, sys.handlers[id].subnet);
  }

  /** Once all handlers have dropped what they held, by whatever paths, every permit is back. */
  lemma AllPermitsReturn(cfg: Config, steps: seq<Step>, sys: System, s: Subnet)
    requires Reaches(cfg, START, steps, sys)
    requires forall id | id in sys.handlers :: sys.handlers[id].permits == []
    ensures sys.hardwareFree == HARDWARE_PERMITS && Entry(sys.table, s).active == 0
  {
    hide Reaches;
    PermitSafety(cfg, steps, sys, s);
    assert SubnetHolders(sys.handlers, s) == {} && HardwareHolders(sys.handlers) == {};
  }

  /** How many admissions of the subnet of an address lie in the window that ends now, both ends included. */
  function Recent(cfg: Config, sys: System, ip: IpAddr, now: nat): nat {
    |AdmissionsIn(sys.naive.history, SubnetOf(ip), now - cfg.window, now)|
  }

  function Holding(sys: System, ip: IpAddr): nat {
    |SubnetHolders(sys.handlers, SubnetOf(ip))|
  }

  /**
   The verdict on a connection, over the whole history: its subnet has had its requests, or else holds its
   permits, or else it is admitted, and only then is the admission recorded and a permit held.
   */
  lemma AcceptVerdict(cfg: Config, steps: seq<Step>, sys: System, id: Id, ip: IpAddr, now: nat, collect: bool)
    requires Reaches(cfg, START, steps, sys) && id !in sys.handlers && sys.clock <= now
    ensures
      var verdict := AcquireStep(cfg, sys.table, SubnetOf(ip), now, collect).1;
      var next := NextAccept(cfg, sys, id, ip, now, collect);
      && (verdict == RateLimitExceeded <==> Recent(cfg, sys, ip, now) >= cfg.maxRequests)
      && (verdict == ConcurrencyExceeded <==>
          Recent(cfg, sys, ip, now) < cfg.maxRequests && Holding(sys, ip) >= cfg.maxConcurrent)
      && (verdict == Admitted <==>
          Recent(cfg, sys, ip, now) < cfg.maxRequests && Holding(sys, ip) < cfg.maxConcurrent)
      && next.handlers[id].permits == (if verdict == Admitted then [OfSubnet] else [])
      && (Enabled(next, TryHardware(id)) <==> verdict == Admitted)
      && (forall other: Id | other !in next.handlers :: Enabled(next, Accept(other, ip, now, collect)))
      && next.naive.history
         == sys.naive.history + (if verdict == Admitted then [Admission(SubnetOf(ip), now)] else [])
  {
    hide AcquireStep, RateBounded, Refines, Reaches, TimesOf, CountIn, SubnetOf, AdmissionsIn, SubnetHolders;
    ReachableInv(cfg, steps, sys);
    AcquireRefines(cfg, sys.table, sys.naive, sys.clock, SubnetOf(ip), now, collect);
    CountIsCardinality(sys.naive.history, SubnetOf(ip), now - cfg.window, now);
    assert CountsSubnet(sys, SubnetOf(ip));
  }

  /** A try gets a hardware permit exactly when fewer than eight are held, and there is only one try. */
  lemma TryVerdict(cfg: Config, steps: seq<Step>, sys: System, id: Id)
    requires Reaches(cfg, START, steps, sys) && Enabled(sys, TryHardware(id))
    ensures
      var next := NextTry(sys, id);
      && (id in HardwareHolders(next.handlers) <==> |HardwareHolders(sys.handlers)| < 8)
      && HardwareHolders(next.handlers) - {id} == HardwareHolders(sys.handlers)
      && !Enabled(next, TryHardware(id))
  {
    hide Refines, RateBounded, Reaches;
    ReachableInv(cfg, steps, sys);
    assert WellStacked(sys.handlers[id]);
  }

  /** A handler lets go of its permits one by one, and each drop frees exactly what it held. */
  lemma DropVerdict(cfg: Config, steps: seq<Step>, sys: System, id: Id)
    requires Reaches(cfg, START, steps, sys) && Enabled(sys, DropLast(id))
    ensures
      var next := NextDrop(sys, id);
      && HardwareHolders(next.handlers) == HardwareHolders(sys.handlers) - {id}
      && (id !in HardwareHolders(sys.handlers) ==> next.handlers[id].permits == [])
      && (id in HardwareHolders(sys.handlers) ==> next.handlers[id].permits == [OfSubnet])
      && !Enabled(next, TryHardware(id))
  {
    hide Refines, RateBounded, Reaches;
    ReachableInv(cfg, steps, sys);
    assert WellStacked(sys.handlers[id]);
  }

  /** What the server is started with: ten requests in three seconds, in milliseconds, and two at once. */
  const SERVER := Config(10, 3000, 2)

  /** So the addresses of one subnet are admitted at most ten times in any three seconds, and twice at once. */
  lemma ServerBounds(steps: seq<Step>, sys: System, ip: IpAddr, lo: int)
    requires Reaches(SERVER, START, steps, sys)
    ensures |AdmissionsIn(sys.naive.history, SubnetOf(ip), lo, lo + 3000)| <= 10
    ensures Holding(sys, ip) <= 2 && |HardwareHolders(sys.handlers)| <= 8
  {
    hide Reaches, SubnetOf, AdmissionsIn, SubnetHolders, HardwareHolders, TimesOf, CountIn;
    RateSafety(SERVER, steps, sys, SubnetOf(ip), lo);
    CountIsCardinality(sys.naive.history, SubnetOf(ip), lo, lo + 3000);
    PermitSafety(SERVER, steps, sys, SubnetOf(ip));
  }
}
