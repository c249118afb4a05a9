/** `PerSubnetLimiter` and `SubnetPermit` of src/attestation.rs, as the object the handlers share. */
module Limiter {
  import opened Bytes
  import opened RateLimit

  datatype SubnetPermit = SubnetPermit(subnet: Subnet)

  datatype Rejection = RateLimit | Concurrency

  function VerdictOf(r: Result<SubnetPermit, Rejection>): Verdict {
    match r
    case Ok(_) => Admitted
    case Err(RateLimit) => RateLimitExceeded
    case Err(Concurrency) => ConcurrencyExceeded
  }

  class PerSubnetLimiter {
    const cfg: Config
    var subnets: Table
    /** Every admission so far and every permit still held, and the time of the last acquire. */
    ghost var naive: Naive
    ghost var clock: nat

    ghost predicate Valid()
      reads this
    {
      Refines(cfg, subnets, naive, clock) && RateBounded(cfg, naive) && HistoryUpTo(naive, clock)
    }

    constructor (maxRequests: nat, window: nat, maxConcurrent: nat)
      ensures Valid() && cfg == Config(maxRequests, window, maxConcurrent)
      ensures subnets == map[] && naive == Naive([], multiset{})
    {
      cfg := Config(maxRequests, window, maxConcurrent);
      subnets := map[];
      naive := Naive([], multiset{});
      clock := 0;
      EmptyRefines(Config(maxRequests, window, maxConcurrent));
    }

    /** Pops expired requests off the front, oldest first. */
    method PopExpired(requests: seq<nat>, now: nat) returns (rest: seq<nat>)
      ensures rest == PruneFront(requests, now, cfg.window)
    {
      rest := requests;
      while rest != []
        invariant PruneFront(rest, now, cfg.window) == PruneFront(requests, now, cfg.window)
        decreases |rest|
      {
        if Age(now, rest[0]) > cfg.window {
          rest := rest[1..];
        } else {
          break;
        }
      }
    }

    /** `retain` over all entries, in whatever order the map yields them. */
    method CollectGarbage(now: nat)
      modifies this`subnets
      ensures subnets == Collected(old(subnets), now, cfg.window)
    {
      var todo := subnets.Keys;
      while todo != {}
        invariant todo <= subnets.Keys <= old(subnets).Keys
        invariant forall s | s in todo :: subnets[s] == old(subnets)[s]
        invariant forall s | s in old(subnets) && s !in todo ::
          if Retained(Pruned(old(subnets)[s], now, cfg.window))
          then s in subnets && subnets[s] == Pruned(old(subnets)[s], now, cfg.window)
          else s !in subnets
        decreases |todo|
      {
        var s :| s in todo;
        todo := todo - {s};
        var state := subnets[s];
        var requests := PopExpired(state.requests, now);
        state := state.(requests := requests);
        if state.active > 0 || state.requests != [] {
          subnets := subnets[s := state];
        } else {
          subnets := map x | x in subnets && x != s :: subnets[x];
        }
      }
    }

    /** `entry(..).or_insert_with(..)`, and pruning that entry. */
    method PrunedEntry(subnet: Subnet, now: nat) returns (state: SubnetState)
      modifies this`subnets
      ensures state == Pruned(Entry(old(subnets), subnet), now, cfg.window)
      ensures subnets == old(subnets)[subnet := state]
    {
      if subnet !in subnets {
        subnets := subnets[subnet := SubnetState([], 0)];
      }
      state := subnets[subnet];
      var requests := PopExpired(state.requests, now);
      state := state.(requests := requests);
      subnets := subnets[subnet := state];
    }

    /**
     One acquire under the lock. Whether or not it collects, the verdict is that of the naive limiter,
     which compares with all admissions ever made.
     */
    method Acquire(ip: IpAddr, now: nat) returns (r: Result<SubnetPermit, Rejection>)
      requires Valid() && clock <= now
      modifies this
      ensures Valid() && clock == now
      ensures VerdictOf(r) == NaiveVerdict(cfg, old(naive), SubnetOf(ip), now)
      ensures r.Ok? ==> r.value == SubnetPermit(SubnetOf(ip))
      ensures naive == NaiveAcquire(cfg, old(naive), SubnetOf(ip), now)
      ensures subnets == AcquireStep(cfg, old(subnets), SubnetOf(ip), now, |old(subnets)| > GC_THRESHOLD).0
    {
      hide Refines, RateBounded, Collected, Pruned, NaiveVerdict, NaiveAcquire, SubnetOf;
      var subnet := SubnetOf(ip);
      ghost var step := AcquireStep(cfg, subnets, subnet, now, |subnets| > GC_THRESHOLD);
      AcquireRefines(cfg, subnets, naive, clock, subnet, now, |subnets| > GC_THRESHOLD);
      AcquireKeepsRate(cfg, naive, subnet, now);
      naive := NaiveAcquire(cfg, naive, subnet, now);
      clock := now;

      if |subnets| > GC_THRESHOLD {
        CollectGarbage(now);
      }
      var state := PrunedEntry(subnet, now);
      if |state.requests| >= cfg.maxRequests {
        return Err(RateLimit);
      }
      if state.active >= cfg.maxConcurrent {
        return Err(Concurrency);
      }
      state := SubnetState(state.requests + [now], state.active + 1);
      subnets := subnets[subnet := state];
      assert subnets == step.0;
      r := Ok(SubnetPermit(subnet));
    }

    /** Dropping a live permit: the saturating decrement never saturates. */
    method Drop(permit: SubnetPermit)
      requires Valid() && permit.subnet in naive.live
      modifies this
      ensures Valid() && clock == old(clock)
      ensures naive == NaiveRelease(old(naive), permit.subnet)
      ensures subnets == ReleaseStep(old(subnets), permit.subnet)
      ensures Entry(subnets, permit.subnet).active + 1 == Entry(old(subnets), permit.subnet).active
    {
      hide Refines, RateBounded;
      ReleaseRefines(cfg, subnets, naive, clock, permit.subnet);
      ReleaseKeepsRate(cfg, naive, permit.subnet);
      naive := NaiveRelease(naive, permit.subnet);
      if permit.subnet in subnets {
        var state := subnets[permit.subnet];
        var active := if state.active > 0 then state.active - 1 else 0;
        subnets := subnets[permit.subnet := state.(active := active)];
      }
    }
  }

  lemma ReleaseKeepsRate(cfg: Config, n: Naive, s: Subnet)
    requires RateBounded(cfg, n)
    ensures RateBounded(cfg, NaiveRelease(n, s))
  {
    forall x, lo: int
      ensures Burst(cfg, NaiveRelease(n, s), x, lo) <= cfg.maxRequests
    {
      assert Burst(cfg, n, x, lo) <= cfg.maxRequests;
    }
  }
}
