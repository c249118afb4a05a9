/** The median over the midpoints of several servers: the end of `query_roughtime` in src/time.rs. */
module Consensus {
  import opened Bytes

  // ----- Sorting and order statistics -----

  lemma SortedTail(s: seq<u64>)
    requires Sorted(s) && s != []
    ensures Sorted(s[1..]) && (|s| > 1 ==> s[0] <= s[1])
  {
  }

  lemma SortedCons(x: u64, s: seq<u64>)
    requires Sorted(s) && (s == [] || x <= s[0])
    ensures Sorted([x] + s)
  {
  }

  lemma MultisetCons(x: u64, s: seq<u64>)
    ensures multiset([x] + s) == multiset(s) + multiset{x}
  {
  }

  function Insert(x: u64, s: seq<u64>): (r: seq<u64>)
    requires Sorted(s)
    ensures Sorted(r) && multiset(r) == multiset(s) + multiset{x}
    ensures |r| == |s| + 1 && r[0] == (if s == [] || x <= s[0] then x else s[0])
  {
    hide Sorted;
    if s == [] || x <= s[0] then
      SortedCons(x, s);
      MultisetCons(x, s);
      [x] + s
    else
      SortedTail(s);
      var rest := Insert(x, s[1..]);
      SortedCons(s[0], rest);
      MultisetCons(s[0], rest);
      MultisetCons(s[0], s[1..]);
      assert s == [s[0]] + s[1..];
      [s[0]] + rest
  }

  /** What `sort_unstable` computes: on integers, the sorted arrangement of the same values. */
  function Sort(s: seq<u64>): (r: seq<u64>)
    ensures Sorted(r) && multiset(r) == multiset(s) && |r| == |s|
  {
    if s == [] then []
    else
      assert s == [s[0]] + s[1..];
      Insert(s[0], Sort(s[1..]))
  }

  function CountAtMost(s: seq<u64>, t: int): (n: nat)
    ensures n <= |s|
  {
    if s == [] then 0 else (if s[0] <= t then 1 else 0) + CountAtMost(s[1..], t)
  }

  function Without(s: seq<u64>, i: nat): seq<u64>
    requires i < |s|
  {
    s[..i] + s[i + 1..]
  }

  lemma MultisetWithout(s: seq<u64>, i: nat)
    requires i < |s|
    ensures multiset(Without(s, i)) == multiset(s) - multiset{s[i]}
  {
    assert s == s[..i] + [s[i]] + s[i + 1..];
    assert multiset(s) == multiset(Without(s, i)) + multiset{s[i]};
  }

  lemma {:induction false} CountWithout(s: seq<u64>, t: int, i: nat)
    requires i < |s|
    ensures CountAtMost(s, t) == (if s[i] <= t then 1 else 0) + CountAtMost(Without(s, i), t)
  {
    if i == 0 {
      assert Without(s, 0) == s[1..];
    } else {
      CountWithout(s[1..], t, i - 1);
      assert Without(s, i)[1..] == Without(s[1..], i - 1);
    }
  }

  lemma {:induction false} CountOfMultiset(a: seq<u64>, b: seq<u64>, t: int)
    requires multiset(a) == multiset(b)
    ensures CountAtMost(a, t) == CountAtMost(b, t)
  {
    if a == [] {
      assert |multiset(b)| == 0;
    } else {
      assert a[0] in multiset(b);
      var i :| 0 <= i < |b| && b[i] == a[0];
      CountWithout(a, t, 0);
      CountWithout(b, t, i);
      MultisetWithout(a, 0);
      MultisetWithout(b, i);
      hide CountAtMost, Without;
      CountOfMultiset(Without(a, 0), Without(b, i), t);
    }
  }

  /** In a sorted sequence, position k is at most t exactly when more than k elements are. */
  lemma {:induction false} SortedCount(s: seq<u64>, t: int, k: nat)
    requires Sorted(s) && k < |s|
    ensures s[k] <= t <==> CountAtMost(s, t) > k
  {
    if s[0] > t {
      NoneAtMost(s, t);
    } else if k > 0 {
      SortedCount(s[1..], t, k - 1);
    }
  }

  lemma {:induction false} NoneAtMost(s: seq<u64>, t: int)
    requires forall i | 0 <= i < |s| :: s[i] > t
    ensures CountAtMost(s, t) == 0
  {
    if s != [] {
      NoneAtMost(s[1..], t);
    }
  }

  /** The k-th smallest value, without sorting: it is at most t exactly when more than k values are. */
  lemma OrderStatistic(s: seq<u64>, t: int, k: nat)
    requires k < |s|
    ensures Sort(s)[k] <= t <==> CountAtMost(s, t) > k
  {
    hide Sort, CountAtMost;
    SortedCount(Sort(s), t, k);
    CountOfMultiset(s, Sort(s), t);
  }

  // ----- The median -----

  /** u64 addition of a release build: it wraps around. */
  function WrappingAdd(a: u64, b: u64): u64 {
    (a + b) % U64_SIZE
  }

  /** The two middle positions, equal for odd lengths. */
  function LowMid(s: seq<u64>): (x: u64)
    requires s != []
  {
    Sort(s)[(|s| - 1) / 2]
  }

  function HighMid(s: seq<u64>): (x: u64)
    requires s != []
  {
    Sort(s)[|s| / 2]
  }

  /** The sum of the two middle values fits a u64, or none is formed. */
  predicate SumFits(s: seq<u64>)
    requires s != []
  {
    |s| % 2 == 1 || LowMid(s) + HighMid(s) < U64_SIZE
  }

  function Median(s: seq<u64>): u64
    requires s != []
  {
    if |s| % 2 == 1 then HighMid(s) else WrappingAdd(LowMid(s), HighMid(s)) / 2
  }

  datatype QueryError = QueryFailed | NoValidResponses

  function Midpoints(results: seq<Result<u64, QueryError>>): seq<u64> {
    if results == [] then []
    else
      var last := results[|results| - 1];
      Midpoints(results[..|results| - 1]) + if last.Ok? then [last.value] else []
  }

  method Consensus(results: seq<Result<u64, QueryError>>) returns (r: Result<u64, QueryError>)
    ensures Midpoints(results) == [] ==> r == Err(NoValidResponses)
    ensures Midpoints(results) != [] ==> r == Ok(Median(Midpoints(results)))
  {
    var validMidpoints: seq<u64> := [];
    for i := 0 to |results|
      invariant validMidpoints == Midpoints(results[..i])
    {
      assert results[..i + 1][..i] == results[..i];
      match results[i]
      case Ok(midpoint) => validMidpoints := validMidpoints + [midpoint];
      case Err(_) =>
    }
    assert results[..|results|] == results;
    if validMidpoints == [] {
      return Err(NoValidResponses);
    }
    validMidpoints := Sort(validMidpoints);
    var median: u64;
    if |validMidpoints| % 2 == 1 {
      median := validMidpoints[|validMidpoints| / 2];
    } else {
      var mid := |validMidpoints| / 2;
      median := WrappingAdd(validMidpoints[mid - 1], validMidpoints[mid]) / 2;
    }
    r := Ok(median);
  }

  /** The value at position k of the sorted values, by counting: more than k are at most x, and no more than k below. */
  predicate IsOrderStatistic(s: seq<u64>, k: nat, x: u64) {
    CountAtMost(s, x) > k >= CountAtMost(s, x - 1)
  }

  lemma OrderStatisticIs(s: seq<u64>, k: nat, x: u64)
    requires k < |s| && IsOrderStatistic(s, k, x)
    ensures Sort(s)[k] == x
  {
    hide Sort, CountAtMost;
    OrderStatistic(s, x, k);
    OrderStatistic(s, x - 1, k);
  }

  /** The median by counting: the middle value, or the average of the two middle ones, whose sum wraps around. */
  lemma MedianExact(s: seq<u64>, x: u64, y: u64)
    requires s != [] && IsOrderStatistic(s, (|s| - 1) / 2, x) && IsOrderStatistic(s, |s| / 2, y)
    ensures |s| % 2 == 1 ==> Median(s) == x == y
    ensures |s| % 2 == 0 && x + y < U64_SIZE ==> Median(s) == (x + y) / 2
    ensures |s| % 2 == 0 && x + y >= U64_SIZE ==> Median(s) == (x + y - U64_SIZE) / 2
  {
    hide Sort, IsOrderStatistic;
    OrderStatisticIs(s, (|s| - 1) / 2, x);
    OrderStatisticIs(s, |s| / 2, y);
  }

  // ----- Robustness -----

  /** More than half of the values lie in [lo, hi]. */
  predicate MajorityIn(s: seq<u64>, lo: int, hi: int) {
    lo <= hi && 2 * (CountAtMost(s, hi) - CountAtMost(s, lo - 1)) > |s|
  }

  lemma MiddleInMajority(s: seq<u64>, lo: int, hi: int)
    requires s != [] && MajorityIn(s, lo, hi)
    ensures lo <= LowMid(s) <= HighMid(s) <= hi
  {
    hide Sort, CountAtMost;
    OrderStatistic(s, hi, |s| / 2);
    OrderStatistic(s, lo - 1, (|s| - 1) / 2);
  }

  lemma MiddleOrder(s: seq<u64>)
    requires s != []
    ensures LowMid(s) <= HighMid(s) && (|s| % 2 == 1 ==> LowMid(s) == HighMid(s))
  {
    hide Sort;
  }

  /** The smallest interval from a middle value up that holds a majority. */
  lemma UpperHalfIsMajority(s: seq<u64>)
    requires s != [] && |s| % 2 == 0
    ensures MajorityIn(s, LowMid(s), U64_SIZE - 1)
  {
    hide Sort, CountAtMost;
    var k := (|s| - 1) / 2;
    OrderStatistic(s, LowMid(s) - 1, k);
    SortedCount(Sort(s), U64_SIZE - 1, |s| - 1);
    CountOfMultiset(s, Sort(s), U64_SIZE - 1);
  }

  /**
   The median lies in every interval that holds more than half of the values, exactly when the sum of
   the two middle values does not overflow.
   */
  lemma RobustIffSumFits(s: seq<u64>)
    requires s != []
    ensures SumFits(s) <==> forall lo, hi | MajorityIn(s, lo, hi) :: lo <= Median(s) <= hi
  {
    hide LowMid, HighMid, MajorityIn;
    MiddleOrder(s);
    if SumFits(s) {
      forall lo, hi | MajorityIn(s, lo, hi)
        ensures lo <= Median(s) <= hi
      {
        MiddleInMajority(s, lo, hi);
      }
    } else {
      UpperHalfIsMajority(s);
      assert Median(s) < LowMid(s);
    }
  }

  /** A majority below half of the u64 range makes the sum fit: in microseconds, that is before the year 294247. */
  lemma SmallMajorityFits(s: seq<u64>, lo: int, hi: int)
    requires s != [] && MajorityIn(s, lo, hi) && 2 * hi < U64_SIZE
    ensures SumFits(s)
  {
    hide LowMid, HighMid, MajorityIn;
    MiddleInMajority(s, lo, hi);
  }

  /** Two middle values above half of the u64 range: the median falls below both. */
  lemma OverflowExample()
    ensures
      var big: u64 := 0xffff_ffff_ffff_fffe;
      MajorityIn([big, big], big, big) && Median([big, big]) == 0x7fff_ffff_ffff_fffe
  {
    var big: u64 := 0xffff_ffff_ffff_fffe;
    var s := [big, big];
    assert s[1..] == [big];
    assert CountAtMost([big], big) == 1 && CountAtMost([big], big - 1) == 0;
    assert Sort(s)[0] in multiset(Sort(s)) && Sort(s)[1] in multiset(Sort(s));
    assert Sort(s) == s;
  }

  // ----- Independence of order, monotonicity, stability -----

  lemma SortOfMultiset(a: seq<u64>, b: seq<u64>)
    requires multiset(a) == multiset(b)
    ensures |a| == |b| && Sort(a) == Sort(b)
  {
    assert |multiset(a)| == |a| && |multiset(b)| == |b|;
    hide Sort, CountAtMost;
    forall k | 0 <= k < |a|
      ensures Sort(a)[k] == Sort(b)[k]
    {
      OrderStatistic(a, Sort(a)[k], k);
      OrderStatistic(b, Sort(a)[k], k);
      OrderStatistic(a, Sort(b)[k], k);
      OrderStatistic(b, Sort(b)[k], k);
      CountOfMultiset(a, b, Sort(a)[k]);
      CountOfMultiset(a, b, Sort(b)[k]);
    }
  }

  lemma MedianIgnoresOrder(a: seq<u64>, b: seq<u64>)
    requires a != [] && multiset(a) == multiset(b)
    ensures b != [] && Median(a) == Median(b)
  {
    hide Sort, WrappingAdd;
    SortOfMultiset(a, b);
  }

  /** Each value of b exceeds the one of a by at most delta. */
  predicate RisesAtMost(a: seq<u64>, b: seq<u64>, delta: nat) {
    |a| == |b| && forall i | 0 <= i < |a| :: b[i] <= a[i] + delta
  }

  lemma {:induction false} CountUnderRise(a: seq<u64>, b: seq<u64>, delta: nat, t: int)
    requires RisesAtMost(a, b, delta)
    ensures CountAtMost(a, t) <= CountAtMost(b, t + delta)
  {
    if a != [] {
      CountUnderRise(a[1..], b[1..], delta, t);
    }
  }

  lemma OrderStatisticUnderRise(a: seq<u64>, b: seq<u64>, delta: nat, k: nat)
    requires RisesAtMost(a, b, delta) && k < |a|
    ensures Sort(b)[k] <= Sort(a)[k] + delta
  {
    hide Sort, CountAtMost;
    OrderStatistic(a, Sort(a)[k], k);
    CountUnderRise(a, b, delta, Sort(a)[k]);
    OrderStatistic(b, Sort(a)[k] + delta, k);
  }

  /** If no input rises by more than delta, the median does not; for delta 0 this is monotonicity. */
  lemma MedianUnderRise(a: seq<u64>, b: seq<u64>, delta: nat)
    requires a != [] && RisesAtMost(a, b, delta) && SumFits(a) && SumFits(b)
    ensures Median(b) <= Median(a) + delta
  {
    hide Sort;
    OrderStatisticUnderRise(a, b, delta, (|a| - 1) / 2);
    OrderStatisticUnderRise(a, b, delta, |a| / 2);
  }

  /** If every input moves by at most delta, so does the median. */
  lemma MedianIsStable(a: seq<u64>, b: seq<u64>, delta: nat)
    requires a != [] && |a| == |b| && SumFits(a) && SumFits(b)
    requires RisesAtMost(a, b, delta) && RisesAtMost(b, a, delta)
    ensures Median(a) - delta <= Median(b) <= Median(a) + delta
  {
    hide Median;
    MedianUnderRise(a, b, delta);
    MedianUnderRise(b, a, delta);
  }
}
