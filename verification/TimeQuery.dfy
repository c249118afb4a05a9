/**
 The whole of `query_roughtime` in src/time.rs: every server is asked, every response verified, and the
 median taken.
 */
module TimeQuery {
  import opened Bytes
  import opened RtMessage
  import opened Merkle
  import opened Roughtime
  import opened RoughtimeServer
  import opened Consensus

  /** One server that is asked: its key, the nonce sent to it, and what came back, if anything. */
  datatype Query = Query(pubkey: string, nonce: Nonce, response: Option<seq<byte>>)

  function Outcome(s: Suite, q: Query): Result<u64, QueryError> {
    match q.response
    case None => Err(QueryFailed)
    case Some(data) =>
      match Verdict(s, data, q.nonce, q.pubkey)
      case Ok(midpoint) => Ok(midpoint)
      case Err(_) => Err(QueryFailed)
  }

  function Outcomes(s: Suite, queries: seq<Query>): (results: seq<Result<u64, QueryError>>)
    ensures |results| == |queries|
  {
    seq(|queries|, i requires 0 <= i < |queries| => Outcome(s, queries[i]))
  }

  /** The midpoints of the accepted responses. */
  function Accepted(s: Suite, queries: seq<Query>): seq<u64> {
    Midpoints(Outcomes(s, queries))
  }

  method QuerySingle(s: Suite, q: Query) returns (r: Result<u64, QueryError>)
    ensures r == Outcome(s, q)
  {
    hide Verdict;
    if q.response.None? {
      return Err(QueryFailed);
    }
    var verdict := VerifyResponse(s, q.response.value, q.nonce, q.pubkey);
    match verdict
    case Ok(midpoint) => r := Ok(midpoint);
    case Err(_) => r := Err(QueryFailed);
  }

  method QueryRoughtime(s: Suite, queries: seq<Query>) returns (r: Result<u64, QueryError>)
    ensures Accepted(s, queries) == [] ==> r == Err(NoValidResponses)
    ensures Accepted(s, queries) != [] ==> r == Ok(Median(Accepted(s, queries)))
  {
    hide Outcome, Median, Midpoints;
    var results: seq<Result<u64, QueryError>> := [];
    for i := 0 to |queries|
      invariant |results| == i && forall k | 0 <= k < i :: results[k] == Outcome(s, queries[k])
    {
      var result := QuerySingle(s, queries[i]);
      results := results + [result];
    }
    assert results == Outcomes(s, queries);
    r := Consensus.Consensus(results);
  }

  // ----- A majority of honest servers decides -----

  /** Who runs a server, and what it has signed. */
  datatype Operator = Operator(signer: Signer, server: Server, batches: set<Batch>)

  /** Nothing in the response is forged, and the operator only ever signed midpoints in [lo, hi]. */
  ghost predicate Vouched(s: Suite, op: Operator, q: Query, lo: int, hi: int) {
    && (forall b | b in op.batches :: lo <= b.midpoint <= hi)
    && forall data, midpoint, e | q.response == Some(data) && Proves(s, data, q.nonce, q.pubkey, midpoint, e) ::
         !Forged(s, op.signer, op.server, op.batches, e)
  }

  /** A server that answers honestly, in time and only signs midpoints in [lo, hi] is accepted and vouched for. */
  lemma HonestIsVouched(s: Suite, op: Operator, q: Query, b: Batch, index: u32, lo: int, hi: int)
    requires SigningVerifies(s, op.signer)
    requires s.decodeBase64(q.pubkey) == Some(op.signer.publicKey(op.server.rootSecret))
    requires b in op.batches && GoodBatch(b) && PathFits(b.depth) && index < |b.leaves| && q.nonce == b.leaves[index]
    requires op.server.mint <= b.midpoint <= op.server.maxt
    requires forall c | c in op.batches :: lo <= c.midpoint <= hi
    requires Encodable(Response(s, op.signer, op.server, b, index))
    requires q.response == Some(Encode(Response(s, op.signer, op.server, b, index)))
    ensures Outcome(s, q) == Ok(b.midpoint) && Vouched(s, op, q, lo, hi)
  {
    hide Encode, Encodable, Response, Verdict, Proves, Forged;
    HonestResponseAccepted(s, op.signer, op.server, b, index, q.pubkey);
    forall midpoint, e | Proves(s, q.response.value, q.nonce, q.pubkey, midpoint, e)
      ensures !Forged(s, op.signer, op.server, op.batches, e)
    {
      HonestIsUnforged(s, op.signer, op.server, op.batches, b, index, q.pubkey, midpoint, e);
    }
  }

  /** How many of the accepted responses are vouched for. */
  ghost function VouchedCount(s: Suite, ops: seq<Operator>, queries: seq<Query>, lo: int, hi: int): nat
    requires |ops| == |queries|
  {
    if queries == [] then 0
    else
      var k := |queries| - 1;
      VouchedCount(s, ops[..k], queries[..k], lo, hi)
      + if Outcome(s, queries[k]).Ok? && Vouched(s, ops[k], queries[k], lo, hi) then 1 else 0
  }

  lemma VouchedInRange(s: Suite, op: Operator, q: Query, lo: int, hi: int)
    requires Outcome(s, q).Ok? && Vouched(s, op, q, lo, hi)
    ensures lo <= Outcome(s, q).value <= hi
  {
    hide Verdict, Proves, Forged, AnswersNonce;
    var data, midpoint := q.response.value, Outcome(s, q).value;
    AcceptedIsHonest(s, op.signer, op.server, op.batches, data, q.nonce, q.pubkey, midpoint);
  }

  lemma {:induction false} CountAppend(a: seq<u64>, x: u64, t: int)
    ensures CountAtMost(a + [x], t) == CountAtMost(a, t) + if x <= t then 1 else 0
  {
    if a == [] {
      assert a + [x] == [x];
    } else {
      assert (a + [x])[1..] == a[1..] + [x];
      CountAppend(a[1..], x, t);
    }
  }

  lemma AcceptedLast(s: Suite, queries: seq<Query>)
    requires queries != []
    ensures
      var k := |queries| - 1;
      var last := Outcome(s, queries[k]);
      Accepted(s, queries) == Accepted(s, queries[..k]) + if last.Ok? then [last.value] else []
  {
    hide Outcome;
    var k := |queries| - 1;
    assert Outcomes(s, queries)[..k] == Outcomes(s, queries[..k]);
  }

  lemma {:induction false} VouchedAreCounted(s: Suite, ops: seq<Operator>, queries: seq<Query>, lo: int, hi: int)
    requires |ops| == |queries| && lo <= hi
    ensures
      var m := Accepted(s, queries);
      CountAtMost(m, hi) - CountAtMost(m, lo - 1) >= VouchedCount(s, ops, queries, lo, hi)
  {
    hide Outcome, Vouched, CountAtMost, Accepted;
    if queries == [] {
      NoneAccepted(s);
    } else {
      var k := |queries| - 1;
      VouchedAreCounted(s, ops[..k], queries[..k], lo, hi);
      AcceptedLast(s, queries);
      var last := Outcome(s, queries[k]);
      if last.Ok? {
        CountAppend(Accepted(s, queries[..k]), last.value, hi);
        CountAppend(Accepted(s, queries[..k]), last.value, lo - 1);
        if Vouched(s, ops[k], queries[k], lo, hi) {
          VouchedInRange(s, ops[k], queries[k], lo, hi);
        }
      } else {
        assert Accepted(s, queries) == Accepted(s, queries[..k]);
      }
    }
  }

  lemma NoneAccepted(s: Suite)
    ensures Accepted(s, []) == []
  {
  }

  /**
   End to end: if more than half of the accepted responses are not forged and come from operators that only
   signed midpoints in [lo, hi], then the time that is established lies in [lo, hi], whatever the others sent,
   provided the middle sum fits, and it does whenever hi is in the lower half of the u64 range.
   */
  lemma HonestMajorityDecides(s: Suite, ops: seq<Operator>, queries: seq<Query>, lo: int, hi: int)
    requires |ops| == |queries| && lo <= hi
    requires 2 * VouchedCount(s, ops, queries, lo, hi) > |Accepted(s, queries)|
    ensures Accepted(s, queries) != []
    ensures 2 * hi < U64_SIZE ==> SumFits(Accepted(s, queries))
    ensures SumFits(Accepted(s, queries)) ==> lo <= Median(Accepted(s, queries)) <= hi
  {
    hide Accepted, VouchedCount, Median, SumFits, CountAtMost;
    var m := Accepted(s, queries);
    VouchedAreCounted(s, ops, queries, lo, hi);
    assert MajorityIn(m, lo, hi);
    RobustIffSumFits(m);
    if 2 * hi < U64_SIZE {
      SmallMajorityFits(m, lo, hi);
    }
  }
}
