/**
 An honest Roughtime server and the request it answers: the other end of the exchange that
 src/time.rs takes part in. Only the client is in the repository; the server is what it expects.
 */
module RoughtimeServer {
  import opened Bytes
  import opened RtMessage
  import opened Merkle
  import opened Roughtime

  type Signature = s: seq<byte> | |s| == 64 witness Zeros(64)
  type PublicKey = s: seq<byte> | |s| == 32 witness Zeros(32)

  datatype Signer = Signer(publicKey: seq<byte> -> PublicKey, sign: (seq<byte>, seq<byte>) -> Signature)

  /** What is assumed about Ed25519: a signature verifies under the public key of its secret. */
  ghost predicate SigningVerifies(s: Suite, signer: Signer) {
    forall secret: seq<byte>, message: seq<byte> ::
      s.verify(signer.publicKey(secret), message, signer.sign(secret, message))
  }

  // ----- The request -----

  method BuildRequest(nonce: Nonce) returns (req: seq<byte>)
    ensures req == Request(nonce)
  {
    hide Le32;
    req := [];
    req := req + Le32(2);
    req := req + Le32(64);
    req := req + Le32(TAG_NONC);
    req := req + Le32(TAG_PAD);
    req := req + nonce;
    req := req + Zeros(1024 - |req|);
  }

  function Request(nonce: Nonce): seq<byte> {
    Le32(2) + Le32(64) + Le32(TAG_NONC) + Le32(TAG_PAD) + nonce + Zeros(944)
  }

  // ----- Small messages -----

  lemma ConcatSnoc(init: seq<seq<byte>>, last: seq<byte>)
    ensures Concat(init + [last]) == Concat(init) + last
  {
    assert (init + [last])[..|init|] == init;
  }

  lemma Concat2(a: seq<byte>, b: seq<byte>)
    ensures Concat([a, b]) == a + b && Start([a, b], 1) == |a|
  {
    ConcatSnoc([], a);
    ConcatSnoc([a], b);
    assert [] + [a] == [a] && [a] + [b] == [a, b];
    assert [a, b][..1] == [a];
  }

  lemma Concat3(a: seq<byte>, b: seq<byte>, c: seq<byte>)
    ensures Concat([a, b, c]) == a + b + c && Start([a, b, c], 2) == |a| + |b|
  {
    Concat2(a, b);
    ConcatSnoc([a, b], c);
    assert [a, b] + [c] == [a, b, c];
    assert [a, b, c][..2] == [a, b];
  }

  lemma Concat5(a: seq<byte>, b: seq<byte>, c: seq<byte>, d: seq<byte>, e: seq<byte>)
    ensures Concat([a, b, c, d, e]) == a + b + c + d + e
    ensures Start([a, b, c, d, e], 4) == |a| + |b| + |c| + |d|
  {
    Concat3(a, b, c);
    ConcatSnoc([a, b, c], d);
    ConcatSnoc([a, b, c, d], e);
    assert [a, b, c] + [d] == [a, b, c, d] && [a, b, c, d] + [e] == [a, b, c, d, e];
    assert [a, b, c, d, e][..4] == [a, b, c, d];
  }

  lemma LookupInOrder(m: Message, i: nat)
    requires |m.tags| == |m.values| && i < |m.tags|
    requires forall j, k | 0 <= j < k < |m.tags| :: m.tags[j] < m.tags[k]
    ensures Has(m, m.tags[i], m.values[i])
  {
    LookupIsFirst(m, m.tags[i]);
    assert FirstAt(m, m.tags[i], i);
  }

  lemma EncodeSize(m: Message)
    requires Encodable(m)
    ensures |Encode(m)| == 8 * |m.tags| + |Concat(m.values)|
  {
    EncodedWord(m, 0);
  }

  /** The request is the two-tag message of the nonce and the padding, 1024 bytes long, and parses as such. */
  lemma RequestIsMessage(nonce: Nonce)
    ensures
      var m := Message([TAG_NONC, TAG_PAD], [nonce, Zeros(944)]);
      && Decode(Request(nonce)) == Some(m)
      && Lookup(m, TAG_NONC) == Some(nonce)
      && |Request(nonce)| == 1024
  {
    hide Decode, Lookup;
    var m := Message([TAG_NONC, TAG_PAD], [nonce, Zeros(944)]);
    Concat2(nonce, Zeros(944));
    assert Encodable(m);
    assert Header(m) == [2, 64, TAG_NONC, TAG_PAD];
    Words4(2, 64, TAG_NONC, TAG_PAD);
    assert Encode(m) == Request(nonce);
    CodecBijection(Request(nonce), m);
    LookupInOrder(m, 0);
  }

  lemma Words4(a: u32, b: u32, c: u32, d: u32)
    ensures Words([a, b, c, d]) == Le32(a) + Le32(b) + Le32(c) + Le32(d)
  {
    assert [a, b, c, d][..3] == [a, b, c] && [a, b, c][..2] == [a, b] && [a, b][..1] == [a] && [a][..0] == [];
    assert Words([a]) == Le32(a);
    assert Words([a, b]) == Le32(a) + Le32(b);
    assert Words([a, b, c]) == Words([a, b]) + Le32(c);
  }

  // ----- The response -----

  /** What the server is set up with, and the batch it answers. */
  datatype Server = Server(rootSecret: seq<byte>, onlineSecret: seq<byte>, mint: u64, maxt: u64)
  datatype Batch = Batch(midpoint: u64, radius: u32, depth: nat, leaves: seq<Nonce>)

  ghost predicate GoodBatch(b: Batch) {
    |b.leaves| == Pow2(b.depth)
  }

  /** The offsets in a response with a path of this depth fit their 32-bit words. */
  predicate PathFits(depth: nat) {
    64 + 32 * depth + 68 + 152 < 0x1_0000_0000
  }

  function Dele(signer: Signer, server: Server): Message {
    Message([TAG_PUBK, TAG_MINT, TAG_MAXT],
            [signer.publicKey(server.onlineSecret), Le64(server.mint), Le64(server.maxt)])
  }

  lemma DeleEncodable(signer: Signer, server: Server)
    ensures Encodable(Dele(signer, server)) && |Encode(Dele(signer, server))| == 72
  {
    var m := Dele(signer, server);
    Concat3(m.values[0], m.values[1], m.values[2]);
    EncodeSize(m);
  }

  ghost function Cert(signer: Signer, server: Server): Message {
    DeleEncodable(signer, server);
    var dele := Encode(Dele(signer, server));
    Message([TAG_SIG, TAG_DELE], [signer.sign(server.rootSecret, DELEGATION_CONTEXT + dele), dele])
  }

  lemma CertEncodable(signer: Signer, server: Server)
    ensures Encodable(Cert(signer, server)) && |Encode(Cert(signer, server))| == 152
  {
    hide Encode;
    var m := Cert(signer, server);
    DeleEncodable(signer, server);
    Concat2(m.values[0], m.values[1]);
    EncodeSize(m);
  }

  function Srep(s: Suite, b: Batch): Message
    requires GoodBatch(b)
  {
    Message([TAG_RADI, TAG_MIDP, TAG_ROOT],
            [Le32(b.radius), Le64(b.midpoint), TreeRoot(s.sha512, b.depth, b.leaves)])
  }

  lemma SrepEncodable(s: Suite, b: Batch)
    requires GoodBatch(b)
    ensures Encodable(Srep(s, b)) && |Encode(Srep(s, b))| == 68
  {
    var m := Srep(s, b);
    Concat3(m.values[0], m.values[1], m.values[2]);
    EncodeSize(m);
  }

  ghost function Response(s: Suite, signer: Signer, server: Server, b: Batch, index: u32): Message
    requires GoodBatch(b) && index < |b.leaves|
  {
    SrepEncodable(s, b);
    CertEncodable(signer, server);
    var srep := Encode(Srep(s, b));
    Message([TAG_SIG, TAG_PATH, TAG_SREP, TAG_CERT, TAG_INDX],
            [signer.sign(server.onlineSecret, RESPONSE_CONTEXT + srep),
             Concat(TreePath(s.sha512, b.depth, b.leaves, index)),
             srep,
             Encode(Cert(signer, server)),
             Le32(index)])
  }

  lemma ResponseEncodable(s: Suite, signer: Signer, server: Server, b: Batch, index: u32)
    requires GoodBatch(b) && index < |b.leaves| && PathFits(b.depth)
    ensures Encodable(Response(s, signer, server, b, index))
  {
    hide Encode, Concat, Start, TreePath, TreeRoot, Le32;
    var m := Response(s, signer, server, b, index);
    SrepEncodable(s, b);
    CertEncodable(signer, server);
    ConcatChunks(TreePath(s.sha512, b.depth, b.leaves, index));
    Concat5(m.values[0], m.values[1], m.values[2], m.values[3], m.values[4]);
  }

  lemma HonestDelegation(s: Suite, signer: Signer, server: Server, pubkey: string)
    requires SigningVerifies(s, signer)
    requires s.decodeBase64(pubkey) == Some(signer.publicKey(server.rootSecret))
    ensures Encodable(Cert(signer, server)) && Encodable(Dele(signer, server))
    ensures
      var dele := Encode(Dele(signer, server));
      Delegates(s, Encode(Cert(signer, server)), pubkey,
                Delegation(signer.publicKey(server.onlineSecret), server.mint, server.maxt),
                CertEvidence(Cert(signer, server), Dele(signer, server), signer.publicKey(server.rootSecret),
                             signer.sign(server.rootSecret, DELEGATION_CONTEXT + dele)))
  {
    hide Encode, Encodable, Lookup;
    DeleEncodable(signer, server);
    CertEncodable(signer, server);
    LookupInOrder(Dele(signer, server), 0);
    LookupInOrder(Dele(signer, server), 1);
    LookupInOrder(Dele(signer, server), 2);
    LookupInOrder(Cert(signer, server), 0);
    LookupInOrder(Cert(signer, server), 1);
  }

  lemma HonestReply(s: Suite, signer: Signer, server: Server, b: Batch)
    requires SigningVerifies(s, signer) && GoodBatch(b) && server.mint <= b.midpoint <= server.maxt
    ensures Encodable(Srep(s, b))
    ensures
      var srep := Encode(Srep(s, b));
      Replies(s, Delegation(signer.publicKey(server.onlineSecret), server.mint, server.maxt), srep,
              signer.sign(server.onlineSecret, RESPONSE_CONTEXT + srep),
              SignedReply(TreeRoot(s.sha512, b.depth, b.leaves), b.midpoint),
              ReplyEvidence(Srep(s, b), b.radius))
  {
    hide Encode, Encodable, Lookup, TreeRoot;
    SrepEncodable(s, b);
    LookupInOrder(Srep(s, b), 0);
    LookupInOrder(Srep(s, b), 1);
    LookupInOrder(Srep(s, b), 2);
  }

  lemma HonestInclusion(s: Suite, signer: Signer, server: Server, b: Batch, index: u32)
    requires GoodBatch(b) && index < |b.leaves|
    ensures Includes(s, Response(s, signer, server, b, index), b.leaves[index],
                     TreeRoot(s.sha512, b.depth, b.leaves),
                     PathEvidence(index, TreePath(s.sha512, b.depth, b.leaves, index)))
  {
    hide Encode, Encodable, Lookup, TreeRoot, TreePath, Climb, Concat, Cut, Srep, Cert;
    var resp := Response(s, signer, server, b, index);
    PathLeadsToRoot(s.sha512, b.depth, b.leaves, index);
    LookupInOrder(resp, 1);
    LookupInOrder(resp, 4);
  }

  /** Completeness end to end: every client of an honest batch accepts its response, with the signed midpoint. */
  lemma HonestResponseAccepted(s: Suite, signer: Signer, server: Server, b: Batch, index: u32, pubkey: string)
    requires SigningVerifies(s, signer)
    requires s.decodeBase64(pubkey) == Some(signer.publicKey(server.rootSecret))
    requires GoodBatch(b) && index < |b.leaves| && PathFits(b.depth)
    requires server.mint <= b.midpoint <= server.maxt
    ensures Encodable(Response(s, signer, server, b, index))
    ensures Verdict(s, Encode(Response(s, signer, server, b, index)), b.leaves[index], pubkey) == Ok(b.midpoint)
  {
    hide Encode, Encodable, Lookup, Verdict, Delegates, Replies, Includes, Dele, Srep, Cert, TreeRoot, TreePath;
    hide Le32, Concat;
    var resp := Response(s, signer, server, b, index);
    ResponseEncodable(s, signer, server, b, index);
    HonestDelegation(s, signer, server, pubkey);
    HonestReply(s, signer, server, b);
    HonestInclusion(s, signer, server, b, index);
    LookupInOrder(resp, 0);
    LookupInOrder(resp, 2);
    LookupInOrder(resp, 3);
    var dele, srep := Encode(Dele(signer, server)), Encode(Srep(s, b));
    var root := TreeRoot(s.sha512, b.depth, b.leaves);
    assert Proves(s, Encode(resp), b.leaves[index], pubkey, b.midpoint,
                  Evidence(resp, Encode(Cert(signer, server)), srep,
                           signer.sign(server.onlineSecret, RESPONSE_CONTEXT + srep),
                           Delegation(signer.publicKey(server.onlineSecret), server.mint, server.maxt),
                           SignedReply(root, b.midpoint),
                           CertEvidence(Cert(signer, server), Dele(signer, server),
                                        signer.publicKey(server.rootSecret),
                                        signer.sign(server.rootSecret, DELEGATION_CONTEXT + dele)),
                           ReplyEvidence(Srep(s, b), b.radius),
                           PathEvidence(index, TreePath(s.sha512, b.depth, b.leaves, index))));
    ExactAcceptance(s, Encode(resp), b.leaves[index], pubkey, b.midpoint);
  }

  // ----- What an accepted response says about the server -----

  /** The delegation that the server has its root key sign. */
  ghost predicate IsSignedDelegation(signer: Signer, server: Server, message: seq<byte>) {
    Encodable(Dele(signer, server)) && message == DELEGATION_CONTEXT + Encode(Dele(signer, server))
  }

  /** The reply to a batch that the server has its online key sign. */
  ghost predicate IsSignedBatch(s: Suite, b: Batch, message: seq<byte>) {
    GoodBatch(b) && Encodable(Srep(s, b)) && message == RESPONSE_CONTEXT + Encode(Srep(s, b))
  }

  /** The certificate verifies under the client's root key, but for a delegation the server never signed. */
  ghost predicate ForgedDelegation(s: Suite, signer: Signer, server: Server, e: Evidence) {
    && Encodable(e.cert.dele)
    && s.verify(e.cert.rootKey, DELEGATION_CONTEXT + Encode(e.cert.dele), e.cert.sig)
    && !IsSignedDelegation(signer, server, DELEGATION_CONTEXT + Encode(e.cert.dele))
  }

  /** The reply verifies under the server's online key, but the server never signed it for any batch. */
  ghost predicate ForgedReply(s: Suite, signer: Signer, server: Server, batches: set<Batch>, e: Evidence) {
    && s.verify(signer.publicKey(server.onlineSecret), RESPONSE_CONTEXT + e.srepBytes, e.sig)
    && forall b | b in batches :: !IsSignedBatch(s, b, RESPONSE_CONTEXT + e.srepBytes)
  }

  ghost predicate Forged(s: Suite, signer: Signer, server: Server, batches: set<Batch>, e: Evidence) {
    ForgedDelegation(s, signer, server, e) || ForgedReply(s, signer, server, batches, e)
  }

  /**
   The nonce is the leaf of the batch at the index in the response, or the path in the response hands over
   two inputs with the same truncated hash.
   */
  ghost predicate AnswersNonce(s: Suite, b: Batch, nonce: Nonce, e: PathEvidence)
    requires GoodBatch(b)
  {
    match Disagreement(s.sha512, b.depth, b.leaves, nonce, e.index, e.path)
    case None => e.index < |b.leaves| && b.leaves[e.index] == nonce && |e.path| == b.depth
    case Some((x, y)) => x != y && Cut(s.sha512, x) == Cut(s.sha512, y)
  }

  /** The response is the server's answer to the nonce in one of its batches, or holds a collision. */
  ghost predicate Honest(
      s: Suite, server: Server, batches: set<Batch>, nonce: Nonce, midpoint: u64, e: Evidence)
  {
    && server.mint <= midpoint <= server.maxt
    && exists b | b in batches :: GoodBatch(b) && b.midpoint == midpoint && AnswersNonce(s, b, nonce, e.path)
  }

  lemma EncodeInjective(a: Message, b: Message)
    requires Encodable(a) && Encodable(b) && Encode(a) == Encode(b)
    ensures a == b
  {
    hide Encode, Encodable, Decode;
    DecodeEncode(a);
    DecodeEncode(b);
  }

  lemma PrefixCancels(context: seq<byte>, a: seq<byte>, b: seq<byte>)
    requires context + a == context + b
    ensures a == b
  {
    assert a == (context + a)[|context|..] && b == (context + b)[|context|..];
  }

  lemma DelegationPinned(
      s: Suite, signer: Signer, server: Server, certBytes: seq<byte>, pubkey: string, d: Delegation, e: CertEvidence)
    requires Delegates(s, certBytes, pubkey, d, e)
    requires IsSignedDelegation(signer, server, DELEGATION_CONTEXT + Encode(e.dele))
    ensures d == Delegation(signer.publicKey(server.onlineSecret), server.mint, server.maxt)
  {
    hide Encode, Encodable, Lookup, Le64;
    PrefixCancels(DELEGATION_CONTEXT, Encode(e.dele), Encode(Dele(signer, server)));
    EncodeInjective(e.dele, Dele(signer, server));
    LookupInOrder(e.dele, 0);
    LookupInOrder(e.dele, 1);
    LookupInOrder(e.dele, 2);
    assert FromLe64(Le64(d.mint)) == d.mint && FromLe64(Le64(d.maxt)) == d.maxt;
    assert FromLe64(Le64(server.mint)) == server.mint && FromLe64(Le64(server.maxt)) == server.maxt;
  }

  lemma ReplyPinned(
      s: Suite, d: Delegation, srepBytes: seq<byte>, sig: seq<byte>, reply: SignedReply, e: ReplyEvidence, b: Batch)
    requires Replies(s, d, srepBytes, sig, reply, e)
    requires IsSignedBatch(s, b, RESPONSE_CONTEXT + srepBytes)
    ensures reply == SignedReply(TreeRoot(s.sha512, b.depth, b.leaves), b.midpoint)
  {
    hide Encode, Encodable, Lookup, Le64, TreeRoot;
    PrefixCancels(RESPONSE_CONTEXT, srepBytes, Encode(Srep(s, b)));
    EncodeInjective(e.srep, Srep(s, b));
    LookupInOrder(e.srep, 1);
    LookupInOrder(e.srep, 2);
    assert FromLe64(Le64(reply.midpoint)) == reply.midpoint && FromLe64(Le64(b.midpoint)) == b.midpoint;
  }

  lemma UnforgedIsHonest(
      s: Suite, signer: Signer, server: Server, batches: set<Batch>, data: seq<byte>, nonce: Nonce, pubkey: string,
      midpoint: u64, e: Evidence)
    requires Proves(s, data, nonce, pubkey, midpoint, e) && !Forged(s, signer, server, batches, e)
    ensures Honest(s, server, batches, nonce, midpoint, e)
  {
    hide Encode, Encodable, Lookup, TreeRoot, Climb, Disagreement, Dele, Srep, Includes, IsSignedDelegation;
    DelegationPinned(s, signer, server, e.certBytes, pubkey, e.delegation, e.cert);
    var b :| b in batches && IsSignedBatch(s, b, RESPONSE_CONTEXT + e.srepBytes);
    ReplyPinned(s, e.delegation, e.srepBytes, e.sig, e.reply, e.srep, b);
    assert e.reply.root[..32] == TreeRoot(s.sha512, b.depth, b.leaves);
    AcceptedNonceIsInBatch(s, data, nonce, pubkey, midpoint, e, b.depth, b.leaves);
    assert AnswersNonce(s, b, nonce, e.path);
  }

  /**
   The converse of completeness, for any verifier, keys and response: an accepted midpoint is that of one of
   the server's batches, within the delegated interval, with the nonce in the batch at the index received;
   or what was received contains a forged signature, or a collision of the truncated hash.
   */
  lemma AcceptedIsHonest(
      s: Suite, signer: Signer, server: Server, batches: set<Batch>, data: seq<byte>, nonce: Nonce, pubkey: string,
      midpoint: u64)
    requires Verdict(s, data, nonce, pubkey) == Ok(midpoint)
    ensures exists e :: Proves(s, data, nonce, pubkey, midpoint, e)
                     && (Forged(s, signer, server, batches, e) || Honest(s, server, batches, nonce, midpoint, e))
  {
    hide Verdict, Proves, Forged, Honest;
    ExactAcceptance(s, data, nonce, pubkey, midpoint);
    var e :| Proves(s, data, nonce, pubkey, midpoint, e);
    if !Forged(s, signer, server, batches, e) {
      UnforgedIsHonest(s, signer, server, batches, data, nonce, pubkey, midpoint, e);
    }
  }

  /** And nothing in an honest response is forged: whatever evidence it is accepted on was signed by the server. */
  lemma HonestIsUnforged(
      s: Suite, signer: Signer, server: Server, batches: set<Batch>, b: Batch, index: u32, pubkey: string,
      midpoint: u64, e: Evidence)
    requires b in batches && GoodBatch(b) && index < |b.leaves| && PathFits(b.depth)
    requires Encodable(Response(s, signer, server, b, index))
    requires Proves(s, Encode(Response(s, signer, server, b, index)), b.leaves[index], pubkey, midpoint, e)
    ensures !Forged(s, signer, server, batches, e)
  {
    hide Encode, Encodable, Lookup, Le64, Le32, TreeRoot, TreePath, Includes, Climb, Dele, Srep;
    EncodeInjective(e.resp, Response(s, signer, server, b, index));
    LookupInOrder(e.resp, 2);
    LookupInOrder(e.resp, 3);
    SrepEncodable(s, b);
    assert IsSignedBatch(s, b, RESPONSE_CONTEXT + e.srepBytes);
    CertEncodable(signer, server);
    DeleEncodable(signer, server);
    EncodeInjective(e.cert.cert, Cert(signer, server));
    LookupInOrder(e.cert.cert, 1);
  }
}
