/** Verification of a Roughtime response: `verify_roughtime_response` in src/time.rs. */
module Roughtime {
  import opened Bytes
  import opened RtMessage
  import opened Merkle

  const TAG_NONC: u32 := 0x434e4f4e
  const TAG_PAD: u32 := 0xff444150
  const TAG_CERT: u32 := 0x54524543
  const TAG_SIG: u32 := 0x00474953
  const TAG_SREP: u32 := 0x50455253
  const TAG_DELE: u32 := 0x454c4544
  const TAG_PUBK: u32 := 0x4b425550
  const TAG_MINT: u32 := 0x544e494d
  const TAG_MAXT: u32 := 0x5458414d
  const TAG_ROOT: u32 := 0x544f4f52
  const TAG_MIDP: u32 := 0x5044494d
  const TAG_RADI: u32 := 0x49444152
  const TAG_INDX: u32 := 0x58444e49
  const TAG_PATH: u32 := 0x48544150

  function Ascii(s: string): seq<byte> {
    seq<byte>(|s|, i requires 0 <= i < |s| => s[i] as int % 0x100)
  }

  const DELEGATION_CONTEXT := Ascii("RoughTime v1 delegation signature--") + [0x00]
  const RESPONSE_CONTEXT := Ascii("RoughTime v1 response signature") + [0x00]

  /** Four characters as a little-endian word. */
  function Spelled(a: char, b: char, c: char, d: char): int {
    a as int + 0x100 * b as int + 0x1_0000 * c as int + 0x100_0000 * d as int
  }

  lemma TagsSpell()
    ensures TAG_NONC == Spelled('N', 'O', 'N', 'C') && TAG_PAD == Spelled('P', 'A', 'D', '\U{ff}')
    ensures TAG_CERT == Spelled('C', 'E', 'R', 'T') && TAG_SIG == Spelled('S', 'I', 'G', '\0')
    ensures TAG_SREP == Spelled('S', 'R', 'E', 'P') && TAG_DELE == Spelled('D', 'E', 'L', 'E')
    ensures TAG_PUBK == Spelled('P', 'U', 'B', 'K') && TAG_ROOT == Spelled('R', 'O', 'O', 'T')
    ensures TAG_MINT == Spelled('M', 'I', 'N', 'T') && TAG_MAXT == Spelled('M', 'A', 'X', 'T')
    ensures TAG_MIDP == Spelled('M', 'I', 'D', 'P') && TAG_RADI == Spelled('R', 'A', 'D', 'I')
    ensures TAG_INDX == Spelled('I', 'N', 'D', 'X') && TAG_PATH == Spelled('P', 'A', 'T', 'H')
  {
  }

  lemma AsciiConcat(s: string, t: string)
    ensures Ascii(s + t) == Ascii(s) + Ascii(t)
  {
  }

  lemma AsciiIs(s: string, bytes: seq<byte>)
    requires |s| == |bytes| && forall i | 0 <= i < |s| :: s[i] as int == bytes[i]
    ensures Ascii(s) == bytes
  {
  }

  /** What the two keys sign begins with these bytes. */
  lemma DelegationContextBytes()
    ensures DELEGATION_CONTEXT ==
            [0x52, 0x6f, 0x75, 0x67, 0x68, 0x54, 0x69, 0x6d, 0x65, 0x20, 0x76, 0x31]
            + [0x20, 0x64, 0x65, 0x6c, 0x65, 0x67, 0x61, 0x74, 0x69, 0x6f, 0x6e, 0x20]
            + [0x73, 0x69, 0x67, 0x6e, 0x61, 0x74, 0x75, 0x72, 0x65, 0x2d, 0x2d] + [0x00]
  {
    hide Ascii;
    DelegationContextStart();
    AsciiIs("signature--", [0x73, 0x69, 0x67, 0x6e, 0x61, 0x74, 0x75, 0x72, 0x65, 0x2d, 0x2d]);
    AsciiConcat("RoughTime v1 delegation ", "signature--");
    assert "RoughTime v1 delegation " + "signature--" == "RoughTime v1 delegation signature--";
  }

  lemma DelegationContextStart()
    ensures Ascii("RoughTime v1 delegation ") ==
            [0x52, 0x6f, 0x75, 0x67, 0x68, 0x54, 0x69, 0x6d, 0x65, 0x20, 0x76, 0x31]
            + [0x20, 0x64, 0x65, 0x6c, 0x65, 0x67, 0x61, 0x74, 0x69, 0x6f, 0x6e, 0x20]
  {
    hide Ascii;
    AsciiIs("RoughTime v1", [0x52, 0x6f, 0x75, 0x67, 0x68, 0x54, 0x69, 0x6d, 0x65, 0x20, 0x76, 0x31]);
    AsciiIs(" delegation ", [0x20, 0x64, 0x65, 0x6c, 0x65, 0x67, 0x61, 0x74, 0x69, 0x6f, 0x6e, 0x20]);
    AsciiConcat("RoughTime v1", " delegation ");
    assert "RoughTime v1" + " delegation " == "RoughTime v1 delegation ";
  }

  lemma ResponseContextBytes()
    ensures RESPONSE_CONTEXT ==
            [0x52, 0x6f, 0x75, 0x67, 0x68, 0x54, 0x69, 0x6d, 0x65, 0x20, 0x76, 0x31]
            + [0x20, 0x72, 0x65, 0x73, 0x70, 0x6f, 0x6e, 0x73, 0x65, 0x20, 0x73, 0x69]
            + [0x67, 0x6e, 0x61, 0x74, 0x75, 0x72, 0x65] + [0x00]
  {
    hide Ascii;
    AsciiIs("RoughTime v1", [0x52, 0x6f, 0x75, 0x67, 0x68, 0x54, 0x69, 0x6d, 0x65, 0x20, 0x76, 0x31]);
    AsciiIs(" response si", [0x20, 0x72, 0x65, 0x73, 0x70, 0x6f, 0x6e, 0x73, 0x65, 0x20, 0x73, 0x69]);
    AsciiIs("gnature", [0x67, 0x6e, 0x61, 0x74, 0x75, 0x72, 0x65]);
    AsciiConcat("RoughTime v1", " response si");
    assert "RoughTime v1" + " response si" == "RoughTime v1 response si";
    AsciiConcat("RoughTime v1 response si", "gnature");
    assert "RoughTime v1 response si" + "gnature" == "RoughTime v1 response signature";
  }

  /** The library primitives; nothing is assumed about them beyond the types. */
  datatype Suite = Suite(
    sha512: Hash,
    verify: (seq<byte>, seq<byte>, seq<byte>) -> bool, // public key, message, signature
    decodeBase64: string -> Option<seq<byte>>)

  datatype Error =
    | InvalidMessage(outerTag: Option<u32>)
    | Missing(tag: u32)
    | InvalidSize(tag: u32)
    | BadRootKey
    | BadDelegationSignature
    | BadResponseSignature
    | NotValidAtMidpoint(midpoint: u64, mint: u64, maxt: u64)
    | RootMismatch
    | IndexOutOfBounds

  datatype Delegation = Delegation(onlineKey: seq<byte>, mint: u64, maxt: u64)
  datatype SignedReply = SignedReply(root: seq<byte>, midpoint: u64)

  // ----- The verdict as a function, stage by stage in the order of the checks -----

  function Sub(bytes: seq<byte>, outerTag: Option<u32>): (r: Result<Message, Error>)
    ensures r.Ok? ==> |r.value.tags| == |r.value.values|
  {
    Decode(bytes).OkOr(InvalidMessage(outerTag))
  }

  function Field(m: Message, tag: u32): Result<seq<byte>, Error>
    requires |m.tags| == |m.values|
  {
    Lookup(m, tag).OkOr(Missing(tag))
  }

  function Word64(bytes: seq<byte>, tag: u32): Result<u64, Error> {
    if |bytes| == 8 then Ok(FromLe64(bytes)) else Err(InvalidSize(tag))
  }

  function Word32(bytes: seq<byte>, tag: u32): Result<u32, Error> {
    if |bytes| == 4 then Ok(FromLe32(bytes)) else Err(InvalidSize(tag))
  }

  function CheckDelegation(s: Suite, certBytes: seq<byte>, pubkey: string): Result<Delegation, Error> {
    var cert :- Sub(certBytes, Some(TAG_CERT));
    var deleBytes :- Field(cert, TAG_DELE);
    var certSig :- Field(cert, TAG_SIG);
    var rootKey :- s.decodeBase64(pubkey).OkOr(BadRootKey);
    if !s.verify(rootKey, DELEGATION_CONTEXT + deleBytes, certSig) then Err(BadDelegationSignature)
    else
      var dele :- Sub(deleBytes, Some(TAG_DELE));
      var onlineKey :- Field(dele, TAG_PUBK);
      var mintBytes :- Field(dele, TAG_MINT);
      var maxtBytes :- Field(dele, TAG_MAXT);
      var mint :- Word64(mintBytes, TAG_MINT);
      var maxt :- Word64(maxtBytes, TAG_MAXT);
      Ok(Delegation(onlineKey, mint, maxt))
  }

  function CheckReply(s: Suite, d: Delegation, srepBytes: seq<byte>, sig: seq<byte>): Result<SignedReply, Error> {
    if !s.verify(d.onlineKey, RESPONSE_CONTEXT + srepBytes, sig) then Err(BadResponseSignature)
    else
      var srep :- Sub(srepBytes, Some(TAG_SREP));
      var root :- Field(srep, TAG_ROOT);
      var midpointBytes :- Field(srep, TAG_MIDP);
      var radiusBytes :- Field(srep, TAG_RADI);
      var midpoint :- Word64(midpointBytes, TAG_MIDP);
      var _ :- Word32(radiusBytes, TAG_RADI);
      if midpoint < d.mint || midpoint > d.maxt then Err(NotValidAtMidpoint(midpoint, d.mint, d.maxt))
      else Ok(SignedReply(root, midpoint))
  }

  function CheckInclusion(s: Suite, resp: Message, nonce: Nonce, root: seq<byte>): Result<(), Error>
    requires |resp.tags| == |resp.values|
  {
    var indexBytes :- Field(resp, TAG_INDX);
    var pathBytes :- Field(resp, TAG_PATH);
    var index :- Word32(indexBytes, TAG_INDX);
    var path := Chunks(pathBytes);
    if |pathBytes| % 32 != 0 then Err(InvalidSize(TAG_PATH))
    else if |root| < 32 then Err(InvalidSize(TAG_ROOT))
    else if Climb(s.sha512, nonce, index, path) != root[0..32] then Err(RootMismatch)
    else if Shift(index, |path|) != 0 then Err(IndexOutOfBounds)
    else Ok(())
  }

  function Verdict(s: Suite, data: seq<byte>, nonce: Nonce, pubkey: string): Result<u64, Error> {
    var resp :- Sub(data, None);
    var certBytes :- Field(resp, TAG_CERT);
    var srepBytes :- Field(resp, TAG_SREP);
    var sig :- Field(resp, TAG_SIG);
    var d :- CheckDelegation(s, certBytes, pubkey);
    var reply :- CheckReply(s, d, srepBytes, sig);
    var _ :- CheckInclusion(s, resp, nonce, reply.root);
    Ok(reply.midpoint)
  }

  // ----- The code -----

  method ParseOr(bytes: seq<byte>, outerTag: Option<u32>) returns (r: Result<Message, Error>)
    ensures r == Sub(bytes, outerTag)
  {
    var m := Parse(bytes);
    r := m.OkOr(InvalidMessage(outerTag));
  }

  method GetOr(m: Message, tag: u32) returns (r: Result<seq<byte>, Error>)
    requires |m.tags| == |m.values|
    ensures r == Field(m, tag)
  {
    var value := Get(m, tag);
    r := value.OkOr(Missing(tag));
  }

  method VerifyResponse(s: Suite, data: seq<byte>, nonce: Nonce, pubkey: string) returns (r: Result<u64, Error>)
    ensures r == Verdict(s, data, nonce, pubkey)
  {
    hide Decode, Lookup, FromLe32, FromLe64, Climb, Shift;
    var resp :- ParseOr(data, None);
    var certBytes :- GetOr(resp, TAG_CERT);
    var srepBytes :- GetOr(resp, TAG_SREP);
    var sigBytes :- GetOr(resp, TAG_SIG);

    // The delegation, signed with the root key
    var cert :- ParseOr(certBytes, Some(TAG_CERT));
    var deleBytes :- GetOr(cert, TAG_DELE);
    var certSigBytes :- GetOr(cert, TAG_SIG);
    var rootKey :- s.decodeBase64(pubkey).OkOr(BadRootKey);
    if !s.verify(rootKey, DELEGATION_CONTEXT + deleBytes, certSigBytes) {
      return Err(BadDelegationSignature);
    }
    var dele :- ParseOr(deleBytes, Some(TAG_DELE));
    var onlineKey :- GetOr(dele, TAG_PUBK);
    var mintBytes :- GetOr(dele, TAG_MINT);
    var maxtBytes :- GetOr(dele, TAG_MAXT);
    var mint :- Word64(mintBytes, TAG_MINT);
    var maxt :- Word64(maxtBytes, TAG_MAXT);
    ghost var d := Delegation(onlineKey, mint, maxt);
    assert CheckDelegation(s, certBytes, pubkey) == Ok(d);

    // The response, signed with the online key
    if !s.verify(onlineKey, RESPONSE_CONTEXT + srepBytes, sigBytes) {
      return Err(BadResponseSignature);
    }
    var srep :- ParseOr(srepBytes, Some(TAG_SREP));
    var rootHash :- GetOr(srep, TAG_ROOT);
    var midpointBytes :- GetOr(srep, TAG_MIDP);
    var radiusBytes :- GetOr(srep, TAG_RADI);
    var midpoint :- Word64(midpointBytes, TAG_MIDP);
    var _ :- Word32(radiusBytes, TAG_RADI);
    if midpoint < mint || midpoint > maxt {
      return Err(NotValidAtMidpoint(midpoint, mint, maxt));
    }
    assert CheckReply(s, d, srepBytes, sigBytes) == Ok(SignedReply(rootHash, midpoint));

    // The Merkle path
    var indexBytes :- GetOr(resp, TAG_INDX);
    var pathBytes :- GetOr(resp, TAG_PATH);
    var index :- Word32(indexBytes, TAG_INDX);
    if |pathBytes| % 32 != 0 {
      return Err(InvalidSize(TAG_PATH));
    }
    var currentHash, idx := FoldPath(s.sha512, nonce, index, pathBytes);
    if |rootHash| < 32 {
      return Err(InvalidSize(TAG_ROOT));
    }
    if currentHash != rootHash[0..32] {
      return Err(RootMismatch);
    }
    if idx != 0 {
      return Err(IndexOutOfBounds);
    }
    r := Ok(midpoint);
  }

  // ----- Exact acceptance -----

  ghost predicate IsEncoding(bytes: seq<byte>, m: Message) {
    Encodable(m) && Encode(m) == bytes
  }

  ghost predicate Has(m: Message, tag: u32, value: seq<byte>) {
    |m.tags| == |m.values| && Lookup(m, tag) == Some(value)
  }

  datatype CertEvidence = CertEvidence(cert: Message, dele: Message, rootKey: seq<byte>, sig: seq<byte>)

  /** The certificate delegates to the online key, for the interval it names, under the root key. */
  ghost predicate Delegates(s: Suite, certBytes: seq<byte>, pubkey: string, d: Delegation, e: CertEvidence) {
    && IsEncoding(certBytes, e.cert)
    && Encodable(e.dele)
    && Has(e.cert, TAG_DELE, Encode(e.dele))
    && Has(e.cert, TAG_SIG, e.sig)
    && s.decodeBase64(pubkey) == Some(e.rootKey)
    && s.verify(e.rootKey, DELEGATION_CONTEXT + Encode(e.dele), e.sig)
    && Has(e.dele, TAG_PUBK, d.onlineKey)
    && Has(e.dele, TAG_MINT, Le64(d.mint))
    && Has(e.dele, TAG_MAXT, Le64(d.maxt))
  }

  datatype ReplyEvidence = ReplyEvidence(srep: Message, radius: u32)

  /** The online key signed this root and midpoint, and the midpoint lies in the delegation's interval. */
  ghost predicate Replies(
      s: Suite, d: Delegation, srepBytes: seq<byte>, sig: seq<byte>, reply: SignedReply, e: ReplyEvidence)
  {
    && s.verify(d.onlineKey, RESPONSE_CONTEXT + srepBytes, sig)
    && IsEncoding(srepBytes, e.srep)
    && Has(e.srep, TAG_ROOT, reply.root)
    && Has(e.srep, TAG_MIDP, Le64(reply.midpoint))
    && Has(e.srep, TAG_RADI, Le32(e.radius))
    && d.mint <= reply.midpoint <= d.maxt
  }

  datatype PathEvidence = PathEvidence(index: u32, path: seq<Node>)

  /** The nonce is included under the root: the path leads there, and the index fits its length. */
  ghost predicate Includes(s: Suite, resp: Message, nonce: Nonce, root: seq<byte>, e: PathEvidence) {
    && Has(resp, TAG_INDX, Le32(e.index))
    && Has(resp, TAG_PATH, Concat(e.path))
    && e.index < Pow2(|e.path|)
    && |root| >= 32
    && Climb(s.sha512, nonce, e.index, e.path) == root[..32]
  }

  datatype Evidence = Evidence(
    resp: Message, certBytes: seq<byte>, srepBytes: seq<byte>, sig: seq<byte>, delegation: Delegation,
    reply: SignedReply, cert: CertEvidence, srep: ReplyEvidence, path: PathEvidence)

  ghost predicate Proves(s: Suite, data: seq<byte>, nonce: Nonce, pubkey: string, midpoint: u64, e: Evidence) {
    && IsEncoding(data, e.resp)
    && Has(e.resp, TAG_CERT, e.certBytes)
    && Has(e.resp, TAG_SREP, e.srepBytes)
    && Has(e.resp, TAG_SIG, e.sig)
    && Delegates(s, e.certBytes, pubkey, e.delegation, e.cert)
    && Replies(s, e.delegation, e.srepBytes, e.sig, e.reply, e.srep)
    && Includes(s, e.resp, nonce, e.reply.root, e.path)
    && midpoint == e.reply.midpoint
  }

  lemma Le64FromLe64(s: seq<byte>)
    requires |s| == 8
    ensures Le64(FromLe64(s)) == s
  {
    LeFromLe(s);
  }

  lemma Le32FromLe32(s: seq<byte>)
    requires |s| == 4
    ensures Le32(FromLe32(s)) == s
  {
    LeFromLe(s);
  }

  lemma {:induction false} ConcatChunks(path: seq<Node>)
    ensures |Concat(path)| == 32 * |path| && Chunks(Concat(path)) == path
  {
    if path != [] {
      var k := |path| - 1;
      ConcatChunks(path[..k]);
      assert forall i | 0 <= i < k :: Chunks(Concat(path))[i] == Chunks(Concat(path[..k]))[i];
      assert Chunks(Concat(path))[k] == path[k];
    }
  }

  lemma ChunksInit(bytes: seq<byte>, k: nat)
    requires |bytes| == 32 * k + 32
    ensures Chunks(bytes)[..k] == Chunks(bytes[..32 * k]) && bytes == bytes[..32 * k] + Chunks(bytes)[k]
  {
    var init := bytes[..32 * k];
    forall i | 0 <= i < k
      ensures Chunks(bytes)[i] == Chunks(init)[i]
    {
      assert init[32 * i..32 * i + 32] == bytes[32 * i..32 * i + 32];
    }
  }

  lemma {:induction false} ChunksConcat(bytes: seq<byte>)
    requires |bytes| % 32 == 0
    ensures Concat(Chunks(bytes)) == bytes
  {
    hide Chunks;
    if bytes != [] {
      var k := |bytes| / 32 - 1;
      ChunksConcat(bytes[..32 * k]);
      ChunksInit(bytes, k);
    }
  }

  lemma DelegationExact(s: Suite, certBytes: seq<byte>, pubkey: string, d: Delegation)
    ensures CheckDelegation(s, certBytes, pubkey) == Ok(d) <==>
            exists e :: Delegates(s, certBytes, pubkey, d, e)
  {
    hide Decode, Lookup, Encodable, Encode, FromLe64, Le64;
    if CheckDelegation(s, certBytes, pubkey) == Ok(d) {
      var cert := Decode(certBytes).value;
      var dele := Decode(Lookup(cert, TAG_DELE).value).value;
      CodecBijection(certBytes, cert);
      CodecBijection(Lookup(cert, TAG_DELE).value, dele);
      Le64FromLe64(Lookup(dele, TAG_MINT).value);
      Le64FromLe64(Lookup(dele, TAG_MAXT).value);
      var e := CertEvidence(cert, dele, s.decodeBase64(pubkey).value, Lookup(cert, TAG_SIG).value);
      assert Delegates(s, certBytes, pubkey, d, e);
    }
    if e :| Delegates(s, certBytes, pubkey, d, e) {
      CodecBijection(certBytes, e.cert);
      CodecBijection(Encode(e.dele), e.dele);
    }
  }

  lemma ReplyExact(s: Suite, d: Delegation, srepBytes: seq<byte>, sig: seq<byte>, reply: SignedReply)
    ensures CheckReply(s, d, srepBytes, sig) == Ok(reply) <==> exists e :: Replies(s, d, srepBytes, sig, reply, e)
  {
    hide Decode, Lookup, Encodable, Encode, FromLe64, Le64, FromLe32, Le32;
    if CheckReply(s, d, srepBytes, sig) == Ok(reply) {
      var srep := Decode(srepBytes).value;
      CodecBijection(srepBytes, srep);
      Le64FromLe64(Lookup(srep, TAG_MIDP).value);
      Le32FromLe32(Lookup(srep, TAG_RADI).value);
      var e := ReplyEvidence(srep, FromLe32(Lookup(srep, TAG_RADI).value));
      assert Replies(s, d, srepBytes, sig, reply, e);
    }
    if e :| Replies(s, d, srepBytes, sig, reply, e) {
      CodecBijection(srepBytes, e.srep);
    }
  }

  lemma InclusionExact(s: Suite, resp: Message, nonce: Nonce, root: seq<byte>)
    requires |resp.tags| == |resp.values|
    ensures CheckInclusion(s, resp, nonce, root).Ok? <==> exists e :: Includes(s, resp, nonce, root, e)
  {
    hide Lookup, FromLe32, Le32, Climb, Shift, Concat;
    if CheckInclusion(s, resp, nonce, root).Ok? {
      var index := FromLe32(Lookup(resp, TAG_INDX).value);
      var path := Chunks(Lookup(resp, TAG_PATH).value);
      Le32FromLe32(Lookup(resp, TAG_INDX).value);
      ChunksConcat(Lookup(resp, TAG_PATH).value);
      ShiftConsumes(index, |path|);
      assert Includes(s, resp, nonce, root, PathEvidence(index, path));
    }
    if e :| Includes(s, resp, nonce, root, e) {
      ConcatChunks(e.path);
      ShiftConsumes(e.index, |e.path|);
    }
  }

  /** The client accepts a midpoint exactly when the response proves it. */
  lemma ExactAcceptance(s: Suite, data: seq<byte>, nonce: Nonce, pubkey: string, midpoint: u64)
    ensures Verdict(s, data, nonce, pubkey) == Ok(midpoint) <==>
            exists e :: Proves(s, data, nonce, pubkey, midpoint, e)
  {
    hide Decode, Lookup, Encodable, Encode, CheckDelegation, CheckReply, CheckInclusion, Delegates, Replies, Includes;
    if Verdict(s, data, nonce, pubkey) == Ok(midpoint) {
      var resp := Decode(data).value;
      CodecBijection(data, resp);
      var certBytes, srepBytes, sig :=
        Lookup(resp, TAG_CERT).value, Lookup(resp, TAG_SREP).value, Lookup(resp, TAG_SIG).value;
      var d := CheckDelegation(s, certBytes, pubkey).value;
      DelegationExact(s, certBytes, pubkey, d);
      var reply := CheckReply(s, d, srepBytes, sig).value;
      ReplyExact(s, d, srepBytes, sig, reply);
      InclusionExact(s, resp, nonce, reply.root);
      var cert :| Delegates(s, certBytes, pubkey, d, cert);
      var srep :| Replies(s, d, srepBytes, sig, reply, srep);
      var path :| Includes(s, resp, nonce, reply.root, path);
      assert Proves(s, data, nonce, pubkey, midpoint,
                    Evidence(resp, certBytes, srepBytes, sig, d, reply, cert, srep, path));
    }
    if e :| Proves(s, data, nonce, pubkey, midpoint, e) {
      CodecBijection(data, e.resp);
      DelegationExact(s, e.certBytes, pubkey, e.delegation);
      ReplyExact(s, e.delegation, e.srepBytes, e.sig, e.reply);
      InclusionExact(s, e.resp, nonce, e.reply.root);
    }
  }

  // ----- Which check fails first -----

  /** The three parts of a response that are looked up before any is checked. */
  datatype Opened = Opened(resp: Message, certBytes: seq<byte>, srepBytes: seq<byte>, sig: seq<byte>)

  ghost predicate Opens(data: seq<byte>, o: Opened) {
    && IsEncoding(data, o.resp)
    && Has(o.resp, TAG_CERT, o.certBytes) && Has(o.resp, TAG_SREP, o.srepBytes) && Has(o.resp, TAG_SIG, o.sig)
  }

  /** Bytes that are no encoding are refused as such; then CERT, SREP and SIG are missed, in this order. */
  lemma ResponseErrors(s: Suite, data: seq<byte>, nonce: Nonce, pubkey: string)
    ensures (forall m :: !IsEncoding(data, m)) ==> Verdict(s, data, nonce, pubkey) == Err(InvalidMessage(None))
    ensures forall m | IsEncoding(data, m) ::
      && (TAG_CERT !in m.tags ==> Verdict(s, data, nonce, pubkey) == Err(Missing(TAG_CERT)))
      && (TAG_CERT in m.tags && TAG_SREP !in m.tags ==> Verdict(s, data, nonce, pubkey) == Err(Missing(TAG_SREP)))
      && (TAG_CERT in m.tags && TAG_SREP in m.tags && TAG_SIG !in m.tags ==>
            Verdict(s, data, nonce, pubkey) == Err(Missing(TAG_SIG)))
  {
    hide Decode, Lookup, Encode, CheckDelegation, CheckReply, CheckInclusion;
    if Decode(data).Some? {
      CodecBijection(data, Decode(data).value);
      assert IsEncoding(data, Decode(data).value);
    }
    forall m | IsEncoding(data, m)
      ensures Decode(data) == Some(m)
    {
      CodecBijection(data, m);
    }
    if Decode(data).Some? {
      var m := Decode(data).value;
      LookupIsFirst(m, TAG_CERT);
      LookupIsFirst(m, TAG_SREP);
      LookupIsFirst(m, TAG_SIG);
    }
  }

  /** Each stage has errors of its own. */
  lemma StageErrors(s: Suite, certBytes: seq<byte>, pubkey: string, d: Delegation, srepBytes: seq<byte>, sig: seq<byte>)
    ensures CheckReply(s, d, srepBytes, sig) != Err(BadDelegationSignature)
    ensures CheckDelegation(s, certBytes, pubkey).Err? ==>
              !CheckDelegation(s, certBytes, pubkey).error.BadResponseSignature?
  {
    hide Decode, Lookup, FromLe64, FromLe32;
  }

  lemma InclusionErrors(s: Suite, resp: Message, nonce: Nonce, root: seq<byte>)
    requires |resp.tags| == |resp.values|
    ensures
      var r := CheckInclusion(s, resp, nonce, root);
      r.Err? ==> r.error.Missing? || r.error.InvalidSize? || r.error.RootMismatch? || r.error.IndexOutOfBounds?
  {
    hide Lookup, Climb, Shift, FromLe32, Chunks;
  }

  /** Behind valid signatures or before any, each nested message must be an encoding. */
  lemma NestedErrors(s: Suite, data: seq<byte>, nonce: Nonce, pubkey: string, o: Opened)
    requires Opens(data, o)
    ensures (forall m :: !IsEncoding(o.certBytes, m)) ==>
              Verdict(s, data, nonce, pubkey) == Err(InvalidMessage(Some(TAG_CERT)))
    ensures forall cert, deleBytes, sig, rootKey ::
      && IsEncoding(o.certBytes, cert) && Has(cert, TAG_DELE, deleBytes) && Has(cert, TAG_SIG, sig)
      && s.decodeBase64(pubkey) == Some(rootKey) && s.verify(rootKey, DELEGATION_CONTEXT + deleBytes, sig)
      && (forall m :: !IsEncoding(deleBytes, m)) ==>
        Verdict(s, data, nonce, pubkey) == Err(InvalidMessage(Some(TAG_DELE)))
    ensures forall d, c ::
      && Delegates(s, o.certBytes, pubkey, d, c) && s.verify(d.onlineKey, RESPONSE_CONTEXT + o.srepBytes, o.sig)
      && (forall m :: !IsEncoding(o.srepBytes, m)) ==>
        Verdict(s, data, nonce, pubkey) == Err(InvalidMessage(Some(TAG_SREP)))
  {
    hide Decode, Lookup, Encodable, Encode, CheckDelegation, CheckReply, CheckInclusion, Delegates;
    CodecBijection(data, o.resp);
    NoEncoding(o.certBytes);
    NoEncoding(o.srepBytes);
    if forall m :: !IsEncoding(o.certBytes, m) {
      CertUnread(s, o.certBytes, pubkey);
    }
    forall cert, deleBytes, sig, rootKey |
      && IsEncoding(o.certBytes, cert) && Has(cert, TAG_DELE, deleBytes) && Has(cert, TAG_SIG, sig)
      && s.decodeBase64(pubkey) == Some(rootKey) && s.verify(rootKey, DELEGATION_CONTEXT + deleBytes, sig)
      && (forall m :: !IsEncoding(deleBytes, m))
      ensures CheckDelegation(s, o.certBytes, pubkey) == Err(InvalidMessage(Some(TAG_DELE)))
    {
      NoEncoding(deleBytes);
      CodecBijection(o.certBytes, cert);
      DeleUnread(s, o.certBytes, pubkey, cert, deleBytes, sig, rootKey);
    }
    forall d, c |
      && Delegates(s, o.certBytes, pubkey, d, c) && s.verify(d.onlineKey, RESPONSE_CONTEXT + o.srepBytes, o.sig)
      && (forall m :: !IsEncoding(o.srepBytes, m))
      ensures Verdict(s, data, nonce, pubkey) == Err(InvalidMessage(Some(TAG_SREP)))
    {
      DelegationExact(s, o.certBytes, pubkey, d);
      SrepUnread(s, d, o.srepBytes, o.sig);
    }
  }

  lemma NoEncoding(bytes: seq<byte>)
    ensures (forall m :: !IsEncoding(bytes, m)) ==> Decode(bytes) == None
  {
    hide Decode, Encodable, Encode;
    if Decode(bytes).Some? {
      CodecBijection(bytes, Decode(bytes).value);
      assert IsEncoding(bytes, Decode(bytes).value);
    }
  }

  lemma CertUnread(s: Suite, certBytes: seq<byte>, pubkey: string)
    requires Decode(certBytes) == None
    ensures CheckDelegation(s, certBytes, pubkey) == Err(InvalidMessage(Some(TAG_CERT)))
  {
    hide Decode;
  }

  lemma DeleUnread(
      s: Suite, certBytes: seq<byte>, pubkey: string, cert: Message, deleBytes: seq<byte>, sig: seq<byte>,
      rootKey: seq<byte>)
    requires Decode(certBytes) == Some(cert) && Has(cert, TAG_DELE, deleBytes) && Has(cert, TAG_SIG, sig)
    requires s.decodeBase64(pubkey) == Some(rootKey) && s.verify(rootKey, DELEGATION_CONTEXT + deleBytes, sig)
    requires Decode(deleBytes) == None
    ensures CheckDelegation(s, certBytes, pubkey) == Err(InvalidMessage(Some(TAG_DELE)))
  {
    hide Decode, Lookup;
  }

  lemma SrepUnread(s: Suite, d: Delegation, srepBytes: seq<byte>, sig: seq<byte>)
    requires s.verify(d.onlineKey, RESPONSE_CONTEXT + srepBytes, sig) && Decode(srepBytes) == None
    ensures CheckReply(s, d, srepBytes, sig) == Err(InvalidMessage(Some(TAG_SREP)))
  {
    hide Decode;
  }

  /** The first signature is that of the root key over the delegation. */
  lemma DelegationError(
      s: Suite, data: seq<byte>, nonce: Nonce, pubkey: string, o: Opened, cert: Message, deleBytes: seq<byte>,
      certSig: seq<byte>)
    requires Opens(data, o) && IsEncoding(o.certBytes, cert)
    requires Has(cert, TAG_DELE, deleBytes) && Has(cert, TAG_SIG, certSig) && s.decodeBase64(pubkey).Some?
    ensures Verdict(s, data, nonce, pubkey) == Err(BadDelegationSignature) <==>
            !s.verify(s.decodeBase64(pubkey).value, DELEGATION_CONTEXT + deleBytes, certSig)
  {
    hide Decode, Lookup, Encodable, Encode, CheckReply, CheckInclusion, FromLe64;
    CodecBijection(data, o.resp);
    CodecBijection(o.certBytes, cert);
    var checked := CheckDelegation(s, o.certBytes, pubkey);
    if checked.Ok? {
      StageErrors(s, o.certBytes, pubkey, checked.value, o.srepBytes, o.sig);
      var reply := CheckReply(s, checked.value, o.srepBytes, o.sig);
      if reply.Ok? {
        InclusionErrors(s, o.resp, nonce, reply.value.root);
      }
    }
  }

  /** The second is that of the delegated key over the reply. */
  lemma ReplyError(
      s: Suite, data: seq<byte>, nonce: Nonce, pubkey: string, o: Opened, d: Delegation, c: CertEvidence)
    requires Opens(data, o) && Delegates(s, o.certBytes, pubkey, d, c)
    ensures Verdict(s, data, nonce, pubkey) == Err(BadResponseSignature) <==>
            !s.verify(d.onlineKey, RESPONSE_CONTEXT + o.srepBytes, o.sig)
  {
    hide Decode, Lookup, Encodable, Encode, Delegates, CheckDelegation, CheckInclusion, FromLe64, FromLe32;
    CodecBijection(data, o.resp);
    DelegationExact(s, o.certBytes, pubkey, d);
    var reply := CheckReply(s, d, o.srepBytes, o.sig);
    if reply.Ok? {
      InclusionErrors(s, o.resp, nonce, reply.value.root);
    }
  }

  /** A signed midpoint outside the delegated interval is refused as such. */
  lemma IntervalError(
      s: Suite, data: seq<byte>, nonce: Nonce, pubkey: string, o: Opened, d: Delegation, c: CertEvidence,
      reply: SignedReply, e: ReplyEvidence)
    requires Opens(data, o) && Delegates(s, o.certBytes, pubkey, d, c)
    requires s.verify(d.onlineKey, RESPONSE_CONTEXT + o.srepBytes, o.sig) && IsEncoding(o.srepBytes, e.srep)
    requires Has(e.srep, TAG_ROOT, reply.root) && Has(e.srep, TAG_MIDP, Le64(reply.midpoint))
    requires Has(e.srep, TAG_RADI, Le32(e.radius))
    ensures Verdict(s, data, nonce, pubkey) == Err(NotValidAtMidpoint(reply.midpoint, d.mint, d.maxt)) <==>
            reply.midpoint < d.mint || d.maxt < reply.midpoint
  {
    hide Decode, Lookup, Encodable, Encode, Delegates, CheckDelegation, CheckInclusion, FromLe64, FromLe32, Le64, Le32;
    CodecBijection(data, o.resp);
    DelegationExact(s, o.certBytes, pubkey, d);
    CodecBijection(o.srepBytes, e.srep);
    InclusionErrors(s, o.resp, nonce, reply.root);
  }

  /** Behind all signatures, the path must lead to the signed root, and then the index must fit the path. */
  lemma PathErrors(
      s: Suite, data: seq<byte>, nonce: Nonce, pubkey: string, o: Opened, d: Delegation, c: CertEvidence,
      reply: SignedReply, r: ReplyEvidence, e: PathEvidence)
    requires Opens(data, o) && Delegates(s, o.certBytes, pubkey, d, c)
    requires Replies(s, d, o.srepBytes, o.sig, reply, r) && |reply.root| >= 32
    requires Has(o.resp, TAG_INDX, Le32(e.index)) && Has(o.resp, TAG_PATH, Concat(e.path))
    ensures Verdict(s, data, nonce, pubkey) ==
            if Climb(s.sha512, nonce, e.index, e.path) != reply.root[..32] then Err(RootMismatch)
            else if e.index >= Pow2(|e.path|) then Err(IndexOutOfBounds)
            else Ok(reply.midpoint)
  {
    hide Decode, Lookup, Encodable, Encode, Delegates, Replies, CheckDelegation, CheckReply, Climb, Shift, Concat;
    hide Le32, FromLe32, Chunks, Pow2;
    CodecBijection(data, o.resp);
    DelegationExact(s, o.certBytes, pubkey, d);
    ReplyExact(s, d, o.srepBytes, o.sig, reply);
    ConcatChunks(e.path);
    ShiftConsumes(e.index, |e.path|);
  }

  /**
   If the accepted root is that of a batch tree, then the nonce is in the batch at the proved index,
   or the response yields two inputs with the same truncated hash.
   */
  lemma AcceptedNonceIsInBatch(
      s: Suite, data: seq<byte>, nonce: Nonce, pubkey: string, midpoint: u64, e: Evidence,
      depth: nat, leaves: seq<Nonce>)
    requires Proves(s, data, nonce, pubkey, midpoint, e)
    requires |leaves| == Pow2(depth) && e.reply.root[..32] == TreeRoot(s.sha512, depth, leaves)
    ensures
      match Disagreement(s.sha512, depth, leaves, nonce, e.path.index, e.path.path)
      case None => e.path.index < |leaves| && leaves[e.path.index] == nonce && |e.path.path| == depth
      case Some((x, y)) => x != y && Cut(s.sha512, x) == Cut(s.sha512, y)
  {
    hide Delegates, Replies, Encode, Encodable, Disagreement, Climb, TreeRoot;
    Soundness(s.sha512, depth, leaves, nonce, e.path.index, e.path.path);
  }
}
