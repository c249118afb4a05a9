/** A DNSCrypt session of src/dns.rs: how it is established, and the exchange of a query and its response. */
module DnsExchange {
  import opened Bytes
  import opened DnsMessage
  import opened DnsEncoding
  import opened DnsCrypt

  // ----- One exchange -----

  datatype Session = Session(resolver: nat, clientPk: Bytes32, clientMagic: Bytes8, sharedKey: Bytes32, tsEnd: u32)

  datatype ResolveError =
    | NoResponse
    | ResponseTooShort
    | InvalidMagic
    | NonceMismatch
    | Undecryptable(error: CryptError)
    | NoARecord

  const RESOLVER_MAGIC: seq<byte> := [0x72, 0x36, 0x66, 0x6e, 0x76, 0x57, 0x6a, 0x38]

  const MIN_QUERY := 1024

  function QueryNonce(clientNonce: Bytes12): Bytes24 {
    clientNonce + Zeros(12)
  }

  function RequestPacket(c: Ciphers, session: Session, domain: seq<byte>, clientNonce: Bytes12): seq<byte> {
    session.clientMagic + session.clientPk + clientNonce
    + Seal(c, session.sharedKey, QueryNonce(clientNonce), Pad(Query(domain, TYPE_A), MIN_QUERY))
  }

  function Decrypted(r: Result<seq<byte>, CryptError>): Result<seq<byte>, ResolveError> {
    match r
    case Ok(v) => Ok(v)
    case Err(e) => Err(Undecryptable(e))
  }

  function AcceptResponse(c: Ciphers, session: Session, clientNonce: Bytes12, packet: seq<byte>)
    : Result<seq<byte>, ResolveError>
  {
    if |packet| < 32 then Err(ResponseTooShort)
    else if packet[0..8] != RESOLVER_MAGIC then Err(InvalidMagic)
    else if packet[8..20] != clientNonce then Err(NonceMismatch)
    else
      var decrypted :- Decrypted(Open(c, session.sharedKey, packet[8..32], packet[32..]));
      var unpadded :- Decrypted(Unpad(decrypted));
      ParseA(unpadded).OkOr(NoARecord)
  }

  /** The network answers a request, or does not. */
  type Network = seq<byte> -> Option<seq<byte>>

  method ResolveDomain(c: Ciphers, session: Session, domain: seq<byte>, clientNonce: Bytes12, network: Network)
    returns (r: Result<seq<byte>, ResolveError>)
    ensures
      match network(RequestPacket(c, session, domain, clientNonce))
      case None => r == Err(NoResponse)
      case Some(packet) => r == AcceptResponse(c, session, clientNonce, packet)
  {
    hide Seal, Pad, Query, Open, Unpad, ParseA;
    var clientQuery := BuildARecordQuery(domain);
    var paddedQuery := PadQuery(clientQuery, 1024);
    var queryNonce := clientNonce + Zeros(12);
    var encryptedQuery := Encrypt(c, session.sharedKey, queryNonce, paddedQuery);
    var requestPacket := session.clientMagic;
    requestPacket := requestPacket + session.clientPk;
    requestPacket := requestPacket + clientNonce;
    requestPacket := requestPacket + encryptedQuery;
    assert requestPacket == RequestPacket(c, session, domain, clientNonce);

    var answer := network(requestPacket);
    if answer.None? {
      return Err(NoResponse);
    }
    var responsePacket := answer.value;
    if |responsePacket| < 32 {
      return Err(ResponseTooShort);
    }
    if responsePacket[0..8] != RESOLVER_MAGIC {
      return Err(InvalidMagic);
    }
    var respNonce := responsePacket[8..32];
    if respNonce[0..12] != clientNonce {
      assert respNonce[0..12] == responsePacket[8..20];
      return Err(NonceMismatch);
    }
    assert respNonce[0..12] == responsePacket[8..20];
    var decrypted := Decrypt(c, session.sharedKey, respNonce, responsePacket[32..]);
    if decrypted.Err? {
      return Err(Undecryptable(decrypted.error));
    }
    var unpadded := UnpadResponse(decrypted.value);
    if unpadded.Err? {
      return Err(Undecryptable(unpadded.error));
    }
    var ip := ParseDnsResponse(unpadded.value);
    r := ip.OkOr(NoARecord);
  }

  /** What a resolver with the shared key makes of a packet: it slices, decrypts and unpads. */
  function ResolverOpens(c: Ciphers, sharedKey: Bytes32, packet: seq<byte>): Result<seq<byte>, CryptError> {
    if |packet| < 52 then Err(TooShort)
    else
      var padded :- Open(c, sharedKey, packet[40..52] + Zeros(12), packet[52..]);
      Unpad(padded)
  }

  /** The resolver recovers exactly the query of the client, and its key and magic in the clear. */
  lemma RequestDelivered(c: Ciphers, session: Session, domain: seq<byte>, clientNonce: Bytes12)
    ensures
      var packet := RequestPacket(c, session, domain, clientNonce);
      && |packet| >= 52
      && packet[..8] == session.clientMagic && packet[8..40] == session.clientPk
      && ResolverOpens(c, session.sharedKey, packet) == Ok(Query(domain, TYPE_A))
  {
    hide Seal, Open, Pad, Unpad, Query;
    var query := Query(domain, TYPE_A);
    var padded := Pad(query, MIN_QUERY);
    var sealed := Seal(c, session.sharedKey, QueryNonce(clientNonce), padded);
    var packet := RequestPacket(c, session, domain, clientNonce);
    assert packet[40..52] == clientNonce && packet[52..] == sealed;
    OpenExact(c, session.sharedKey, QueryNonce(clientNonce), sealed, padded);
    UnpadPad(query, MIN_QUERY);
  }

  /** The request has 68 bytes of header and tag, then at least 1024 bytes of padded query, in blocks of 64. */
  lemma RequestSize(c: Ciphers, session: Session, domain: seq<byte>, clientNonce: Bytes12)
    ensures
      var size := |RequestPacket(c, session, domain, clientNonce)|;
      && size >= 68 + 1024 && (size - 68) % 64 == 0
      && (|Query(domain, TYPE_A)| < 1024 ==> size == 68 + 1024)
  {
    hide Mask, Query, PaddedLength;
    var query := Query(domain, TYPE_A);
    PaddedLengthLeast(|query|, MIN_QUERY, 1024);
    PadsUp(|query|, MIN_QUERY);
  }

  /** The client's nonce is extended by the resolver with twelve bytes of its own. */
  function ResponseNonce(clientNonce: Bytes12, extension: Bytes12): Bytes24 {
    clientNonce + extension
  }

  function ResponsePacket(
      c: Ciphers, sharedKey: Bytes32, clientNonce: Bytes12, extension: Bytes12, message: seq<byte>, zeros: nat)
    : seq<byte>
  {
    RESOLVER_MAGIC + ResponseNonce(clientNonce, extension)
    + Seal(c, sharedKey, ResponseNonce(clientNonce, extension), WithPadding(message, zeros))
  }

  /** The packet is the sealed form of some padded message whose first A record, as walked, is this address. */
  ghost predicate Carries(c: Ciphers, session: Session, clientNonce: Bytes12, packet: seq<byte>, ip: seq<byte>) {
    exists extension: Bytes12, message, zeros: nat ::
      packet == ResponsePacket(c, session.sharedKey, clientNonce, extension, message, zeros)
      && ParseA(message) == Some(ip)
  }

  lemma ResponseParts(
      c: Ciphers, sharedKey: Bytes32, clientNonce: Bytes12, extension: Bytes12, message: seq<byte>, zeros: nat)
    ensures
      var nonce := ResponseNonce(clientNonce, extension);
      var packet := ResponsePacket(c, sharedKey, clientNonce, extension, message, zeros);
      && |packet| >= 32 && packet[8..20] == clientNonce
      && packet[0..8] == RESOLVER_MAGIC == [0x72, 0x36, 0x66, 0x6e, 0x76, 0x57, 0x6a, 0x38]
      && packet[8..32] == nonce && packet[32..] == Seal(c, sharedKey, nonce, WithPadding(message, zeros))
  {
    hide Seal, WithPadding;
    var packet := ResponsePacket(c, sharedKey, clientNonce, extension, message, zeros);
    assert packet[8..20] == packet[8..32][..12];
  }

  /** Every honest reply, whatever the resolver's nonce bytes and padding, is taken for its first A record. */
  lemma ResponseAccepted(
      c: Ciphers, session: Session, clientNonce: Bytes12, extension: Bytes12, message: seq<byte>, zeros: nat)
    ensures AcceptResponse(c, session, clientNonce,
                           ResponsePacket(c, session.sharedKey, clientNonce, extension, message, zeros))
         == ParseA(message).OkOr(NoARecord)
  {
    hide Seal, Open, Unpad, ParseA, WithPadding, ResponsePacket;
    var nonce := ResponseNonce(clientNonce, extension);
    var padded := WithPadding(message, zeros);
    ResponseParts(c, session.sharedKey, clientNonce, extension, message, zeros);
    OpenExact(c, session.sharedKey, nonce, Seal(c, session.sharedKey, nonce, padded), padded);
    UnpadExact(padded, message);
  }

  /** And nothing else is accepted. */
  lemma ExchangeExact(c: Ciphers, session: Session, clientNonce: Bytes12, packet: seq<byte>, ip: seq<byte>)
    ensures AcceptResponse(c, session, clientNonce, packet) == Ok(ip) <==> Carries(c, session, clientNonce, packet, ip)
  {
    hide Seal, Open, Unpad, ParseA, WithPadding;
    if AcceptResponse(c, session, clientNonce, packet) == Ok(ip) {
      var nonce: Bytes24 := packet[8..32];
      var padded := Open(c, session.sharedKey, nonce, packet[32..]).value;
      var message := Unpad(padded).value;
      OpenExact(c, session.sharedKey, nonce, packet[32..], padded);
      UnpadExact(padded, message);
      var zeros: nat :| padded == WithPadding(message, zeros);
      var extension: Bytes12 := packet[20..32];
      assert nonce == ResponseNonce(clientNonce, extension);
      assert packet == packet[0..8] + packet[8..32] + packet[32..];
      assert packet == ResponsePacket(c, session.sharedKey, clientNonce, extension, message, zeros);
    }
    if Carries(c, session, clientNonce, packet, ip) {
      var extension: Bytes12, message, zeros: nat :|
        packet == ResponsePacket(c, session.sharedKey, clientNonce, extension, message, zeros)
        && ParseA(message) == Some(ip);
      ResponseAccepted(c, session, clientNonce, extension, message, zeros);
    }
  }

  /** An encoded response resolves to its first A record, if the answers are aligned up to it. */
  lemma ReplyResolved(
      c: Ciphers, session: Session, clientNonce: Bytes12, extension: Bytes12, reply: Reply, zeros: nat)
    requires GoodReply(reply) && AlignedUpToA(reply.answers)
    ensures AcceptResponse(c, session, clientNonce,
                           ResponsePacket(c, session.sharedKey, clientNonce, extension, ReplyBytes(reply), zeros))
         == FirstA(reply.answers).OkOr(NoARecord)
  {
    hide AcceptResponse, ResponsePacket, ParseA, ReplyBytes;
    ResponseAccepted(c, session, clientNonce, extension, ReplyBytes(reply), zeros);
    ParseAExact(reply);
  }

  // ----- Establishing a session -----

  /** X25519 with its failures, and HChaCha20 with a zero input. */
  datatype Agreement = Agreement(
    publicKey: Bytes32 -> Bytes32,
    agree: (Bytes32, Bytes32) -> Option<Bytes32>,
    hchacha20: Bytes32 -> Bytes32)

  /** What is assumed of X25519: both sides of an agreement that succeeds get the same secret. */
  ghost predicate Agrees(a: Agreement) {
    forall x: Bytes32, y: Bytes32 :: a.agree(x, a.publicKey(y)) == a.agree(y, a.publicKey(x))
  }

  datatype EstablishError = KeyGenerationFailed | AgreementFailed | NoUsableResolver

  /** A hardcoded resolver: the name its certificates are published under, and its provider key. */
  datatype Resolver = Resolver(providerName: seq<byte>, providerPk: Bytes32)

  /**
   What the client meets on its way through the resolvers, by their number: the network towards each one, the
   clock while its certificates are checked, and the secret generated for it, if that succeeds.
   */
  datatype World = World(
    fetch: (nat, seq<byte>) -> Option<seq<byte>>,
    clock: nat -> Clock,
    secret: nat -> Option<Bytes32>)

  /** The texts that resolver i publishes under its name, none if it does not respond. */
  function Candidates(w: World, resolvers: seq<Resolver>, i: nat): seq<seq<byte>>
    requires i < |resolvers|
  {
    match w.fetch(i, Query(resolvers[i].providerName, TYPE_TXT))
    case None => []
    case Some(data) => ParseTxt(data)
  }

  /** The best certificate that resolver i publishes, if any. */
  function CertOf(verify: Verifier, w: World, resolvers: seq<Resolver>, i: nat): Option<DnscryptCert>
    requires i < |resolvers|
  {
    Best(verify, Candidates(w, resolvers, i), resolvers[i].providerPk, w.clock(i))
  }

  function SessionOf(a: Agreement, cert: DnscryptCert, i: nat, secret: Option<Bytes32>)
    : Result<Session, EstablishError>
  {
    var clientSk :- secret.OkOr(KeyGenerationFailed);
    var raw :- a.agree(clientSk, cert.resolverPk).OkOr(AgreementFailed);
    Ok(Session(i, a.publicKey(clientSk), cert.clientMagic, a.hchacha20(raw), cert.tsEnd))
  }

  /** The first resolver from i on with a usable certificate decides. */
  function Establish(verify: Verifier, w: World, a: Agreement, resolvers: seq<Resolver>, i: nat)
    : Result<Session, EstablishError>
    requires i <= |resolvers|
    decreases |resolvers| - i
  {
    if i == |resolvers| then Err(NoUsableResolver)
    else
      match CertOf(verify, w, resolvers, i)
      case Some(cert) => SessionOf(a, cert, i, w.secret(i))
      case None => Establish(verify, w, a, resolvers, i + 1)
  }

  lemma NothingIsBest(verify: Verifier, providerPk: Bytes32, clock: Clock)
    ensures Best(verify, [], providerPk, clock) == None
  {
  }

  method EstablishSession(verify: Verifier, w: World, a: Agreement, resolvers: seq<Resolver>)
    returns (r: Result<Session, EstablishError>)
    ensures r == Establish(verify, w, a, resolvers, 0)
  {
    hide ParseTxt, Best, Query;
    for i := 0 to |resolvers|
      invariant Establish(verify, w, a, resolvers, i) == Establish(verify, w, a, resolvers, 0)
    {
      var resolver := resolvers[i];
      var txtQuery := BuildTxtRecordQuery(resolver.providerName);
      var response := w.fetch(i, txtQuery);
      NothingIsBest(verify, resolver.providerPk, w.clock(i));
      if response.Some? {
        var certsRaw := ParseTxtResponse(response.value);
        var bestCert := SelectCert(verify, certsRaw, resolver.providerPk, w.clock(i));
        if bestCert.Some? {
          var cert := bestCert.value;
          var clientSk :- w.secret(i).OkOr(KeyGenerationFailed);
          var clientPk := a.publicKey(clientSk);
          var rawSharedSecret :- a.agree(clientSk, cert.resolverPk).OkOr(AgreementFailed);
          var sharedKey := a.hchacha20(rawSharedSecret);
          return Ok(Session(i, clientPk, cert.clientMagic, sharedKey, cert.tsEnd));
        }
      }
    }
    r := Err(NoUsableResolver);
  }

  /** A certificate that the loop chose was signed by the provider and held when it was checked. */
  lemma ChosenIsValid(verify: Verifier, raws: seq<seq<byte>>, providerPk: Bytes32, clock: Clock)
    requires Best(verify, raws, providerPk, clock).Some?
    ensures
      var cert := Best(verify, raws, providerPk, clock).value;
      exists i: nat, shell :: i < |raws| && Certifies(verify, raws[i], providerPk, clock(i), cert, shell)
  {
    hide Certified, Certifies, Best;
    var i := BestIndex(verify, raws, providerPk, clock);
    CertExact(verify, raws[i], providerPk, clock(i), Best(verify, raws, providerPk, clock).value);
  }

  /** A session comes from the first resolver that published a valid certificate, made from that certificate. */
  lemma {:induction false} SessionFromFirst(verify: Verifier, w: World, a: Agreement, resolvers: seq<Resolver>, i: nat)
    requires i <= |resolvers|
    ensures
      match Establish(verify, w, a, resolvers, i)
      case Ok(session) =>
        && i <= session.resolver < |resolvers|
        && (forall j: nat | i <= j < session.resolver :: CertOf(verify, w, resolvers, j).None?)
        && CertOf(verify, w, resolvers, session.resolver).Some?
        && var cert := CertOf(verify, w, resolvers, session.resolver).value;
           SessionOf(a, cert, session.resolver, w.secret(session.resolver)) == Ok(session)
      case Err(NoUsableResolver) => forall j: nat | i <= j < |resolvers| :: CertOf(verify, w, resolvers, j).None?
      case Err(error) =>
        exists j: nat | i <= j < |resolvers| ::
          && (forall k: nat | i <= k < j :: CertOf(verify, w, resolvers, k).None?)
          && CertOf(verify, w, resolvers, j).Some?
          && SessionOf(a, CertOf(verify, w, resolvers, j).value, j, w.secret(j)) == Err(error)
    decreases |resolvers| - i
  {
    hide CertOf;
    if i < |resolvers| && CertOf(verify, w, resolvers, i).None? {
      SessionFromFirst(verify, w, a, resolvers, i + 1);
    }
  }

  /** The session rests on a certificate of its resolver that the provider signed and that held when it was checked. */
  ghost predicate Backed(
      verify: Verifier, w: World, resolvers: seq<Resolver>, session: Session, cert: DnscryptCert, k: nat,
      shell: CertShell)
  {
    && session.resolver < |resolvers|
    && var raws := Candidates(w, resolvers, session.resolver);
    && k < |raws|
    && Certifies(verify, raws[k], resolvers[session.resolver].providerPk, w.clock(session.resolver)(k), cert, shell)
    && session.clientMagic == cert.clientMagic && session.tsEnd == cert.tsEnd
  }

  lemma SessionIsBacked(verify: Verifier, w: World, a: Agreement, resolvers: seq<Resolver>, session: Session)
    requires Establish(verify, w, a, resolvers, 0) == Ok(session)
    ensures exists cert, k, shell :: Backed(verify, w, resolvers, session, cert, k, shell)
  {
    hide Establish, Candidates, Certifies, Best;
    SessionFromFirst(verify, w, a, resolvers, 0);
    var i := session.resolver;
    var raws, pk := Candidates(w, resolvers, i), resolvers[i].providerPk;
    ChosenIsValid(verify, raws, pk, w.clock(i));
    var cert := Best(verify, raws, pk, w.clock(i)).value;
    var k: nat, shell :| k < |raws| && Certifies(verify, raws[k], pk, w.clock(i)(k), cert, shell);
    assert Backed(verify, w, resolvers, session, cert, k, shell);
  }

  /** What a resolver reads from a packet, with the key it derives from its secret and the sender's public key. */
  function ResolverServes(c: Ciphers, a: Agreement, resolverSecret: Bytes32, packet: seq<byte>): Option<seq<byte>> {
    if |packet| < 52 then None
    else
      var raw :- a.agree(resolverSecret, packet[8..40]);
      match ResolverOpens(c, a.hchacha20(raw), packet)
      case Ok(query) => Some(query)
      case Err(_) => None
  }

  /**
   From published certificates to a delivered query: the resolver that holds the secret behind the chosen
   certificate derives the session key from the request itself and reads the client's query.
   */
  lemma FirstQueryDelivered(
      verify: Verifier, w: World, c: Ciphers, a: Agreement, resolvers: seq<Resolver>, session: Session,
      resolverSecret: Bytes32, domain: seq<byte>, clientNonce: Bytes12)
    requires Agrees(a)
    requires Establish(verify, w, a, resolvers, 0) == Ok(session)
    requires session.resolver < |resolvers| && CertOf(verify, w, resolvers, session.resolver).Some?
    requires CertOf(verify, w, resolvers, session.resolver).value.resolverPk == a.publicKey(resolverSecret)
    ensures ResolverServes(c, a, resolverSecret, RequestPacket(c, session, domain, clientNonce))
         == Some(Query(domain, TYPE_A))
  {
    hide RequestPacket, ResolverOpens, Query, Establish, CertOf;
    SessionFromFirst(verify, w, a, resolvers, 0);
    RequestDelivered(c, session, domain, clientNonce);
  }

  /**
   From what a resolver publishes to the client's choice: of the payloads of its TXT records, however they are
   cut and whatever lies between them, the verified one of greatest serial, the earliest on ties, is chosen,
   and none exactly when no payload verifies.
   */
  lemma PublishedCertificates(
      verify: Verifier, w: World, resolvers: seq<Resolver>, i: nat, reply: Reply, cuts: seq<Published>)
    requires i < |resolvers| && GoodReply(reply) && AllAligned(reply.answers) && PublishesAll(reply.answers, cuts)
    requires w.fetch(i, Query(resolvers[i].providerName, TYPE_TXT)) == Some(ReplyBytes(reply))
    ensures
      var raws, pk, clock := Payloads(cuts), resolvers[i].providerPk, w.clock(i);
      var serials := Serials(verify, raws, pk, clock);
      && (CertOf(verify, w, resolvers, i).None? <==> NoneVerifies(serials))
      && (forall k: nat | Chosen(serials, k) ::
            CertOf(verify, w, resolvers, i) == Certified(verify, raws[k], pk, clock(k)))
  {
    hide ParseTxt, Best, Serials, Certified, TextsOf, ReplyBytes, Query, PublishesAll, Payloads;
    ParseTxtExact(reply);
    TextsOfCuts(reply.answers, cuts);
    BestExact(verify, Payloads(cuts), resolvers[i].providerPk, w.clock(i));
  }

  // ----- The cached session -----

  class CustomDnscryptResolver {
    var session: Option<Session>

    constructor ()
      ensures session == None
    {
      session := None;
    }

    /**
     Under the lock: a cached session that has not expired now is reused as it is; otherwise a new one is
     established, and cached only if that succeeds.
     */
    method GetOrEstablishSession(verify: Verifier, w: World, a: Agreement, resolvers: seq<Resolver>, now: nat)
      returns (r: Result<Session, EstablishError>)
      modifies this
      ensures old(session).Some? && now < old(session).value.tsEnd ==>
                r == Ok(old(session).value) && session == old(session)
      ensures !(old(session).Some? && now < old(session).value.tsEnd) ==>
                && r == Establish(verify, w, a, resolvers, 0)
                && session == (if r.Ok? then Some(r.value) else old(session))
                && (r.Ok? ==> exists cert, k, shell :: Backed(verify, w, resolvers, r.value, cert, k, shell))
      ensures r.Ok? ==> session == Some(r.value)
    {
      hide Establish, Backed;
      if session.Some? {
        if now < session.value.tsEnd {
          return Ok(session.value);
        }
      }
      r := EstablishSession(verify, w, a, resolvers);
      if r.Ok? {
        SessionIsBacked(verify, w, a, resolvers, r.value);
        session := Some(r.value);
      }
    }
  }
}
