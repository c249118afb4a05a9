/** Padding, authenticated encryption and certificates of the DNSCrypt client in src/dns.rs. */
module DnsCrypt {
  import opened Bytes

  type Bytes8 = s: seq<byte> | |s| == 8 witness Zeros(8)
  type Bytes12 = s: seq<byte> | |s| == 12 witness Zeros(12)
  type Bytes16 = s: seq<byte> | |s| == 16 witness Zeros(16)
  type Bytes24 = s: seq<byte> | |s| == 24 witness Zeros(24)
  type Bytes32 = s: seq<byte> | |s| == 32 witness Zeros(32)

  // ----- Padding, ISO/IEC 7816-4 -----

  /** The padded length: a multiple of 64 with room for the marker. */
  function PaddedLength(len: nat, minLen: nat): nat {
    var target := if len + 1 < minLen then minLen else len + 1;
    if target % 64 != 0 then (target / 64 + 1) * 64 else target
  }

  /** A message behind the marker and any number of zeros. */
  function WithPadding(message: seq<byte>, zeros: nat): seq<byte> {
    message + [0x80] + Zeros(zeros)
  }

  function Pad(query: seq<byte>, minLen: nat): seq<byte> {
    PadsUp(|query|, minLen);
    WithPadding(query, PaddedLength(|query|, minLen) - |query| - 1)
  }

  method PadQuery(query: seq<byte>, minLen: nat) returns (padded: seq<byte>)
    ensures padded == Pad(query, minLen)
  {
    PadsUp(|query|, minLen);
    padded := query;
    padded := padded + [0x80];
    var targetLen := |padded|;
    if targetLen < minLen {
      targetLen := minLen;
    }
    if targetLen % 64 != 0 {
      targetLen := (targetLen / 64 + 1) * 64;
    }
    padded := padded + Zeros(targetLen - |padded|);
  }

  lemma PadsUp(len: nat, minLen: nat)
    ensures PaddedLength(len, minLen) >= len + 1
  {
  }

  /** The padded length is the least multiple of 64 that has room for the marker and reaches the minimum. */
  lemma PaddedLengthLeast(len: nat, minLen: nat, other: nat)
    ensures PaddedLength(len, minLen) % 64 == 0 && PaddedLength(len, minLen) >= len + 1
    ensures PaddedLength(len, minLen) >= minLen
    ensures other % 64 == 0 && other >= len + 1 && other >= minLen ==> PaddedLength(len, minLen) <= other
  {
    var target := if len + 1 < minLen then minLen else len + 1;
    if other % 64 == 0 && other >= target {
      MultipleAbove(target, other / 64);
    }
  }

  lemma MultipleAbove(target: nat, k: nat)
    requires 64 * k >= target
    ensures target % 64 != 0 ==> (target / 64 + 1) * 64 <= 64 * k
  {
    if target % 64 != 0 {
      assert 64 * (target / 64) < target;
    }
  }

  datatype CryptError = BadPadding | TooShort | BadTag

  function StripZeros(s: seq<byte>): seq<byte> {
    if s != [] && s[|s| - 1] == 0 then StripZeros(s[..|s| - 1]) else s
  }

  function Unpad(decrypted: seq<byte>): Result<seq<byte>, CryptError> {
    var s := StripZeros(decrypted);
    if s == [] || s[|s| - 1] != 0x80 then Err(BadPadding) else Ok(s[..|s| - 1])
  }

  method UnpadResponse(decrypted: seq<byte>) returns (r: Result<seq<byte>, CryptError>)
    ensures r == Unpad(decrypted)
  {
    var end := |decrypted|;
    assert decrypted[..end] == decrypted;
    while end > 0 && decrypted[end - 1] == 0
      invariant end <= |decrypted|
      invariant StripZeros(decrypted[..end]) == StripZeros(decrypted)
    {
      assert decrypted[..end][..end - 1] == decrypted[..end - 1];
      end := end - 1;
    }
    assert StripZeros(decrypted) == decrypted[..end];
    if end == 0 || decrypted[end - 1] != 0x80 {
      return Err(BadPadding);
    }
    assert decrypted[..end][..end - 1] == decrypted[..end - 1];
    r := Ok(decrypted[..end - 1]);
  }

  lemma {:induction false} StripZerosExact(s: seq<byte>)
    ensures |StripZeros(s)| <= |s| && s == StripZeros(s) + Zeros(|s| - |StripZeros(s)|)
    ensures StripZeros(s) == [] || StripZeros(s)[|StripZeros(s)| - 1] != 0
  {
    if s != [] && s[|s| - 1] == 0 {
      StripZerosExact(s[..|s| - 1]);
    }
  }

  lemma {:induction false} StripPadding(s: seq<byte>, zeros: nat)
    requires s != [] && s[|s| - 1] != 0
    ensures StripZeros(s + Zeros(zeros)) == s
  {
    if zeros == 0 {
      assert s + Zeros(0) == s;
    } else {
      StripPadding(s, zeros - 1);
      assert (s + Zeros(zeros))[..|s| + zeros - 1] == s + Zeros(zeros - 1);
    }
  }

  /** Unpadding accepts exactly the padded messages, with any number of zeros. */
  lemma UnpadExact(decrypted: seq<byte>, message: seq<byte>)
    ensures Unpad(decrypted) == Ok(message) <==> exists zeros: nat :: decrypted == WithPadding(message, zeros)
    ensures forall zeros: nat :: WithPadding(message, zeros) == message + [0x80] + seq(zeros, _ => 0)
  {
    if Unpad(decrypted) == Ok(message) {
      StripZerosExact(decrypted);
      var s := StripZeros(decrypted);
      assert s == message + [0x80];
      assert decrypted == WithPadding(message, |decrypted| - |s|);
    }
    if zeros: nat :| decrypted == WithPadding(message, zeros) {
      StripPadding(message + [0x80], zeros);
    }
  }

  lemma UnpadPad(query: seq<byte>, minLen: nat)
    ensures Unpad(Pad(query, minLen)) == Ok(query)
    ensures |Pad(query, minLen)| == PaddedLength(|query|, minLen)
  {
    PadsUp(|query|, minLen);
    UnpadExact(Pad(query, minLen), query);
  }

  // ----- Authenticated encryption, tag first -----

  /** XChaCha20 as an endless keystream, and Poly1305. */
  datatype Ciphers = Ciphers(
    keystream: (Bytes32, Bytes24) -> (nat -> byte),
    poly1305: (Bytes32, seq<byte>) -> Bytes16)

  function PolyKey(c: Ciphers, key: Bytes32, nonce: Bytes24): Bytes32 {
    var stream := seq<byte>(32, i requires 0 <= i < 32 => c.keystream(key, nonce)(i));
    assert |stream| == 32;
    stream
  }

  /** Exclusive or with the keystream behind the first 32 bytes. */
  function Mask(c: Ciphers, key: Bytes32, nonce: Bytes24, text: seq<byte>): (r: seq<byte>)
    ensures |r| == |text|
  {
    seq<byte>(|text|, i requires 0 <= i < |text| => Xor(text[i], c.keystream(key, nonce)(32 + i)))
  }

  function Seal(c: Ciphers, key: Bytes32, nonce: Bytes24, plaintext: seq<byte>): seq<byte> {
    var ciphertext := Mask(c, key, nonce, plaintext);
    c.poly1305(PolyKey(c, key, nonce), ciphertext) + ciphertext
  }

  function Open(c: Ciphers, key: Bytes32, nonce: Bytes24, sealed: seq<byte>): Result<seq<byte>, CryptError> {
    if |sealed| < 16 then Err(TooShort)
    else if c.poly1305(PolyKey(c, key, nonce), sealed[16..]) != sealed[..16] then Err(BadTag)
    else Ok(Mask(c, key, nonce, sealed[16..]))
  }

  /** A zeroed buffer of n bytes after the keystream was applied to it. */
  method Keystream(c: Ciphers, key: Bytes32, nonce: Bytes24, n: nat) returns (stream: seq<byte>)
    ensures |stream| == n && forall i | 0 <= i < n :: stream[i] == c.keystream(key, nonce)(i)
  {
    var buffer := new byte[n];
    for i := 0 to n
      invariant forall k | 0 <= k < i :: buffer[k] == c.keystream(key, nonce)(k)
    {
      buffer[i] := c.keystream(key, nonce)(i);
    }
    stream := buffer[..];
  }

  method Encrypt(c: Ciphers, key: Bytes32, nonce: Bytes24, plaintext: seq<byte>) returns (result: seq<byte>)
    ensures result == Seal(c, key, nonce, plaintext)
  {
    var keystream := Keystream(c, key, nonce, 32 + |plaintext|);
    var polyKey := keystream[..32];
    assert polyKey == PolyKey(c, key, nonce);

    var ciphertext := new byte[|plaintext|];
    for i := 0 to |plaintext|
      invariant forall k | 0 <= k < i :: ciphertext[k] == Xor(plaintext[k], c.keystream(key, nonce)(32 + k))
    {
      ciphertext[i] := Xor(plaintext[i], keystream[32 + i]);
    }
    assert ciphertext[..] == Mask(c, key, nonce, plaintext);
    var tag := c.poly1305(polyKey, ciphertext[..]);
    result := tag + ciphertext[..];
  }

  method Decrypt(c: Ciphers, key: Bytes32, nonce: Bytes24, ciphertextWithTag: seq<byte>)
    returns (r: Result<seq<byte>, CryptError>)
    ensures r == Open(c, key, nonce, ciphertextWithTag)
  {
    if |ciphertextWithTag| < 16 {
      return Err(TooShort);
    }
    var tag, ciphertext := ciphertextWithTag[..16], ciphertextWithTag[16..];
    var keystream := Keystream(c, key, nonce, 32 + |ciphertext|);
    var polyKey := keystream[..32];
    assert polyKey == PolyKey(c, key, nonce);
    var computedTag := c.poly1305(polyKey, ciphertext);
    if computedTag != tag {
      return Err(BadTag);
    }
    var plaintext := new byte[|ciphertext|];
    for i := 0 to |ciphertext|
      invariant forall k | 0 <= k < i :: plaintext[k] == Xor(ciphertext[k], c.keystream(key, nonce)(32 + k))
    {
      plaintext[i] := Xor(ciphertext[i], keystream[32 + i]);
    }
    assert plaintext[..] == Mask(c, key, nonce, ciphertext);
    r := Ok(plaintext[..]);
  }

  lemma MaskInvolution(c: Ciphers, key: Bytes32, nonce: Bytes24, text: seq<byte>)
    ensures Mask(c, key, nonce, Mask(c, key, nonce, text)) == text
  {
    hide Xor;
    forall i | 0 <= i < |text|
      ensures Mask(c, key, nonce, Mask(c, key, nonce, text))[i] == text[i]
    {
      XorInvolution(text[i], c.keystream(key, nonce)(32 + i));
    }
  }

  /** Opening accepts exactly what sealing produces: ciphertexts and plaintexts correspond one to one. */
  lemma OpenExact(c: Ciphers, key: Bytes32, nonce: Bytes24, sealed: seq<byte>, plaintext: seq<byte>)
    ensures Open(c, key, nonce, sealed) == Ok(plaintext) <==> sealed == Seal(c, key, nonce, plaintext)
  {
    hide Mask;
    MaskInvolution(c, key, nonce, plaintext);
    if |sealed| >= 16 {
      MaskInvolution(c, key, nonce, sealed[16..]);
      assert sealed == sealed[..16] + sealed[16..];
    }
  }

  /** What is sent is the tag over the masked text, keyed with the keystream's first 32 bytes, then that text. */
  lemma SealExact(c: Ciphers, key: Bytes32, nonce: Bytes24, plaintext: seq<byte>)
    ensures
      var sealed := Seal(c, key, nonce, plaintext);
      && |sealed| == 16 + |plaintext|
      && sealed[..16] == c.poly1305(seq<byte>(32, i requires 0 <= i < 32 => c.keystream(key, nonce)(i)), sealed[16..])
      && forall i, k | 0 <= i < |plaintext| && 0 <= k < 8 ::
           Bit(sealed[16 + i], k) == (Bit(plaintext[i], k) + Bit(c.keystream(key, nonce)(32 + i), k)) % 2
  {
    hide Xor, Bit;
    var sealed := Seal(c, key, nonce, plaintext);
    assert sealed[16..] == Mask(c, key, nonce, plaintext);
    forall i, k | 0 <= i < |plaintext| && 0 <= k < 8
      ensures Bit(sealed[16 + i], k) == (Bit(plaintext[i], k) + Bit(c.keystream(key, nonce)(32 + i), k)) % 2
    {
      assert sealed[16 + i] == Xor(plaintext[i], c.keystream(key, nonce)(32 + i));
      XorBit(plaintext[i], c.keystream(key, nonce)(32 + i), k);
    }
  }

  /** Sealed zeros show the keystream behind its first 32 bytes. */
  lemma SealedZeros(c: Ciphers, key: Bytes32, nonce: Bytes24, n: nat)
    ensures Seal(c, key, nonce, Zeros(n))[16..]
         == seq<byte>(n, i requires 0 <= i < n => c.keystream(key, nonce)(32 + i))
  {
    hide Xor;
    forall i | 0 <= i < n
      ensures Mask(c, key, nonce, Zeros(n))[i] == c.keystream(key, nonce)(32 + i)
    {
      XorZero(c.keystream(key, nonce)(32 + i));
    }
  }

  // ----- Certificates -----

  datatype DnscryptCert = DnscryptCert(
    resolverPk: Bytes32, clientMagic: Bytes8, serial: u32, tsStart: u32, tsEnd: u32)

  /** Ed25519 verification of a message under a provider key. */
  type Verifier = (Bytes32, seq<byte>, seq<byte>) -> bool

  const CERT_MAGIC: seq<byte> := [0x44, 0x4e, 0x53, 0x43] // DNSC
  const ES_VERSION: seq<byte> := [0x00, 0x02]

  /** The clock is believed, and the validity interval checked, only after this second. */
  const PLAUSIBLE_TIME := 1700000000

  predicate InInterval(now: nat, tsStart: u32, tsEnd: u32) {
    now > PLAUSIBLE_TIME ==> tsStart <= now <= tsEnd
  }

  method VerifyCert(verify: Verifier, cert: seq<byte>, providerPk: Bytes32, now: nat)
    returns (r: Option<DnscryptCert>)
    ensures r == Certified(verify, cert, providerPk, now)
  {
    hide FromBe32;
    if |cert| < 124 {
      return None;
    }
    if cert[0..4] != CERT_MAGIC {
      return None;
    }
    if cert[4..6] != ES_VERSION {
      return None;
    }
    if !verify(providerPk, cert[72..], cert[8..72]) {
      return None;
    }
    var serial := FromBe32(cert[112..116]);
    var tsStart := FromBe32(cert[116..120]);
    var tsEnd := FromBe32(cert[120..124]);
    if now > 1700000000 {
      if now < tsStart || now > tsEnd {
        return None;
      }
    }
    r := Some(DnscryptCert(cert[72..104], cert[104..112], serial, tsStart, tsEnd));
  }

  function Certified(verify: Verifier, cert: seq<byte>, providerPk: Bytes32, now: nat): Option<DnscryptCert> {
    if |cert| < 124 || cert[0..4] != CERT_MAGIC || cert[4..6] != ES_VERSION
       || !verify(providerPk, cert[72..], cert[8..72])
       || !InInterval(now, FromBe32(cert[116..120]), FromBe32(cert[120..124]))
    then None
    else Some(DnscryptCert(cert[72..104], cert[104..112], FromBe32(cert[112..116]), FromBe32(cert[116..120]),
                           FromBe32(cert[120..124])))
  }

  /** The signed part of a certificate, with its extensions. */
  function SignedPart(c: DnscryptCert, extensions: seq<byte>): seq<byte> {
    c.resolverPk + c.clientMagic + Be32(c.serial) + Be32(c.tsStart) + Be32(c.tsEnd) + extensions
  }

  datatype CertShell = CertShell(protocolMinor: seq<byte>, signature: seq<byte>, extensions: seq<byte>)

  function CertBytes(c: DnscryptCert, shell: CertShell): seq<byte> {
    CERT_MAGIC + ES_VERSION + shell.protocolMinor + shell.signature + SignedPart(c, shell.extensions)
  }

  ghost predicate Certifies(
      verify: Verifier, cert: seq<byte>, providerPk: Bytes32, now: nat, c: DnscryptCert, shell: CertShell)
  {
    && |shell.protocolMinor| == 2 && |shell.signature| == 64
    && cert == CertBytes(c, shell)
    && verify(providerPk, SignedPart(c, shell.extensions), shell.signature)
    && InInterval(now, c.tsStart, c.tsEnd)
  }

  lemma Be32FromBe32(s: seq<byte>)
    requires |s| == 4
    ensures Be32(FromBe32(s)) == s
  {
    BeFromBe(s);
  }

  lemma CertParts(c: DnscryptCert, shell: CertShell)
    requires |shell.protocolMinor| == 2 && |shell.signature| == 64
    ensures
      var cert := CertBytes(c, shell);
      && |cert| >= 124 && cert[0..4] == CERT_MAGIC == [0x44, 0x4e, 0x53, 0x43]
      && cert[4..6] == ES_VERSION == [0x00, 0x02] && cert[6..8] == shell.protocolMinor
      && cert[8..72] == shell.signature && cert[72..] == SignedPart(c, shell.extensions)
      && cert[72..104] == c.resolverPk && cert[104..112] == c.clientMagic
      && cert[112..116] == Be32(c.serial) && cert[116..120] == Be32(c.tsStart) && cert[120..124] == Be32(c.tsEnd)
  {
    hide Be32;
  }

  /** A certificate verifies exactly when it is a signed encoding of these fields whose interval holds now. */
  lemma CertExact(verify: Verifier, cert: seq<byte>, providerPk: Bytes32, now: nat, c: DnscryptCert)
    ensures Certified(verify, cert, providerPk, now) == Some(c) <==>
            exists shell :: Certifies(verify, cert, providerPk, now, c, shell)
  {
    hide FromBe32, Be32, CertBytes, SignedPart;
    if Certified(verify, cert, providerPk, now) == Some(c) {
      var shell := CertShell(cert[6..8], cert[8..72], cert[124..]);
      Be32FromBe32(cert[112..116]);
      Be32FromBe32(cert[116..120]);
      Be32FromBe32(cert[120..124]);
      CertWhole(cert, c, shell);
      assert Certifies(verify, cert, providerPk, now, c, shell);
    }
    if shell :| Certifies(verify, cert, providerPk, now, c, shell) {
      CertParts(c, shell);
    }
  }

  lemma CertWhole(cert: seq<byte>, c: DnscryptCert, shell: CertShell)
    requires |cert| >= 124 && cert[0..4] == CERT_MAGIC && cert[4..6] == ES_VERSION
    requires shell == CertShell(cert[6..8], cert[8..72], cert[124..])
    requires cert[72..104] == c.resolverPk && cert[104..112] == c.clientMagic
    requires cert[112..116] == Be32(c.serial) && cert[116..120] == Be32(c.tsStart) && cert[120..124] == Be32(c.tsEnd)
    ensures cert[72..] == SignedPart(c, shell.extensions) && cert == CertBytes(c, shell)
  {
    hide Be32;
    assert cert[72..] == SignedPart(c, shell.extensions);
  }

  /** Once the clock is plausible, a certificate is only taken from its first second to its last, both included. */
  lemma CertTimes(verify: Verifier, cert: seq<byte>, providerPk: Bytes32, now: nat, early: nat)
    requires now > 1700000000 && early <= 1700000000
    ensures
      var r := Certified(verify, cert, providerPk, now);
      r.Some? <==> Certified(verify, cert, providerPk, early).Some?
                   && FromBe32(cert[116..120]) <= now <= FromBe32(cert[120..124])
  {
    hide FromBe32;
  }

  // ----- Choice among certificates -----

  /** What the clock shows when candidate i is checked; it is read anew for each one. */
  type Clock = nat -> nat

  /** What the selection loop holds after the given candidates. */
  function Best(verify: Verifier, raws: seq<seq<byte>>, providerPk: Bytes32, clock: Clock): Option<DnscryptCert> {
    if raws == [] then None
    else
      var k := |raws| - 1;
      var best := Best(verify, raws[..k], providerPk, clock);
      match Certified(verify, raws[k], providerPk, clock(k))
      case None => best
      case Some(cert) => if best.None? || cert.serial > best.value.serial then Some(cert) else best
  }

  method SelectCert(verify: Verifier, certsRaw: seq<seq<byte>>, providerPk: Bytes32, clock: Clock)
    returns (bestCert: Option<DnscryptCert>)
    ensures bestCert == Best(verify, certsRaw, providerPk, clock)
  {
    hide Certified;
    bestCert := None;
    for k := 0 to |certsRaw|
      invariant bestCert == Best(verify, certsRaw[..k], providerPk, clock)
    {
      assert certsRaw[..k + 1][..k] == certsRaw[..k];
      var verified := VerifyCert(verify, certsRaw[k], providerPk, clock(k));
      if verified.Some? {
        var cert := verified.value;
        if bestCert.Some? {
          if cert.serial > bestCert.value.serial {
            bestCert := Some(cert);
          }
        } else {
          bestCert := Some(cert);
        }
      }
    }
    assert certsRaw[..|certsRaw|] == certsRaw;
  }

  /** The serial number of a candidate that verifies, and -1 for any other. */
  function SerialOf(verify: Verifier, raw: seq<byte>, providerPk: Bytes32, now: nat): int {
    match Certified(verify, raw, providerPk, now)
    case None => -1
    case Some(cert) => cert.serial
  }

  function Serials(verify: Verifier, raws: seq<seq<byte>>, providerPk: Bytes32, clock: Clock): (serials: seq<int>)
    ensures |serials| == |raws|
  {
    seq(|raws|, i requires 0 <= i < |raws| => SerialOf(verify, raws[i], providerPk, clock(i)))
  }

  /** Candidate i verifies, none has a greater serial, and none before it has the same. */
  predicate Chosen(serials: seq<int>, i: nat) {
    && i < |serials| && serials[i] >= 0
    && (forall j | 0 <= j < i :: serials[j] < serials[i])
    && (forall j | i <= j < |serials| :: serials[j] <= serials[i])
  }

  predicate NoneVerifies(serials: seq<int>) {
    forall j | 0 <= j < |serials| :: serials[j] < 0
  }

  /** Where the loop stands after the last candidate, given where it stood before. */
  lemma ChosenStep(serials: seq<int>, i: nat)
    requires serials != [] && Chosen(serials[..|serials| - 1], i)
    ensures Chosen(serials, if serials[|serials| - 1] > serials[i] then |serials| - 1 else i)
  {
    assert forall j | 0 <= j < |serials| - 1 :: serials[j] == serials[..|serials| - 1][j];
  }

  lemma SerialsLast(verify: Verifier, raws: seq<seq<byte>>, providerPk: Bytes32, clock: Clock)
    requires raws != []
    ensures
      var k, serials := |raws| - 1, Serials(verify, raws, providerPk, clock);
      && serials[..k] == Serials(verify, raws[..k], providerPk, clock)
      && serials[k] == SerialOf(verify, raws[k], providerPk, clock(k))
  {
  }

  /** The index of what the loop ends with. */
  lemma {:induction false} BestIndex(verify: Verifier, raws: seq<seq<byte>>, providerPk: Bytes32, clock: Clock)
    returns (i: nat)
    ensures
      var serials := Serials(verify, raws, providerPk, clock);
      match Best(verify, raws, providerPk, clock)
      case None => NoneVerifies(serials)
      case Some(cert) => Chosen(serials, i) && Certified(verify, raws[i], providerPk, clock(i)) == Some(cert)
  {
    hide Certified, Chosen;
    i := 0;
    if raws != [] {
      var k := |raws| - 1;
      var serials := Serials(verify, raws, providerPk, clock);
      hide Serials, NoneVerifies;
      SerialsLast(verify, raws, providerPk, clock);
      i := BestIndex(verify, raws[..k], providerPk, clock);
      if Best(verify, raws[..k], providerPk, clock).Some? {
        assert i < k by {
          ChosenInside(serials[..k], i);
        }
        ChosenStep(serials, i);
        if serials[k] > serials[i] {
          i := k;
        }
      } else if serials[k] >= 0 {
        FirstChosen(serials);
        i := k;
      }
    }
  }

  lemma ChosenInside(serials: seq<int>, i: nat)
    requires Chosen(serials, i)
    ensures i < |serials| && serials[i] >= 0
  {
  }

  lemma FirstChosen(serials: seq<int>)
    requires serials != [] && NoneVerifies(serials[..|serials| - 1]) && serials[|serials| - 1] >= 0
    ensures Chosen(serials, |serials| - 1)
  {
    assert forall j | 0 <= j < |serials| - 1 :: serials[j] == serials[..|serials| - 1][j];
  }

  lemma ChosenUnique(serials: seq<int>, i: nat, j: nat)
    requires Chosen(serials, i) && Chosen(serials, j)
    ensures i == j
  {
  }

  /**
   The loop ends with the verified certificate of greatest serial, the earliest on ties, and with none
   exactly when none verifies.
   */
  lemma BestExact(verify: Verifier, raws: seq<seq<byte>>, providerPk: Bytes32, clock: Clock)
    ensures
      var serials, best := Serials(verify, raws, providerPk, clock), Best(verify, raws, providerPk, clock);
      && (best.None? <==> NoneVerifies(serials))
      && (forall i: nat | Chosen(serials, i) :: best == Certified(verify, raws[i], providerPk, clock(i)))
      && (best.Some? ==> exists i: nat :: Chosen(serials, i))
  {
    hide Best, Certified;
    var serials := Serials(verify, raws, providerPk, clock);
    var b := BestIndex(verify, raws, providerPk, clock);
    forall i: nat | Chosen(serials, i)
      ensures Best(verify, raws, providerPk, clock) == Certified(verify, raws[i], providerPk, clock(i))
    {
      if Best(verify, raws, providerPk, clock).Some? {
        ChosenUnique(serials, i, b);
      }
    }
  }
}
