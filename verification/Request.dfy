/** Reading and parsing one attestation request: `handle_attestation_connection` in src/attestation.rs. */
module Request {
  import opened Bytes
  import opened Text

  const MAX_REQUEST := 8192
  const MAX_READ := 1024
  const END_OF_HEAD: seq<byte> := [13, 10, 13, 10]

  // ----- Reading -----

  /** How one read ends; reading nothing means end of stream. */
  datatype Read = Data(bytes: seq<byte>) | Broken | TimedOut

  datatype ReadResult = Buffered(buf: seq<byte>) | Dropped | IoError

  predicate HasEnd(buf: seq<byte>) {
    exists i :: 0 <= i <= |buf| - 4 && At(buf, i, END_OF_HEAD)
  }

  function ReadLoop(buf: seq<byte>, incoming: seq<Read>): ReadResult
    decreases |incoming|
  {
    if incoming == [] then Buffered(buf)
    else
      match incoming[0]
      case Broken => IoError
      case TimedOut => Dropped
      case Data(bytes) =>
        var more := buf + bytes;
        if bytes == [] then Buffered(buf)
        else if |more| > MAX_REQUEST then Dropped
        else if HasEnd(more) then Buffered(more)
        else ReadLoop(more, incoming[1..])
  }

  method ContainsEnd(buf: seq<byte>) returns (found: bool)
    ensures found <==> HasEnd(buf)
  {
    var i := 0;
    while i + 4 <= |buf|
      invariant 0 <= i
      invariant forall k | 0 <= k < i && k <= |buf| - 4 :: !At(buf, k, END_OF_HEAD)
    {
      if buf[i..i + 4] == [13, 10, 13, 10] {
        assert At(buf, i, END_OF_HEAD);
        return true;
      }
      i := i + 1;
    }
    found := false;
  }

  method ReadRequest(incoming: seq<Read>) returns (r: ReadResult)
    ensures r == ReadLoop([], incoming)
  {
    var buf: seq<byte> := [];
    for k := 0 to |incoming|
      invariant ReadLoop(buf, incoming[k..]) == ReadLoop([], incoming)
    {
      assert incoming[k..][1..] == incoming[k + 1..];
      match incoming[k]
      case Broken => return IoError;
      case TimedOut => return Dropped;
      case Data(bytes) =>
        if |bytes| == 0 {
          return Buffered(buf);
        }
        buf := buf + bytes;
        if |buf| > 8192 {
          return Dropped;
        }
        var found := ContainsEnd(buf);
        if found {
          return Buffered(buf);
        }
    }
    r := Buffered(buf);
  }

  // ----- Parsing -----

  /** `String::from_utf8_lossy`. */
  type Decoder = seq<byte> -> string

  /** What is assumed of it: newlines separate, and ASCII text stays as it is. */
  ghost predicate DecodesByLine(lossy: Decoder) {
    && (forall a, b :: lossy(a + [10] + b) == lossy(a) + ['\n'] + lossy(b))
    && (forall a | 10 !in a :: '\n' !in lossy(a))
    && (forall s | IsAscii(s) :: lossy(AsciiBytes(s)) == s)
  }

  predicate IsAscii(s: string) {
    forall i | 0 <= i < |s| :: s[i] as int < 0x80
  }

  function AsciiBytes(s: string): (b: seq<byte>)
    requires IsAscii(s)
    ensures |b| == |s|
  {
    seq<byte>(|s|, i requires 0 <= i < |s| => s[i] as int)
  }

  function StripReturn(line: string): string {
    if line != [] && line[|line| - 1] == '\r' then line[..|line| - 1] else line
  }

  /** `lines().next()`, empty when there is no line. */
  function FirstLine(text: string): string {
    match SplitOnce(text, '\n')
    case None => text
    case Some((line, _)) => StripReturn(line)
  }

  function FindParam(pairs: seq<string>, key: string): Option<string> {
    if pairs == [] then None
    else
      match SplitOnce(pairs[0], '=')
      case Some((k, v)) => if k == key then Some(v) else FindParam(pairs[1..], key)
      case None => FindParam(pairs[1..], key)
  }

  function ExtractQueryParam(query: string, key: string): Option<string> {
    FindParam(Split(query, '&'), key)
  }

  predicate IsHexDigit(c: char) {
    '0' <= c <= '9' || 'a' <= c <= 'f' || 'A' <= c <= 'F'
  }

  predicate ValidNonce(s: string) {
    2 <= |s| <= 256 && |s| % 2 == 0 && forall i | 0 <= i < |s| :: IsHexDigit(s[i])
  }

  datatype Outcome = NoAnswer | InvalidNonce | Attest(nonceHex: string)

  const ENDPOINT := "/v1/attestation"

  function RouteTarget(target: string): Outcome {
    if !(ENDPOINT <= target) then NoAnswer
    else
      var (path, query) := match SplitOnce(target, '?') case Some(pq) => pq case None => (target, "");
      if path != ENDPOINT then NoAnswer
      else
        var nonce := match ExtractQueryParam(query, "nonce") case Some(v) => v case None => "";
        if ValidNonce(nonce) then Attest(nonce) else InvalidNonce
  }

  function Route(line: string): Outcome {
    var parts := SplitWhitespace(line);
    if |parts| != 3 || parts[0] != "GET" || !("HTTP/" <= parts[2]) then NoAnswer
    else RouteTarget(parts[1])
  }

  function Respond(lossy: Decoder, buf: seq<byte>): Outcome {
    if buf == [] then NoAnswer else Route(FirstLine(lossy(buf)))
  }

  /** What the handler does with a connection's reads. */
  function Handle(lossy: Decoder, incoming: seq<Read>): Outcome {
    match ReadLoop([], incoming)
    case Buffered(buf) => Respond(lossy, buf)
    case _ => NoAnswer
  }

  // ----- Fragmentation -----

  /** The end of the first blank line at or after position i. */
  function FindEnd(s: seq<byte>, i: nat): (r: Option<nat>)
    ensures r.Some? ==> i + 4 <= r.value <= |s| && At(s, r.value - 4, END_OF_HEAD)
    ensures r.Some? ==> forall k | i <= k < r.value - 4 :: !At(s, k, END_OF_HEAD)
    ensures r.None? ==> forall k | i <= k :: !At(s, k, END_OF_HEAD)
    decreases |s| - i
  {
    if i + 4 > |s| then None
    else if s[i..i + 4] == END_OF_HEAD then Some(i + 4)
    else FindEnd(s, i + 1)
  }

  function HeadEnd(s: seq<byte>): Option<nat> {
    FindEnd(s, 0)
  }

  function Chunked(chunks: seq<seq<byte>>): seq<Read> {
    seq(|chunks|, i requires 0 <= i < |chunks| => Data(chunks[i]))
  }

  /** A way to deliver the stream: non-empty reads of at most 1024 bytes. */
  ghost predicate Delivers(chunks: seq<seq<byte>>, s: seq<byte>) {
    Concat(chunks) == s && forall i | 0 <= i < |chunks| :: 0 < |chunks[i]| <= MAX_READ
  }

  lemma HasEndAt(s: seq<byte>, p: nat)
    requires p <= |s|
    ensures HasEnd(s[..p]) <==> HeadEnd(s).Some? && HeadEnd(s).value <= p
  {
    if HasEnd(s[..p]) {
      var i :| 0 <= i <= p - 4 && At(s[..p], i, END_OF_HEAD);
      assert At(s, i, END_OF_HEAD);
    }
    if HeadEnd(s).Some? && HeadEnd(s).value <= p {
      assert At(s[..p], HeadEnd(s).value - 4, END_OF_HEAD);
    }
  }

  /** Some delivery may stop within the limit while another overshoots it. */
  predicate Contested(s: seq<byte>) {
    match HeadEnd(s)
    case None => false
    case Some(e) => e <= MAX_REQUEST < e + MAX_READ - 1 && MAX_REQUEST < |s|
  }

  /** In numbers: the head ends within the limit but less than one read before it, and the stream goes beyond. */
  lemma ContestedExact(s: seq<byte>)
    ensures Contested(s) <==> HeadEnd(s).Some? && 7170 <= HeadEnd(s).value <= 8192 < |s|
  {
    hide HeadEnd;
  }

  /** What a delivery of s that has reached position p ends with. */
  ghost predicate EndsAs(s: seq<byte>, r: ReadResult) {
    match HeadEnd(s)
    case Some(e) =>
      if e > MAX_REQUEST then r == Dropped
      else r == Dropped || exists p :: e <= p <= |s| && r == Buffered(s[..p])
    case None => if |s| > MAX_REQUEST then r == Dropped else r == Buffered(s)
  }

  /** The deliveries of a stream from position p on, one read at a time. */
  lemma DeliversNext(s: seq<byte>, p: nat, chunks: seq<seq<byte>>)
    requires p <= |s| && chunks != [] && Delivers(chunks, s[p..])
    ensures p < p + |chunks[0]| <= |s| && |chunks[0]| <= MAX_READ
    ensures s[..p] + chunks[0] == s[..p + |chunks[0]|]
    ensures Delivers(chunks[1..], s[p + |chunks[0]|..])
    ensures Chunked(chunks) != [] && Chunked(chunks)[0] == Data(chunks[0])
    ensures Chunked(chunks)[1..] == Chunked(chunks[1..])
  {
    ConcatHead(chunks);
    assert s[p..][..|chunks[0]|] == chunks[0];
    assert s[p..][|chunks[0]|..] == s[p + |chunks[0]|..];
  }

  /** Reading on from position p, before any end was seen. */
  lemma {:induction false} ReadFrom(s: seq<byte>, p: nat, chunks: seq<seq<byte>>)
    requires p <= |s| && p <= MAX_REQUEST && !HasEnd(s[..p])
    requires Delivers(chunks, s[p..])
    ensures EndsAs(s, ReadLoop(s[..p], Chunked(chunks)))
    ensures !Contested(s) && HeadEnd(s).Some? && HeadEnd(s).value <= MAX_REQUEST ==>
              ReadLoop(s[..p], Chunked(chunks)).Buffered?
    decreases |chunks|
  {
    hide FindEnd, HasEnd, Chunked;
    HasEndAt(s, p);
    if chunks == [] {
      assert s[..p] == s;
      assert Chunked(chunks) == [] by {
        ChunkedNone();
      }
    } else {
      hide Delivers;
      DeliversNext(s, p, chunks);
      var q := p + |chunks[0]|;
      HasEndAt(s, q);
      if q <= MAX_REQUEST && !HasEnd(s[..q]) {
        ReadFrom(s, q, chunks[1..]);
      }
    }
  }

  lemma ChunkedNone()
    ensures Chunked([]) == []
  {
  }

  /** The bytes of the first line, if it is terminated. */
  function LineEnd(s: seq<byte>): (j: nat)
    requires 10 in s
    ensures j < |s| && s[j] == 10 && 10 !in s[..j]
  {
    if s[0] == 10 then 0
    else
      assert s == [s[0]] + s[1..];
      var j := 1 + LineEnd(s[1..]);
      assert s[..j] == [s[0]] + s[1..][..j - 1];
      j
  }

  lemma FirstLineOf(lossy: Decoder, line: seq<byte>, rest: seq<byte>)
    requires DecodesByLine(lossy) && 10 !in line
    ensures FirstLine(lossy(line + [10] + rest)) == StripReturn(lossy(line))
  {
    SplitOnceAt(lossy(line), '\n', lossy(rest));
  }

  lemma RespondByLine(lossy: Decoder, line: seq<byte>, rest: seq<byte>)
    requires DecodesByLine(lossy) && 10 !in line
    ensures Respond(lossy, line + [10] + rest) == Route(StripReturn(lossy(line)))
  {
    hide Route, FirstLine, DecodesByLine;
    FirstLineOf(lossy, line, rest);
  }

  lemma CutAtLine(s: seq<byte>, j: nat, p: nat)
    requires j < p <= |s| && s[j] == 10
    ensures s[..p] == s[..j] + [10] + s[j + 1..p]
  {
    assert s[..p] == s[..j] + [s[j]] + s[j + 1..p];
  }

  /** Once the head is complete, what follows it does not change the answer. */
  lemma TailIgnored(lossy: Decoder, s: seq<byte>, e: nat, p: nat)
    requires DecodesByLine(lossy) && HeadEnd(s) == Some(e) && e <= p <= |s|
    ensures Respond(lossy, s[..p]) == Respond(lossy, s[..e])
  {
    hide Respond, DecodesByLine, FindEnd;
    assert s[e - 4..e][1] == 10;
    var j := LineEnd(s);
    CutAtLine(s, j, p);
    CutAtLine(s, j, e);
    RespondByLine(lossy, s[..j], s[j + 1..p]);
    RespondByLine(lossy, s[..j], s[j + 1..e]);
  }

  /** The answer as a function of the stream alone. */
  function StreamOutcome(lossy: Decoder, s: seq<byte>): Outcome {
    match HeadEnd(s)
    case Some(e) => if e > MAX_REQUEST then NoAnswer else Respond(lossy, s[..e])
    case None => if |s| > MAX_REQUEST then NoAnswer else Respond(lossy, s)
  }

  /** Fragmentation does not matter: every delivery of an uncontested stream gets the same answer. */
  lemma AnyDelivery(lossy: Decoder, s: seq<byte>, chunks: seq<seq<byte>>)
    requires DecodesByLine(lossy) && Delivers(chunks, s) && !Contested(s)
    ensures Handle(lossy, Chunked(chunks)) == StreamOutcome(lossy, s)
  {
    hide Respond, ReadLoop, Delivers, DecodesByLine;
    assert s[0..] == s && s[..0] == [];
    ReadFrom(s, 0, chunks);
    var r := ReadLoop([], Chunked(chunks));
    if HeadEnd(s).Some? && HeadEnd(s).value <= MAX_REQUEST {
      var e := HeadEnd(s).value;
      var p :| e <= p <= |s| && r == Buffered(s[..p]);
      TailIgnored(lossy, s, e, p);
    }
  }

  /** In particular every stream of at most 8192 bytes is uncontested. */
  lemma ShortStream(lossy: Decoder, s: seq<byte>, chunks: seq<seq<byte>>)
    requires DecodesByLine(lossy) && Delivers(chunks, s) && |s| <= 8192
    ensures Handle(lossy, Chunked(chunks)) == StreamOutcome(lossy, s)
  {
    hide Handle, StreamOutcome, Delivers, DecodesByLine;
    AnyDelivery(lossy, s, chunks);
  }

  /** And a stream beyond that gets no answer if its head does not end within 8192 bytes. */
  lemma LongStream(lossy: Decoder, s: seq<byte>, chunks: seq<seq<byte>>)
    requires DecodesByLine(lossy) && Delivers(chunks, s) && |s| > 8192
    requires !HasEnd(s[..8192])
    ensures Handle(lossy, Chunked(chunks)) == NoAnswer
  {
    hide Handle, Delivers, DecodesByLine, HeadEnd, HasEnd;
    HasEndAt(s, 8192);
    AnyDelivery(lossy, s, chunks);
  }

  /** Reads without an end of the head and within the limit add up. */
  lemma {:induction false} ReadsAddUp(s: seq<byte>, p: nat, chunks: seq<seq<byte>>, rest: seq<Read>)
    requires p <= |s| <= 8192 && !HasEnd(s) && Delivers(chunks, s[p..])
    ensures ReadLoop(s[..p], Chunked(chunks) + rest) == ReadLoop(s, rest)
    decreases |chunks|
  {
    hide HasEnd, FindEnd, Chunked;
    assert s[..|s|] == s;
    if chunks == [] {
      ChunkedNone();
      assert Chunked(chunks) + rest == rest;
    } else {
      hide Delivers;
      DeliversNext(s, p, chunks);
      var q := p + |chunks[0]|;
      HasEndAt(s, q);
      HasEndAt(s, |s|);
      ReadsAddUp(s, q, chunks[1..], rest);
      assert (Chunked(chunks) + rest)[1..] == Chunked(chunks[1..]) + rest;
    }
  }

  /** However far reading got, an empty read ends it with what was read, an error fails it, a timeout drops it. */
  lemma ReadStops(s: seq<byte>, chunks: seq<seq<byte>>, rest: seq<Read>)
    requires |s| <= 8192 && !HasEnd(s) && Delivers(chunks, s)
    ensures ReadLoop([], Chunked(chunks) + ([Data([])] + rest)) == Buffered(s)
    ensures ReadLoop([], Chunked(chunks) + ([Broken] + rest)) == IoError
    ensures ReadLoop([], Chunked(chunks) + ([TimedOut] + rest)) == Dropped
  {
    hide HasEnd, Delivers, Chunked;
    assert s[0..] == s && s[..0] == [];
    ReadsAddUp(s, 0, chunks, [Data([])] + rest);
    ReadsAddUp(s, 0, chunks, [Broken] + rest);
    ReadsAddUp(s, 0, chunks, [TimedOut] + rest);
  }

  // ----- Deliveries of contested streams -----

  function Singles(s: seq<byte>): (chunks: seq<seq<byte>>)
    ensures |chunks| == |s|
  {
    seq(|s|, i requires 0 <= i < |s| => [s[i]])
  }

  lemma {:induction false} ConcatSingles(s: seq<byte>)
    ensures Concat(Singles(s)) == s
  {
    if s != [] {
      ConcatSingles(s[..|s| - 1]);
      assert Singles(s)[..|s| - 1] == Singles(s[..|s| - 1]);
    }
  }

  /** Byte by byte up to just before e, then one read up to q, then byte by byte again. */
  function Jump(s: seq<byte>, e: nat, q: nat): seq<seq<byte>>
    requires 1 <= e <= q <= |s|
  {
    Singles(s[..e - 1]) + ([s[e - 1..q]] + Singles(s[q..]))
  }

  lemma JumpSizes(s: seq<byte>, e: nat, q: nat, i: nat)
    requires 1 <= e <= q <= |s| && q - (e - 1) <= MAX_READ && i < |Jump(s, e, q)|
    ensures 0 < |Jump(s, e, q)[i]| <= MAX_READ
  {
  }

  lemma ConcatOne(part: seq<byte>)
    ensures Concat([part]) == part
  {
    assert [part][..0] == [];
  }

  lemma JumpDelivers(s: seq<byte>, e: nat, q: nat)
    requires 1 <= e <= q <= |s| && q - (e - 1) <= MAX_READ
    ensures Delivers(Jump(s, e, q), s)
  {
    hide Concat, Singles;
    var middle, last := [s[e - 1..q]], Singles(s[q..]);
    ConcatAppend(Singles(s[..e - 1]), middle + last);
    ConcatAppend(middle, last);
    ConcatSingles(s[..e - 1]);
    ConcatSingles(s[q..]);
    ConcatOne(s[e - 1..q]);
    assert s == s[..e - 1] + (s[e - 1..q] + s[q..]);
    forall i | 0 <= i < |Jump(s, e, q)|
      ensures 0 < |Jump(s, e, q)[i]| <= MAX_READ
    {
      JumpSizes(s, e, q, i);
    }
  }

  /** Reading byte by byte goes on while there is no end and no overflow. */
  lemma {:induction false} ReadSingles(s: seq<byte>, p: nat, q: nat, rest: seq<seq<byte>>)
    requires p <= q <= |s| && q <= MAX_REQUEST && !HasEnd(s[..q])
    ensures ReadLoop(s[..p], Chunked(Singles(s[p..q]) + rest)) == ReadLoop(s[..q], Chunked(rest))
    decreases q - p
  {
    if p < q {
      var chunks := Singles(s[p..q]) + rest;
      assert chunks[0] == [s[p]];
      assert chunks[1..] == Singles(s[p + 1..q]) + rest;
      assert Chunked(chunks)[1..] == Chunked(chunks[1..]);
      assert s[..p] + [s[p]] == s[..p + 1];
      HasEndAt(s, p + 1);
      HasEndAt(s, q);
      ReadSingles(s, p + 1, q, rest);
    } else {
      assert Singles(s[p..q]) + rest == rest;
    }
  }

  lemma JumpRead(s: seq<byte>, e: nat, q: nat)
    requires HeadEnd(s) == Some(e) && e <= MAX_REQUEST && e <= q <= |s|
    ensures ReadLoop([], Chunked(Jump(s, e, q))) == if q > MAX_REQUEST then Dropped else Buffered(s[..q])
  {
    hide Singles, FindEnd, At;
    var rest := [s[e - 1..q]] + Singles(s[q..]);
    HasEndAt(s, e - 1);
    HasEndAt(s, q);
    assert s[0..e - 1] == s[..e - 1] && s[..0] == [];
    ReadSingles(s, 0, e - 1, rest);
    assert s[..e - 1] + s[e - 1..q] == s[..q];
    assert Chunked(rest)[0] == Data(s[e - 1..q]);
  }

  /** Whether a stream is read or dropped is independent of its delivery exactly when it is uncontested. */
  lemma DroppingExact(s: seq<byte>)
    ensures !Contested(s) <==>
            forall a, b | Delivers(a, s) && Delivers(b, s) ::
              ReadLoop([], Chunked(a)).Buffered? == ReadLoop([], Chunked(b)).Buffered?
  {
    hide ReadLoop, Delivers;
    if Contested(s) {
      var e := HeadEnd(s).value;
      var q := if e + MAX_READ - 1 <= |s| then e + MAX_READ - 1 else |s|;
      JumpDelivers(s, e, e);
      JumpDelivers(s, e, q);
      JumpRead(s, e, e);
      JumpRead(s, e, q);
    } else {
      forall a, b | Delivers(a, s) && Delivers(b, s)
        ensures ReadLoop([], Chunked(a)).Buffered? == ReadLoop([], Chunked(b)).Buffered?
      {
        assert s[0..] == s && s[..0] == [];
        ReadFrom(s, 0, a);
        ReadFrom(s, 0, b);
      }
    }
  }

  /** A contested stream that is not to be answered anyway gets no answer however it is delivered. */
  lemma UnansweredContested(lossy: Decoder, s: seq<byte>, chunks: seq<seq<byte>>)
    requires DecodesByLine(lossy) && Delivers(chunks, s)
    requires Contested(s) && Respond(lossy, s[..HeadEnd(s).value]) == NoAnswer
    ensures Handle(lossy, Chunked(chunks)) == NoAnswer
  {
    hide Respond, ReadLoop, Delivers, DecodesByLine;
    assert s[0..] == s && s[..0] == [];
    ReadFrom(s, 0, chunks);
    var r := ReadLoop([], Chunked(chunks));
    if r.Buffered? {
      var e := HeadEnd(s).value;
      var p :| e <= p <= |s| && r == Buffered(s[..p]);
      TailIgnored(lossy, s, e, p);
    }
  }

  /** A contested stream that is to be answered is answered under one delivery and dropped under another. */
  lemma AnsweredOrDropped(lossy: Decoder, s: seq<byte>) returns (a: seq<seq<byte>>, b: seq<seq<byte>>)
    requires Contested(s)
    ensures Delivers(a, s) && Handle(lossy, Chunked(a)) == Respond(lossy, s[..HeadEnd(s).value])
    ensures Delivers(b, s) && Handle(lossy, Chunked(b)) == NoAnswer
  {
    hide Respond, ReadLoop, Delivers;
    var e := HeadEnd(s).value;
    var q := if e + MAX_READ - 1 <= |s| then e + MAX_READ - 1 else |s|;
    JumpDelivers(s, e, e);
    JumpDelivers(s, e, q);
    JumpRead(s, e, e);
    JumpRead(s, e, q);
    a, b := Jump(s, e, e), Jump(s, e, q);
  }

  /**
   The answer is independent of the delivery exactly when the stream is uncontested, or its head would
   not be answered anyway.
   */
  lemma FragmentationExact(lossy: Decoder, s: seq<byte>)
    requires DecodesByLine(lossy)
    ensures (forall a, b | Delivers(a, s) && Delivers(b, s) :: Handle(lossy, Chunked(a)) == Handle(lossy, Chunked(b)))
            <==> !Contested(s) || Respond(lossy, s[..HeadEnd(s).value]) == NoAnswer
  {
    hide Handle, Respond, Delivers, DecodesByLine, StreamOutcome;
    if Contested(s) && Respond(lossy, s[..HeadEnd(s).value]) != NoAnswer {
      var a, b := AnsweredOrDropped(lossy, s);
    } else {
      forall a, b | Delivers(a, s) && Delivers(b, s)
        ensures Handle(lossy, Chunked(a)) == Handle(lossy, Chunked(b))
      {
        if Contested(s) {
          UnansweredContested(lossy, s, a);
          UnansweredContested(lossy, s, b);
        } else {
          AnyDelivery(lossy, s, a);
          AnyDelivery(lossy, s, b);
        }
      }
    }
  }

  // ----- Query parameters and a whole request -----

  datatype Param = Param(key: string, value: string)

  predicate CleanParam(p: Param) {
    '=' !in p.key && '&' !in p.key && '&' !in p.value
  }

  function ParamText(p: Param): string {
    p.key + ['='] + p.value
  }

  function QueryText(params: seq<Param>): (q: string)
    requires params != []
  {
    Join(seq(|params|, i requires 0 <= i < |params| => ParamText(params[i])), '&')
  }

  /** The value of the first parameter with the key. */
  function FirstValue(params: seq<Param>, key: string): Option<string> {
    if params == [] then None
    else if params[0].key == key then Some(params[0].value)
    else FirstValue(params[1..], key)
  }

  lemma {:induction false} FindParamText(params: seq<Param>, key: string)
    requires forall i | 0 <= i < |params| :: CleanParam(params[i])
    ensures FindParam(seq(|params|, i requires 0 <= i < |params| => ParamText(params[i])), key)
         == FirstValue(params, key)
  {
    if params != [] {
      var texts := seq(|params|, i requires 0 <= i < |params| => ParamText(params[i]));
      var rest := params[1..];
      assert texts[1..] == seq(|rest|, i requires 0 <= i < |rest| => ParamText(rest[i]));
      SplitOnceAt(params[0].key, '=', params[0].value);
      FindParamText(rest, key);
    }
  }

  /** Extracting a parameter from the text of a query finds the first one with its key. */
  lemma QueryRoundTrip(params: seq<Param>, key: string)
    requires params != [] && forall i | 0 <= i < |params| :: CleanParam(params[i])
    ensures ExtractQueryParam(QueryText(params), key) == FirstValue(params, key)
  {
    var texts := seq(|params|, i requires 0 <= i < |params| => ParamText(params[i]));
    forall i | 0 <= i < |texts|
      ensures '&' !in texts[i]
    {
      assert CleanParam(params[i]);
    }
    SplitJoin(texts, '&');
    FindParamText(params, key);
  }

  // ----- Any query text -----

  predicate IsParam(piece: string, key: string, value: string) {
    '=' !in key && piece == key + ['='] + value
  }

  ghost predicate HasKey(piece: string, key: string) {
    exists value :: IsParam(piece, key, value)
  }

  /** Piece i gives the key this value, and no piece before it gives the key any. */
  ghost predicate FirstParamAt(pieces: seq<string>, key: string, value: string, i: nat) {
    i < |pieces| && IsParam(pieces[i], key, value) && forall j | 0 <= j < i :: !HasKey(pieces[j], key)
  }

  lemma SplitOnceIsParam(piece: string, key: string, value: string)
    ensures SplitOnce(piece, '=') == Some((key, value)) <==> IsParam(piece, key, value)
  {
    if '=' !in key {
      SplitOnceAt(key, '=', value);
    }
  }

  lemma {:induction false} FindParamExact(pieces: seq<string>, key: string, value: string)
    ensures FindParam(pieces, key) == Some(value) <==> exists i: nat :: FirstParamAt(pieces, key, value, i)
  {
    hide SplitOnce, IsParam;
    if pieces != [] {
      var rest := pieces[1..];
      forall v
        ensures SplitOnce(pieces[0], '=') == Some((key, v)) <==> IsParam(pieces[0], key, v)
      {
        SplitOnceIsParam(pieces[0], key, v);
      }
      if HasKey(pieces[0], key) {
        if FindParam(pieces, key) == Some(value) {
          assert FirstParamAt(pieces, key, value, 0);
        }
      } else {
        FindParamExact(rest, key, value);
        if i: nat :| FirstParamAt(rest, key, value, i) {
          assert forall j | 0 < j <= i :: pieces[j] == rest[j - 1];
          assert FirstParamAt(pieces, key, value, i + 1);
        }
        if i: nat :| FirstParamAt(pieces, key, value, i) {
          assert FirstParamAt(rest, key, value, i - 1);
        }
      }
    }
  }

  /** The pieces between the ampersands of a query. */
  predicate PiecesOf(pieces: seq<string>, query: string) {
    pieces != [] && Join(pieces, '&') == query && forall i | 0 <= i < |pieces| :: '&' !in pieces[i]
  }

  /** On any text, the value found is that of the first piece that is the key, an equals sign and a value. */
  lemma QueryExact(query: string, key: string, value: string)
    ensures ExtractQueryParam(query, key) == Some(value) <==>
            exists pieces, i: nat :: PiecesOf(pieces, query) && FirstParamAt(pieces, key, value, i)
  {
    hide Split, Join, FindParam, FirstParamAt;
    var split := Split(query, '&');
    JoinSplit(query, '&');
    assert PiecesOf(split, query);
    FindParamExact(split, key, value);
    if pieces, i: nat :| PiecesOf(pieces, query) && FirstParamAt(pieces, key, value, i) {
      SplitJoin(pieces, '&');
    }
  }

  // ----- Which requests are answered -----

  /** The hexadecimal digits spelled out. */
  lemma HexDigits(c: char)
    ensures IsHexDigit(c) <==> c in "0123456789abcdefABCDEF"
  {
    assert "0123456789abcdefABCDEF"[..10] == "0123456789";
  }

  /** One to 128 bytes, as two hexadecimal digits each. */
  lemma NonceExact(s: string)
    ensures ValidNonce(s) <==>
            && (exists k :: 1 <= k <= 128 && |s| == 2 * k)
            && forall i | 0 <= i < |s| :: s[i] in "0123456789abcdefABCDEF"
  {
    forall i | 0 <= i < |s|
      ensures IsHexDigit(s[i]) <==> s[i] in "0123456789abcdefABCDEF"
    {
      HexDigits(s[i]);
    }
    if ValidNonce(s) {
      assert |s| == 2 * (|s| / 2);
    }
  }

  /** The three words of a request line for the endpoint, with this query behind the question mark. */
  predicate AsksFor(line: string, query: string, version: string) {
    SplitWhitespace(line) == ["GET", "/v1/attestation?" + query, "HTTP/" + version]
  }

  /** The nonce a query gives, empty if it gives none. */
  function NonceIn(query: string): string {
    match ExtractQueryParam(query, "nonce") case Some(v) => v case None => ""
  }

  lemma RouteQueried(query: string)
    ensures RouteTarget("/v1/attestation?" + query) ==
            if ValidNonce(NonceIn(query)) then Attest(NonceIn(query)) else InvalidNonce
  {
    hide ExtractQueryParam, ValidNonce, SplitOnce;
    EndpointHasNoQuery();
    SplitOnceAt(ENDPOINT, '?', query);
    assert "/v1/attestation?" + query == ENDPOINT + ['?'] + query;
  }

  /** A target that is routed is the endpoint, alone or with a query. */
  lemma RoutedTarget(target: string)
    requires RouteTarget(target) != NoAnswer
    ensures target == ENDPOINT || exists query :: target == "/v1/attestation?" + query
  {
    hide ExtractQueryParam, ValidNonce;
    if SplitOnce(target, '?').Some? {
      var (path, query) := SplitOnce(target, '?').value;
      assert target == "/v1/attestation?" + query;
    }
  }

  lemma NoQueryNoNonce()
    ensures NonceIn("") == "" && !ValidNonce("") && RouteTarget(ENDPOINT) == InvalidNonce
  {
    EndpointHasNoQuery();
    assert Split("", '&') == [""];
    assert FindParam([""], "nonce") == None;
  }

  /** A nonce is attested exactly for a GET of the endpoint with a query that gives it, in HTTP, and if it is valid. */
  lemma RouteExact(line: string, nonce: string)
    ensures Route(line) == Attest(nonce) <==>
            ValidNonce(nonce) && exists query, version :: AsksFor(line, query, version) && NonceIn(query) == nonce
  {
    hide SplitWhitespace, ValidNonce, NonceIn, RouteTarget;
    if Route(line) == Attest(nonce) {
      var parts := SplitWhitespace(line);
      RoutedTarget(parts[1]);
      NoQueryNoNonce();
      var query :| parts[1] == "/v1/attestation?" + query;
      RouteQueried(query);
      var version := parts[2][5..];
      assert parts[2] == "HTTP/" + version;
      assert parts == ["GET", "/v1/attestation?" + query, "HTTP/" + version];
      assert AsksFor(line, query, version);
    }
    if query, version :| AsksFor(line, query, version) && NonceIn(query) == nonce && ValidNonce(nonce) {
      assert "HTTP/" <= "HTTP/" + version;
      RouteQueried(query);
    }
  }

  /** The error about the nonce answers a GET of the endpoint, in HTTP, without a valid one; all else gets no answer. */
  lemma InvalidExact(line: string)
    ensures Route(line) == InvalidNonce <==>
            || (exists version :: SplitWhitespace(line) == ["GET", "/v1/attestation", "HTTP/" + version])
            || (exists query, version :: AsksFor(line, query, version) && !ValidNonce(NonceIn(query)))
  {
    hide SplitWhitespace, ValidNonce, NonceIn, RouteTarget;
    NoQueryNoNonce();
    if Route(line) == InvalidNonce {
      var parts := SplitWhitespace(line);
      RoutedTarget(parts[1]);
      var version := parts[2][5..];
      assert parts[2] == "HTTP/" + version;
      if query :| parts[1] == "/v1/attestation?" + query {
        RouteQueried(query);
        assert parts == ["GET", "/v1/attestation?" + query, "HTTP/" + version];
        assert AsksFor(line, query, version);
      } else {
        assert parts == ["GET", "/v1/attestation", "HTTP/" + version];
      }
    }
    if version :| SplitWhitespace(line) == ["GET", "/v1/attestation", "HTTP/" + version] {
      assert "HTTP/" <= "HTTP/" + version;
    }
    if query, version :| AsksFor(line, query, version) && !ValidNonce(NonceIn(query)) {
      assert "HTTP/" <= "HTTP/" + version;
      RouteQueried(query);
    }
  }

  /** The line that is routed ends before the first newline, and before a carriage return in front of it. */
  lemma FirstLineExact(line: string, rest: string)
    requires '\n' !in line
    ensures FirstLine(line + ['\r', '\n'] + rest) == line && FirstLine(line) == line
    ensures line == [] || line[|line| - 1] != '\r' ==> FirstLine(line + ['\n'] + rest) == line
  {
    SplitOnceAt(line, '\n', rest);
    assert line + ['\r', '\n'] + rest == line + ['\r'] + ['\n'] + rest;
    SplitOnceAt(line + ['\r'], '\n', rest);
  }

  /** The request line of a client that asks for its nonce among other parameters. */
  function RequestLine(params: seq<Param>, version: string): string
    requires params != []
  {
    Spaced(["GET", Target(params), "HTTP/" + version])
  }

  function NonceOf(params: seq<Param>): string {
    match FirstValue(params, "nonce") case Some(v) => v case None => ""
  }

  function Target(params: seq<Param>): string
    requires params != []
  {
    ENDPOINT + ['?'] + QueryText(params)
  }

  lemma EndpointHasNoQuery()
    ensures '?' !in ENDPOINT
  {
  }

  lemma RouteQuery(params: seq<Param>)
    requires params != [] && forall i | 0 <= i < |params| :: CleanParam(params[i])
    ensures RouteTarget(Target(params)) == if ValidNonce(NonceOf(params)) then Attest(NonceOf(params)) else InvalidNonce
  {
    hide ExtractQueryParam, QueryText, FirstValue, ValidNonce, SplitOnce;
    EndpointHasNoQuery();
    SplitOnceAt(ENDPOINT, '?', QueryText(params));
    QueryRoundTrip(params, "nonce");
  }

  lemma RouteRequestLine(params: seq<Param>, version: string)
    requires params != [] && forall i | 0 <= i < |params| :: CleanParam(params[i])
    requires IsToken("HTTP/" + version) && IsToken(Target(params))
    ensures Route(RequestLine(params, version)) ==
            if ValidNonce(NonceOf(params)) then Attest(NonceOf(params)) else InvalidNonce
  {
    hide SplitWhitespace, ValidNonce, NonceOf, IsToken, Spaced, Target, RouteTarget;
    assert IsToken("GET") by {
      GetIsToken();
    }
    SplitSpaced(["GET", Target(params), "HTTP/" + version]);
    assert "HTTP/" <= "HTTP/" + version;
    RouteQuery(params);
  }

  lemma GetIsToken()
    ensures IsToken("GET")
  {
  }

  /**
   A request for a nonce, with whatever head after its request line, is answered for that nonce
   however the network cuts it.
   */
  lemma RequestAnswered(
      lossy: Decoder, params: seq<Param>, version: string, tail: seq<byte>, chunks: seq<seq<byte>>)
    requires DecodesByLine(lossy)
    requires params != [] && forall i | 0 <= i < |params| :: CleanParam(params[i])
    requires IsToken("HTTP/" + version) && IsToken(Target(params))
    requires IsAscii(RequestLine(params, version))
    requires ValidNonce(NonceOf(params))
    requires
      var s := AsciiBytes(RequestLine(params, version) + ['\r']) + [10] + tail;
      Delivers(chunks, s) && |s| <= MAX_REQUEST
    ensures Handle(lossy, Chunked(chunks)) == Attest(NonceOf(params))
  {
    hide Handle, StreamOutcome, Delivers, DecodesByLine, Route, RequestLine, Respond, IsToken, Target, NonceOf;
    hide ValidNonce;
    var line := RequestLine(params, version);
    var first := AsciiBytes(line + ['\r']);
    var s := first + [10] + tail;
    ShortStream(lossy, s, chunks);
    RequestLineIsOneLine(params, version);
    LineBytes(line);
    RespondByLine(lossy, first, tail);
    Decoded(lossy, line + ['\r']);
    RouteRequestLine(params, version);
    OutcomeOfShort(lossy, s);
  }

  /** No word of the request line holds a newline, and words are joined by spaces. */
  lemma RequestLineIsOneLine(params: seq<Param>, version: string)
    requires params != []
    requires IsToken("HTTP/" + version) && IsToken(Target(params))
    ensures '\n' !in RequestLine(params, version)
  {
    var tokens := ["GET", Target(params), "HTTP/" + version];
    assert IsWhitespace('\n');
    assert IsToken("GET") by {
      GetIsToken();
    }
    assert forall i | 0 <= i < 3 :: IsToken(tokens[i]) && '\n' !in tokens[i];
    JoinAvoids(tokens, ' ', '\n');
  }

  lemma Decoded(lossy: Decoder, s: string)
    requires DecodesByLine(lossy) && IsAscii(s)
    ensures lossy(AsciiBytes(s)) == s
  {
  }

  lemma LineBytes(line: string)
    requires IsAscii(line) && '\n' !in line
    ensures 10 !in AsciiBytes(line + ['\r'])
  {
  }

  lemma OutcomeOfShort(lossy: Decoder, s: seq<byte>)
    requires DecodesByLine(lossy) && |s| <= MAX_REQUEST
    ensures StreamOutcome(lossy, s) == Respond(lossy, s)
  {
    hide Respond, DecodesByLine;
    if HeadEnd(s).Some? {
      TailIgnored(lossy, s, HeadEnd(s).value, |s|);
      assert s[..|s|] == s;
    }
  }

  // ----- A contested stream with an answer -----

  const NONCE_00 := [Param("nonce", "00")]

  const TARGET_00 := "/v1/attestation?nonce=00"

  function Line00(): string {
    "GET" + [' '] + (TARGET_00 + [' '] + ("HTTP/" + "1.1"))
  }

  lemma TargetForNonce00()
    ensures CleanParam(NONCE_00[0]) && NonceOf(NONCE_00) == "00" && ValidNonce("00")
    ensures Target(NONCE_00) == TARGET_00
  {
    assert QueryText(NONCE_00) == "nonce=00";
  }

  lemma LineForNonce00()
    ensures RequestLine(NONCE_00, "1.1") == Line00()
  {
    hide Target, Join;
    TargetForNonce00();
    Join3("GET", TARGET_00, "HTTP/" + "1.1", ' ');
  }

  /** ASCII text without line breaks. */
  predicate IsPlain(s: string) {
    IsAscii(s) && '\n' !in s && '\r' !in s
  }

  predicate IsGraphic(s: string) {
    s != [] && forall i | 0 <= i < |s| :: '!' <= s[i] <= '~'
  }

  lemma GraphicIsToken(s: string)
    requires IsGraphic(s)
    ensures IsToken(s) && IsPlain(s)
  {
  }

  lemma TokensForNonce00()
    ensures IsToken(TARGET_00) && IsToken("HTTP/" + "1.1")
    ensures IsPlain("GET") && IsPlain(TARGET_00) && IsPlain("HTTP/" + "1.1")
  {
    hide IsToken, IsPlain;
    GraphicIsToken("GET");
    GraphicIsToken(TARGET_00);
    GraphicIsToken("HTTP/" + "1.1");
  }

  lemma PlainAround(a: string, b: string)
    requires IsPlain(a) && IsPlain(b)
    ensures IsPlain(a + [' '] + b)
  {
  }

  lemma PlainLine()
    ensures IsPlain(Line00())
  {
    hide IsPlain, IsToken;
    TokensForNonce00();
    PlainAround(TARGET_00, "HTTP/" + "1.1");
    PlainAround("GET", TARGET_00 + [' '] + ("HTTP/" + "1.1"));
  }

  function Filler(n: nat): (s: seq<byte>)
    ensures |s| == n
  {
    seq<byte>(n, _ => 97)
  }

  /** A line, a header of n bytes, the end of the head, and a body. */
  function WithHeader(line: seq<byte>, n: nat, rest: nat): seq<byte> {
    line + [13] + [10] + Filler(n) + END_OF_HEAD + Filler(rest)
  }

  lemma HeadEndIs(s: seq<byte>, at: nat)
    requires At(s, at, END_OF_HEAD) && forall k: nat | k < at :: !At(s, k, END_OF_HEAD)
    ensures HeadEnd(s) == Some(at + 4)
  {
    hide At;
    assert END_OF_HEAD == [13, 10, 13, 10];
  }

  lemma AtEnd(s: seq<byte>, k: nat)
    ensures At(s, k, END_OF_HEAD) <==> k + 4 <= |s| && s[k] == 13 && s[k + 1] == 10 && s[k + 2] == 13 && s[k + 3] == 10
  {
    if k + 4 <= |s| {
      assert s[k..k + 4] == [s[k], s[k + 1], s[k + 2], s[k + 3]];
    }
  }

  lemma HeaderEnds(line: seq<byte>, n: nat, rest: nat)
    requires 10 !in line && 13 !in line && n > 0
    ensures HeadEnd(WithHeader(line, n, rest)) == Some(|line| + 2 + n + 4)
  {
    hide At;
    var s := WithHeader(line, n, rest);
    var at := |line| + 2 + n;
    AtEnd(s, at);
    forall k: nat | k < at
      ensures !At(s, k, END_OF_HEAD)
    {
      AtEnd(s, k);
      assert k < |line| ==> s[k] == line[k];
    }
    HeadEndIs(s, at);
  }

  lemma PlainBytes(line: string)
    requires IsPlain(line)
    ensures 10 !in AsciiBytes(line) && 13 !in AsciiBytes(line)
    ensures IsAscii(line + ['\r']) && AsciiBytes(line + ['\r']) == AsciiBytes(line) + [13]
    ensures 10 !in AsciiBytes(line + ['\r'])
  {
  }

  /** The nonce is answered or the stream dropped, depending on how these 9043 bytes are cut. */
  lemma ContestedExample(lossy: Decoder) returns (s: seq<byte>)
    requires DecodesByLine(lossy)
    ensures Contested(s) && HeadEnd(s).Some? && Respond(lossy, s[..HeadEnd(s).value]) == Attest("00")
  {
    hide DecodesByLine, Respond, Route, RequestLine, NonceOf, Target, IsToken, ValidNonce, HeadEnd, IsAscii, AsciiBytes;
    TargetForNonce00();
    TokensForNonce00();
    LineForNonce00();
    PlainLine();
    PlainBytes(Line00());
    var line := AsciiBytes(Line00());
    s := WithHeader(line, 8000, 1000);
    HeaderEnds(line, 8000, 1000);
    var first := AsciiBytes(Line00() + ['\r']);
    var rest := Filler(8000) + END_OF_HEAD;
    assert s[..|line| + 8006] == first + [10] + rest;
    RespondByLine(lossy, first, rest);
    Decoded(lossy, Line00() + ['\r']);
    RouteRequestLine(NONCE_00, "1.1");
  }
}
