# SEV micro-loader: a verified model of its time, attestation and DNS code

The micro-loader boots a confidential VM. Before it trusts anything, it asks Roughtime servers for the
time, resolves names over DNSCrypt, and then answers attestation requests from the network. This project
models the code that decides in these three places, and proves what it decides.

**Time (`src/time.rs`).** `RtMessage` is the tagged message codec, `Merkle` the inclusion proof,
`Roughtime` the verification of a response, `RoughtimeServer` the honest server on the other end,
`Consensus` the median over servers, `TimeQuery` the whole query, and `HttpDate` (with `Text`) the date parser
of the fallback source.

- The parser accepts exactly the encodings and inverts the encoder in both directions (`CodecBijection`).
- A response is accepted with a midpoint exactly when nested messages with the right fields, both
  signatures, the validity interval and a Merkle path prove it (`ExactAcceptance`).
- A proof that folds to the root of a batch is the path of the leaf that holds the nonce, or two different
  inputs with the same truncated hash can be computed from it (`Soundness`).
- An honest server's response is accepted, for every batch and index at any depth whose path fits the message
  format (`HonestResponseAccepted`). Conversely, for any response that is accepted, what was received contains a
  signature the server never made, or two inputs with the same truncated hash, or the midpoint is that of a batch
  with the nonce at the index received (`AcceptedIsHonest`).
- If more than half of the accepted responses are unforged and from servers that only signed midpoints in an
  interval, the established time lies in it, whatever the others sent (`HonestMajorityDecides`).
- The median lies in every interval that holds a majority of the midpoints, exactly when the sum of the two
  middle values fits a u64 (`RobustIffSumFits`); it ignores order and moves no more than its inputs.
- Formatting any time of a four-digit year as IMF-fixdate and parsing it returns the time (`FormatParse`),
  against a calendar that is turned day by day; which dates are parsed to the time they name is exact
  (`ParsedExact`).

**Attestation (`src/attestation.rs`).** `RateLimit` has the limiter's transitions beside a naive limiter
that remembers every admission, `Limiter` the shared object, `Handlers` all interleavings of connection
handlers, and `Request` the reading and parsing of one request.

- Over every run the limiter gives the naive verdicts (`RunRefines`), wherever garbage collection happens
  (`CollectionInvisible`); in every reachable state no interval of the window's length holds more than the
  allowed admissions (`RateSafety`).
- In every reachable state each counter equals the permits held and respects its bound, the hardware permit
  is only held on top of a subnet permit, and when all handlers have left everything is back
  (`PermitSafety`, `AllPermitsReturn`).
- The answer to a request does not depend on how the network cuts it, for an exact class of streams
  (`FragmentationExact`, `AnyDelivery`) that includes all of at most 8192 bytes.

**DNS (`src/dns.rs`).** `DnsMessage` has the builders and the two walkers, `DnsEncoding` the encoded messages
they are for, `DnsCrypt` padding, encryption and certificates, and `DnsExchange` sessions and exchanges.

- The walkers return the first A record, and the texts of all TXT records, of every encoded response whose
  owner names they can align on (`ParseAExact`, `ParseTxtExact`); on any bytes at all, an address is the one in
  the first A record that going from record to record reaches (`WalkAIsFirst`).
- Padding, sealing and certificates are accepted exactly in their encoded form (`UnpadExact`, `OpenExact`,
  `CertExact`); of the certificates a resolver publishes, the one of greatest serial wins, the earliest on
  ties (`BestExact`, `PublishedCertificates`).
- The resolver reads exactly the client's query, and the client accepts an address exactly when the packet
  is the sealed form of a padded message with that address (`RequestDelivered`, `ExchangeExact`).

What client and server, or parser and encoder, have in common is also stated by itself, in literal bytes and
numbers: words, tags and contexts, the inputs of every hash, month lengths and the date in closed form, subnets,
exclusive or, sealed texts, queries, certificates and packets.

Cryptographic primitives, base64 and `from_utf8_lossy` are parameters. What is assumed of them is written
where it is used: output lengths in their types, `SigningVerifies`, `Agrees` and `DecodesByLine` as
predicates, and nothing else. The network, the clock and random values are parameters too. Integers are
unbounded except where the source's width matters: the median and the date arithmetic wrap around as u64 in
a release build, which is how `Cargo.toml` builds it (no overflow checks are enabled).

## What the code does not do

Five properties hold only under a condition. The code is modelled as it is, and the condition is proved exact.

- `Consensus.RobustIffSumFits`: with an even count, two middle midpoints whose sum exceeds a u64 give a
  median below both (`OverflowExample`). A majority below half of the u64 range rules this out
  (`SmallMajorityFits`).
- `DnsEncoding.AfterOwnerExact`, `OneAnswerExact` and `OneTextExact`: after an owner name of labels that end in a pointer,
  both walkers skip the zero high byte of the type and read one byte off. They are aligned exactly when the
  owner is a pointer alone, plain labels, or the type is at least 256.
- `Request.FragmentationExact`: a stream longer than 8192 bytes whose head ends within the limit, but less
  than one read before it, is answered or dropped depending on how it is cut, unless its head would not be
  answered anyway (`ContestedExample` is one of 9043 bytes).
- `HttpDate.ParsedExact`: fields are not range-checked, so `Thu, 00 Jan 1970 00:00:00 GMT` is parsed to a time
  billions of years ahead (`DayZeroExample`), and 31 February or hour 99 to some other time. The time that is
  returned has the fields that were written exactly when these are a date and time of day that exist, from 1970
  to the last second of the u64 range.

- `DnsEncoding.QuestionSkipperExact`: an empty label, from a trailing dot or two dots in a row, is written as a
  zero byte, at which the question skipper stops before the end of the packet.

## Model

| member | source | states |
|---|---|---|
| Bytes.FromLe32Bytes | src/time.rs:105 | how much each byte of a 32-bit little-endian word counts |
| Bytes.FromLe64Bytes | src/time.rs:230-239 | the same for 64 bits |
| Bytes.FromBe16Bytes | src/dns.rs:562 | the same for 16 bits, big-endian |
| Bytes.FromBe32Bytes | src/dns.rs:99-101 | the same for 32 bits, big-endian |
| Bytes.XorBit | src/dns.rs:136 | each bit of an exclusive or is the sum of the two bits without carry |
| RtMessage.Parse | src/time.rs:101-170 | reading by index loops yields the decoding of the bytes, never leaving them |
| RtMessage.DecodeEncode | src/time.rs:101-170 | an encoded message of one or more 4-aligned values is read back as it was |
| RtMessage.EncodeDecode | src/time.rs:101-170 | whatever bytes are accepted, encoding the result gives those bytes |
| RtMessage.CodecBijection | src/time.rs:101-170 | a message is read from bytes if and only if it is encodable and they are its encoding |
| RtMessage.ReadExact | src/time.rs:101-170 | a message is read from bytes if and only if count, offsets, tags and whole-word value slices are in these bytes at these places |
| RtMessage.SlicesTile | src/time.rs:139-167 | accepted values tile the body without gap or overlap up to every boundary |
| RtMessage.ConcatSlice | src/time.rs:158-167 | in an encoding, value i occupies exactly the bytes between its start and the next |
| RtMessage.Get | src/time.rs:172-179 | the lookup loop returns the value of the first matching tag |
| RtMessage.LookupIsFirst | src/time.rs:172-179 | a lookup fails exactly for absent tags and otherwise is the first occurrence |
| Merkle.FoldPath | src/time.rs:299-319 | the loop folds the path from the leaf of the nonce and shifts the index once a level |
| Merkle.ClimbBytes | src/time.rs:299-319 | what is hashed at the leaf and at each level, byte for byte, in the order that the bit of the index says |
| Merkle.OneSibling | src/time.rs:580-616 | a path of one sibling, on either side, as in the repository's own test |
| Merkle.TreeRootBytes | src/time.rs:299-319 | the server's tree hashes the same bytes, the left half first |
| Merkle.ShiftConsumes | src/time.rs:306-332 | the index is used up exactly when it is below 2 to the path length |
| Merkle.ClimbTop | src/time.rs:307-319 | the last step joins the fold within one half of the tree with the last sibling |
| Merkle.PathLeadsToRoot | src/time.rs:299-332 | the path of any leaf of a perfect tree leads to its root |
| Merkle.Soundness | src/time.rs:299-332 | a proof accepted against a tree's root has its depth, its nonce at its index and its path, or yields two different inputs with one truncated hash |
| Merkle.DomainsApart | src/time.rs:299-311 | the 0x00 and 0x01 prefixes keep leaf and inner inputs apart, so the depth is checked |
| Roughtime.TagsSpell | src/time.rs:80-93 | each tag is its name as a little-endian word |
| Roughtime.DelegationContextBytes | src/time.rs:210-212 | the bytes in front of a signed delegation |
| Roughtime.ResponseContextBytes | src/time.rs:243-245 | the bytes in front of a signed reply |
| Roughtime.VerifyResponse | src/time.rs:182-335 | the checks run in the source's order, with its error for the first one that fails |
| Roughtime.DelegationExact | src/time.rs:198-237 | a delegation passes if and only if the certificate is an encoding signed by the root key that names key and interval |
| Roughtime.ReplyExact | src/time.rs:239-279 | a reply passes if and only if it is an encoding signed by the online key with a midpoint in the interval |
| Roughtime.InclusionExact | src/time.rs:281-332 | inclusion passes if and only if an index that fits the path and the path lead to the root |
| Roughtime.ExactAcceptance | src/time.rs:182-335 | a midpoint is accepted if and only if there is evidence for it in all four messages |
| Roughtime.ResponseErrors | src/time.rs:187-196 | what is no encoding is refused as such, then CERT, SREP and SIG are missed in this order |
| Roughtime.NestedErrors | src/time.rs:198-252 | which of the nested messages is refused when it is no encoding |
| Roughtime.DelegationError | src/time.rs:198-216 | refused for the delegation's signature if and only if that does not verify |
| Roughtime.ReplyError | src/time.rs:241-249 | with a valid delegation, refused for the reply's signature if and only if that does not verify |
| Roughtime.IntervalError | src/time.rs:251-280 | with valid signatures, refused for the time if and only if the midpoint is outside the interval |
| Roughtime.PathErrors | src/time.rs:282-335 | behind them, the path must lead to the root, and then the index must fit the path |
| Roughtime.AcceptedNonceIsInBatch | src/time.rs:281-335 | an accepted root of a batch means the nonce is in it at the proved index, or a collision |
| RoughtimeServer.BuildRequest | src/time.rs:423-429 | the request is built field by field and padded to its length |
| RoughtimeServer.RequestIsMessage | src/time.rs:423-429 | the request is 1024 bytes and parses as the message of nonce and padding |
| RoughtimeServer.HonestResponseAccepted | src/time.rs:182-335 | every response an honest server assembles for a batch is accepted with its midpoint |
| RoughtimeServer.AcceptedIsHonest | src/time.rs:182-335 | whatever is accepted holds a forged signature, or a collision, or is the midpoint of a batch with the nonce at the index received |
| RoughtimeServer.HonestIsUnforged | src/time.rs:182-335 | no evidence on which an honest response is accepted holds a forged signature |
| TimeQuery.QueryRoughtime | src/time.rs:337-403 | every response is verified, and the median of the accepted midpoints returned |
| TimeQuery.HonestMajorityDecides | src/time.rs:337-403 | if most accepted responses are unforged and signed for midpoints in an interval, the result lies in it |
| TimeQuery.HonestIsVouched | src/time.rs:182-335 | the response of an honest server that only signs midpoints in an interval is accepted and counts towards that majority |
| Consensus.Consensus | src/time.rs:353-403 | no valid midpoint is an error, otherwise the result is the median of the valid ones |
| Consensus.OrderStatistic | src/time.rs:377-384 | the k-th sorted value is at most t exactly when more than k values are |
| Consensus.MedianExact | src/time.rs:377-384 | by counting, the median is the middle value, or the average of the two middle ones rounded down, less the wrap |
| Consensus.RobustIffSumFits | src/time.rs:377-384 | the median lies in every majority interval if and only if the middle sum does not overflow |
| Consensus.SmallMajorityFits | src/time.rs:381-384 | the middle sum fits whenever a majority lies in the lower half of the u64 range |
| Consensus.OverflowExample | src/time.rs:381-384 | two agreeing servers whose midpoints add up past a u64 get half of that |
| Consensus.MedianIgnoresOrder | src/time.rs:377-384 | the median depends on the multiset of midpoints only |
| Consensus.MedianUnderRise | src/time.rs:377-384 | if no input rises by more than delta, neither does the median |
| Consensus.MedianIsStable | src/time.rs:377-384 | if every input moves by at most delta, so does the median |
| HttpDate.ParseHttpDate | src/time.rs:495-551 | parsing yields the field values' count of seconds, wrapped once |
| HttpDate.FieldsExact | src/time.rs:495-526 | which words and parts of a date are read, and that what follows them is ignored |
| HttpDate.CountDays | src/time.rs:528-547 | the two loops count the days before the date, modulo the u64 range |
| HttpDate.YearLoopClosedForm | src/time.rs:530-536 | the year loop is 365 days a year plus the leap days of the Gregorian rule |
| HttpDate.MonthLengths | src/time.rs:537-541 | the lengths of the months, by the calendar's rule |
| HttpDate.MonthLoopClosedForm | src/time.rs:543-546 | the month loop in closed form, without the table |
| HttpDate.TimestampClosedForm | src/time.rs:528-550 | the result in closed form, for all fields from 1970 on |
| HttpDate.MonthSpelling | src/time.rs:507-521 | a month is named by its three letters and by nothing else |
| HttpDate.NextDayNumber | src/time.rs:528-547 | turning the calendar by a day adds one to the count |
| HttpDate.DateOfDayNumber | src/time.rs:528-547 | counting days and turning the calendar are inverse for every valid date |
| HttpDate.ParsedMonotone | src/time.rs:495-551 | for dates that exist and fit, the parsed time is strictly increasing in the order of fields |
| HttpDate.FormatParse | src/time.rs:495-551 | formatting a time of a four-digit year and parsing it returns the time |
| HttpDate.ParsedExact | src/time.rs:495-551 | the parsed time has the fields that were written if and only if they exist on the calendar and clock and are not after the last second of a u64 |
| HttpDate.FitsUpToLast | src/time.rs:528-550 | valid fields are counted without wrapping if and only if they are not after that second |
| HttpDate.DayZeroExample | src/time.rs:547-550 | the string for day zero of 1970 is accepted and wraps around |
| HttpDate.June1Example | src/time.rs:628-630 | the date of the repository's own test is parsed to the time it expects |
| Text.SplitSpaced | src/time.rs:497-502 | words joined by spaces are split into the same words |
| Text.WhitespaceExact | src/time.rs:497 | the white space characters |
| Text.SplitWords | src/time.rs:497-502 | words are found whatever white space lies before, between and behind them |
| Text.ParsePadded | src/time.rs:504-526 | a number written in a fixed width is parsed as itself |
| Text.ParseU64Exact | src/time.rs:504-505 | a number is read if and only if it is digits, perhaps behind a plus sign, whose value fits |
| RateLimit.SubnetExact | src/attestation.rs:39-54 | addresses share a limit if and only if they are of one family and agree in their first 24 or 64 bits |
| RateLimit.CountIsCardinality | src/attestation.rs:107-109 | what is counted are the admissions of the subnet between the two times, both included |
| RateLimit.PruneFrontFilters | src/attestation.rs:99-105 | popping expired requests off the front leaves exactly those in the window |
| RateLimit.LaterIsKept | src/attestation.rs:99-105 | a request later than now has not expired, as the age saturates at zero |
| RateLimit.AcquireRefines | src/attestation.rs:78-125 | an acquire gives the verdict of a limiter that remembers everything, with or without collection |
| RateLimit.ReleaseRefines | src/attestation.rs:133-141 | a live permit's entry exists with a positive counter, and dropping it refines the naive drop |
| RateLimit.ReleaseAlone | src/attestation.rs:133-141 | a drop touches no other entry, adds none, and stops at zero |
| RateLimit.CollectionKeeps | src/attestation.rs:83-96 | collection drops an entry exactly when it has neither a permit nor a request in the window |
| RateLimit.RunRefines | src/attestation.rs:78-141 | over every run of acquires and drops all verdicts are the naive ones |
| RateLimit.CollectionInvisible | src/attestation.rs:83-96 | moving collections to any other acquires changes no verdict |
| RateLimit.AcquireKeepsRate | src/attestation.rs:107-118 | an acquire keeps every closed interval of the window's length within the allowed admissions |
| Limiter.PerSubnetLimiter.constructor | src/attestation.rs:69-76 | a new limiter is empty and consistent |
| Limiter.PerSubnetLimiter.PopExpired | src/attestation.rs:99-105 | the loop pops the expired front of a deque |
| Limiter.PerSubnetLimiter.CollectGarbage | src/attestation.rs:83-96 | retain prunes every deque and keeps the entries with permits or requests |
| Limiter.PerSubnetLimiter.Acquire | src/attestation.rs:78-125 | under the lock, the verdict and the new state are those of the naive limiter |
| Limiter.PerSubnetLimiter.Drop | src/attestation.rs:133-141 | dropping a live permit takes exactly one off its counter |
| Handlers.StepInv | src/attestation.rs:219-376 | every step of every handler keeps the invariant over table, semaphore and permits |
| Handlers.PermitSafety | src/attestation.rs:128-141 | in every reachable state counters equal permits held, within their bounds, hardware only on top of a subnet permit |
| Handlers.RateSafety | src/attestation.rs:78-125 | in every reachable state the rate of each subnet was bounded over every interval |
| Handlers.DropIsExact | src/attestation.rs:133-141 | the saturating decrement never saturates |
| Handlers.AllPermitsReturn | src/attestation.rs:219-376 | once all handlers have left, by any path, both kinds of permits are back |
| Handlers.AcceptVerdict | src/attestation.rs:107-124 | in every reachable state a connection is refused for its rate, or else for its permits, or else admitted, exactly by the history and the holders; only an admission is recorded |
| Handlers.TryVerdict | src/attestation.rs:327-340 | in every reachable state the only try gets a hardware permit if and only if fewer than eight are held |
| Handlers.DropVerdict | src/attestation.rs:327-376 | each drop frees exactly the permit bound last |
| Handlers.ServerBounds | src/attestation.rs:158-164 | with the server's settings a subnet is admitted at most ten times in any three seconds and holds at most two permits |
| Request.ReadRequest | src/attestation.rs:250-271 | the read loop with its exits for errors, timeouts, size and the end of the head |
| Request.ReadStops | src/attestation.rs:252-263 | an empty read ends the reading with what was read, an error fails it, a timeout drops it |
| Request.ContainsEnd | src/attestation.rs:268-270 | the window scan finds a blank line if and only if there is one |
| Request.AnyDelivery | src/attestation.rs:250-299 | every delivery of an uncontested stream gets the answer that the stream alone determines |
| Request.ShortStream | src/attestation.rs:250-299 | which holds for every stream of at most 8192 bytes |
| Request.LongStream | src/attestation.rs:264-271 | a longer stream gets no answer if its head does not end within 8192 bytes |
| Request.FragmentationExact | src/attestation.rs:250-299 | the answer to a stream is independent of its delivery if and only if it is uncontested or its head gets no answer anyway |
| Request.ContestedExact | src/attestation.rs:250-271 | the contested streams in numbers |
| Request.DroppingExact | src/attestation.rs:250-271 | whether a stream is dropped is independent of its delivery if and only if it is uncontested |
| Request.ContestedExample | src/attestation.rs:250-299 | a stream of 9043 bytes that is answered or dropped depending on how it is cut |
| Request.TailIgnored | src/attestation.rs:277-299 | bytes behind the end of the head do not change the answer |
| Request.QueryRoundTrip | src/attestation.rs:378-387 | extracting a key from an encoded query finds its first value |
| Request.QueryExact | src/attestation.rs:378-387 | on any query text a value is found if and only if it is that of the first piece between ampersands that is the key, an equals sign and a value |
| Request.FirstLineExact | src/attestation.rs:277-278 | the line that is routed ends before the first newline and the carriage return in front of it |
| Request.NonceExact | src/attestation.rs:300-304 | a nonce is valid if and only if it is one to 128 bytes in hexadecimal digits |
| Request.RouteExact | src/attestation.rs:279-308 | a nonce is attested if and only if it is valid and the line is a GET of the endpoint with a query that gives it |
| Request.InvalidExact | src/attestation.rs:279-308 | the error about the nonce answers exactly the GETs of the endpoint without a valid one |
| Request.RequestAnswered | src/attestation.rs:250-308 | a well-formed request for a nonce is answered for that nonce however it is cut |
| DnsMessage.BuildQuery | src/dns.rs:304-316 | the query is the header, the labels behind length bytes, the root, type and class |
| DnsMessage.BuildARecordQuery | src/dns.rs:544-556 | the address query is that for type 1 |
| DnsMessage.QueryReadBack | src/dns.rs:304-316 | a reader of a query finds the header, the labels of the domain, the type and the class, and nothing else |
| DnsMessage.ParseDnsResponse | src/dns.rs:558-613 | the walk terminates within bounds on all bytes and yields what its positions define |
| DnsMessage.ParseTxtResponse | src/dns.rs:318-391 | the same for the TXT walk |
| DnsMessage.JoinStringLoop | src/dns.rs:373-383 | the character-strings of a record are joined, a cut-off last one ignored |
| DnsEncoding.FixedBytesExact | src/dns.rs:599-601 | where type, class, time to live and length stand in a record |
| DnsEncoding.AfterOwnerExact | src/dns.rs:582-595 | the owner is skipped exactly, except one byte too far for label-then-pointer owners of types below 256 |
| DnsEncoding.ParseAExact | src/dns.rs:558-613 | the first A record of every response aligned up to it is returned, and none if there is none |
| DnsEncoding.GithubQuery | src/dns.rs:725-739 | the query of the repository's own test, byte for byte |
| DnsEncoding.GithubExample | src/dns.rs:742-761 | the response of the repository's own test is read as the address it expects |
| DnsEncoding.BreakHidesNothing | src/dns.rs:579-581 | the early length check never hides an A record |
| DnsEncoding.OneAnswerExact | src/dns.rs:582-611 | a single A answer is found if and only if its owner is not label-then-pointer |
| DnsEncoding.WalkAIsFirst | src/dns.rs:578-612 | on any bytes an address is returned if and only if it is that of the first A record that going from record to record reaches |
| DnsEncoding.JoinStringsBytes | src/dns.rs:373-383 | character-strings are joined to the payload they were cut from |
| DnsEncoding.ParseTxtExact | src/dns.rs:318-391 | the texts of all TXT records of an aligned response, in order |
| DnsEncoding.OneTextExact | src/dns.rs:344-387 | a single TXT answer is found if and only if its owner is not label-then-pointer |
| DnsEncoding.TextExample | src/dns.rs:318-391 | a whole response with one TXT record in two strings, byte for byte, is read as their concatenation |
| DnsEncoding.TextsOfCuts | src/dns.rs:372-387 | the texts are the non-empty payloads, however they were cut and whatever records lie between |
| DnsEncoding.QuestionSkipperExact | src/dns.rs:325-337 | on a built query the question skipper ends at the end of the packet if and only if no label is empty, for labels below 192 bytes |
| DnsCrypt.PadQuery | src/dns.rs:177-189 | the query, the marker, and zeros up to the padded length |
| DnsCrypt.PaddedLengthLeast | src/dns.rs:180-186 | the padded length is the least multiple of 64 with room for the marker and the minimum |
| DnsCrypt.UnpadResponse | src/dns.rs:191-200 | the backward scan strips zeros and then the marker |
| DnsCrypt.UnpadExact | src/dns.rs:191-200 | unpadding yields a message if and only if the input is it, the marker and zeros |
| DnsCrypt.UnpadPad | src/dns.rs:177-200 | unpadding inverts padding for every query and minimum |
| DnsCrypt.Encrypt | src/dns.rs:126-145 | buffers filled by index give the tag and the masked text |
| DnsCrypt.Decrypt | src/dns.rs:147-175 | the tag is compared before any byte is unmasked |
| DnsCrypt.SealExact | src/dns.rs:126-145 | the tag over the masked text comes first, and each bit of that text is the plaintext's plus the keystream's, 32 bytes in |
| DnsCrypt.SealedZeros | src/dns.rs:126-145 | sealed zeros show the keystream from byte 32 on |
| DnsCrypt.OpenExact | src/dns.rs:126-175 | a ciphertext opens to a plaintext if and only if sealing that plaintext gives it |
| DnsCrypt.VerifyCert | src/dns.rs:76-124 | the checks on a certificate and its decoded fields |
| DnsCrypt.CertExact | src/dns.rs:76-124 | a certificate verifies if and only if it is a signed encoding of its fields that holds now |
| DnsCrypt.CertTimes | src/dns.rs:103-114 | once the clock is plausible, a certificate is taken exactly from its first second to its last |
| DnsCrypt.CertParts | src/dns.rs:76-101 | which bytes of a certificate are its magic, version, signature, key, client magic, serial and times |
| DnsCrypt.SelectCert | src/dns.rs:403-415 | the selection loop over all candidates |
| DnsCrypt.BestExact | src/dns.rs:403-415 | it ends with the greatest serial, earliest on ties, and with none exactly when none verifies |
| DnsExchange.ResolveDomain | src/dns.rs:615-668 | the exchange sends the request packet and judges the answer |
| DnsExchange.RequestDelivered | src/dns.rs:619-636 | a resolver with the key recovers exactly the query from the packet |
| DnsExchange.RequestSize | src/dns.rs:619-636 | a request is at least 1092 bytes, in blocks of 64 behind its first 68 |
| DnsExchange.ResponseAccepted | src/dns.rs:640-667 | any honest reply, with any nonce extension and padding, yields its first A record |
| DnsExchange.ResponseParts | src/dns.rs:640-656 | which bytes of a response are its magic, nonce and sealed message |
| DnsExchange.ExchangeExact | src/dns.rs:640-667 | an address is accepted if and only if the packet is the sealed padded form of a message with it |
| DnsExchange.ReplyResolved | src/dns.rs:640-667 | an encoded response with answers aligned up to its first A record resolves to it |
| DnsExchange.EstablishSession | src/dns.rs:393-476 | resolvers are tried in order until one publishes a usable certificate |
| DnsExchange.SessionFromFirst | src/dns.rs:393-476 | the session, or the error, comes from the first such resolver |
| DnsExchange.SessionIsBacked | src/dns.rs:393-476 | a session rests on a certificate its resolver published, signed by the provider, that held when it was checked |
| DnsExchange.ChosenIsValid | src/dns.rs:403-415 | a chosen certificate was published, signed by the provider, and held when it was checked |
| DnsExchange.PublishedCertificates | src/dns.rs:401-415 | of the published payloads, the verified one of greatest serial is chosen, the earliest on ties, none if and only if none verifies |
| DnsExchange.FirstQueryDelivered | src/dns.rs:417-457 | the resolver behind the chosen certificate derives the key from the packet and reads the query |
| DnsExchange.CustomDnscryptResolver.GetOrEstablishSession | src/dns.rs:489-505 | a live cached session is reused, otherwise a new one is cached only if it is established |

## Left out

- TimeQuery.QueryRoughtime: a task that fails to join counts as a query without a response, and the consistency warning is not modelled.
- Limiter.PerSubnetLimiter.Acquire: a poisoned lock, on which the source panics, is not modelled; the time is a parameter that never runs backwards.
- Handlers.StepInv: a handler may try the hardware semaphore or start dropping its permits at any point after admission; the request and response that decide between the two are not part of the state.
- Request.ReadRequest: the three seconds of a read's timeout are an outcome of the read.
- Request.RequestAnswered: what follows a valid nonce (decoding, the report, the response text) is not part of the model.
- DnsEncoding.ParseAExact: says nothing for label-then-pointer owners of types below 256, on which the walker is off by one byte; `AfterOwnerExact` and `OneAnswerExact` say what happens there.
- DnsMessage.ParseDnsResponse: the label loop, written out four times in the source, is one method here.
- DnsExchange.EstablishSession: generating the client's key and computing its public half fail as one step.
- The UDP and TCP plumbing with its retries, timeouts and truncation fallback: outcomes of the network.
- Internals of SHA-512, Ed25519, X25519, HChaCha20, XChaCha20, Poly1305, base64 and hexadecimal decoding.
- `send_http_response`, `get_snp_attestation_report`, the accept loop and all logging.
- `src/main.rs`, `src/system.rs` and `src/crypto.rs`: boot sequence, mounts, ioctls and TLS setup, mostly straight lines.
- `enforce_time_floor`: one comparison and a system call.
- Hardcoded keys and server lists.
