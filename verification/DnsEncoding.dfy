/**
 Encoded DNS messages (RFC 1035, sections 3.3.14 and 4.1.2 to 4.1.4) and what the walkers of
 src/dns.rs read out of them.
 */
module DnsEncoding {
  import opened Bytes
  import opened Text
  import opened DnsMessage

  /** An owner name: a pointer alone, labels up to the root, or labels that end in a pointer. */
  datatype Owner =
    | Pointer(hi: byte, lo: byte)
    | Labels(labels: seq<seq<byte>>)
    | Mixed(labels: seq<seq<byte>>, hi: byte, lo: byte)

  datatype Record = Record(owner: Owner, rtype: u16, rclass: u16, ttl: u32, rdata: seq<byte>)

  /** Lengths the walkers take for labels; RFC 1035 allows up to 63. */
  predicate GoodLabels(labels: seq<seq<byte>>) {
    forall i | 0 <= i < |labels| :: 0 < |labels[i]| < 0xc0
  }

  predicate GoodOwner(o: Owner) {
    match o
    case Pointer(hi, _) => IsPointer(hi)
    case Labels(labels) => GoodLabels(labels)
    case Mixed(labels, hi, _) => GoodLabels(labels) && labels != [] && IsPointer(hi)
  }

  predicate GoodRecord(rec: Record) {
    GoodOwner(rec.owner) && |rec.rdata| < 0x1_0000
  }

  function OwnerBytes(o: Owner): (b: seq<byte>)
    ensures |b| >= 1
  {
    match o
    case Pointer(hi, lo) => [hi, lo]
    case Labels(labels) => NameBytes(labels) + [0]
    case Mixed(labels, hi, lo) => NameBytes(labels) + [hi, lo]
  }

  function FixedBytes(rec: Record): (b: seq<byte>)
    requires |rec.rdata| < 0x1_0000
    ensures |b| == 10
  {
    Be16(rec.rtype) + (Be16(rec.rclass) + Be32(rec.ttl)) + Be16(|rec.rdata|)
  }

  function RecordBytes(rec: Record): (b: seq<byte>)
    requires GoodRecord(rec)
    ensures |b| >= 11 + |rec.rdata|
  {
    OwnerBytes(rec.owner) + FixedBytes(rec) + rec.rdata
  }

  predicate GoodRecords(recs: seq<Record>) {
    forall i | 0 <= i < |recs| :: GoodRecord(recs[i])
  }

  function RecordsBytes(recs: seq<Record>): (b: seq<byte>)
    requires GoodRecords(recs)
    ensures recs == [] ==> b == []
  {
    if recs == [] then [] else RecordBytes(recs[0]) + RecordsBytes(recs[1..])
  }

  /** A response with one question; the header is given around its answer count. */
  datatype Reply = Reply(
    idToQdcount: seq<byte>, nscountToArcount: seq<byte>, question: seq<seq<byte>>, qtypeAndClass: seq<byte>,
    answers: seq<Record>, trailing: seq<byte>)

  predicate GoodReply(r: Reply) {
    && |r.idToQdcount| == 6 && |r.nscountToArcount| == 4 && |r.qtypeAndClass| == 4
    && GoodLabels(r.question) && GoodRecords(r.answers) && |r.answers| < 0x1_0000
  }

  function HeaderBytes(r: Reply): (b: seq<byte>)
    requires GoodReply(r)
    ensures |b| == 12
  {
    r.idToQdcount + Be16(|r.answers|) + r.nscountToArcount
  }

  function QuestionBytes(r: Reply): seq<byte> {
    NameBytes(r.question) + [0] + r.qtypeAndClass
  }

  function ReplyBytes(r: Reply): seq<byte>
    requires GoodReply(r)
  {
    HeaderBytes(r) + QuestionBytes(r) + RecordsBytes(r.answers) + r.trailing
  }

  // ----- Names -----

  lemma AtByte(data: seq<byte>, offset: nat, part: seq<byte>, i: nat)
    requires At(data, offset, part) && i < |part|
    ensures offset + i < |data| && data[offset + i] == part[i]
  {
    assert data[offset..offset + |part|][i] == part[i];
  }

  lemma SkipLabel(data: seq<byte>, offset: nat, part: seq<byte>)
    requires 0 < |part| < 0xc0 && At(data, offset, LabelBytes(part))
    ensures SkipLabels(data, offset) == SkipLabels(data, offset + |LabelBytes(part)|)
  {
    hide At;
    AtByte(data, offset, LabelBytes(part), 0);
  }

  lemma {:induction false} SkipName(data: seq<byte>, offset: nat, labels: seq<seq<byte>>)
    requires GoodLabels(labels) && At(data, offset, NameBytes(labels))
    ensures SkipLabels(data, offset) == SkipLabels(data, offset + |NameBytes(labels)|)
    decreases |labels|
  {
    hide At, SkipLabels, LabelBytes;
    if labels != [] {
      AtSplit(data, offset, LabelBytes(labels[0]), NameBytes(labels[1..]));
      SkipLabel(data, offset, labels[0]);
      SkipName(data, offset + |LabelBytes(labels[0])|, labels[1..]);
    }
  }

  lemma NameEnds(data: seq<byte>, offset: nat)
    requires offset < |data|
    ensures data[offset] == 0 ==> SkipLabels(data, offset) == offset
    ensures IsPointer(data[offset]) ==> SkipLabels(data, offset) == offset + 2
  {
  }

  lemma SkipPlainName(data: seq<byte>, offset: nat, labels: seq<seq<byte>>)
    requires GoodLabels(labels) && At(data, offset, NameBytes(labels) + [0])
    ensures SkipZero(data, SkipLabels(data, offset)) == offset + |NameBytes(labels)| + 1
  {
    AtSplit(data, offset, NameBytes(labels), [0]);
    AtByte(data, offset + |NameBytes(labels)|, [0], 0);
    hide At, SkipLabels, NameBytes;
    NameEnds(data, offset + |NameBytes(labels)|);
    SkipName(data, offset, labels);
  }

  /** A label-then-pointer owner swallows the next byte when it is zero. */
  lemma SkipMixedName(data: seq<byte>, offset: nat, labels: seq<seq<byte>>, hi: byte, lo: byte)
    requires GoodLabels(labels) && IsPointer(hi) && At(data, offset, NameBytes(labels) + [hi, lo])
    ensures SkipZero(data, SkipLabels(data, offset)) == SkipZero(data, offset + |NameBytes(labels)| + 2)
  {
    AtSplit(data, offset, NameBytes(labels), [hi, lo]);
    AtByte(data, offset + |NameBytes(labels)|, [hi, lo], 0);
    hide At, SkipLabels, NameBytes;
    NameEnds(data, offset + |NameBytes(labels)|);
    SkipName(data, offset, labels);
  }

  lemma FirstByteOfName(data: seq<byte>, offset: nat, labels: seq<seq<byte>>, rest: seq<byte>)
    requires GoodLabels(labels) && labels != [] && At(data, offset, NameBytes(labels) + rest)
    ensures data[offset] == |labels[0]|
  {
    AtByte(data, offset, NameBytes(labels) + rest, 0);
  }

  /** The high byte of a type is zero exactly for types below 256. */
  lemma HighByte(x: u16)
    ensures Be16(x)[0] == x / 0x100
  {
    WordSpans();
    assert Be(x, 2) == Be(x / 0x100, 1) + [x % 0x100];
    assert Be(x / 0x100, 1) == Be(x / 0x100 / 0x100, 0) + [x / 0x100 % 0x100];
  }

  /** The walkers reach the fixed part of a record exactly when this holds of it. */
  predicate Aligned(rec: Record) {
    rec.owner.Mixed? ==> rec.rtype >= 0x100
  }

  /** Where the walkers look for the fixed part: one byte too far for unaligned records, and right for all others. */
  lemma AfterOwnerExact(data: seq<byte>, offset: nat, rec: Record)
    requires GoodRecord(rec) && At(data, offset, RecordBytes(rec))
    ensures offset < |data|
    ensures AfterOwner(data, offset) == offset + |OwnerBytes(rec.owner)| + if Aligned(rec) then 0 else 1
  {
    hide SkipLabels, NameBytes, Be16, Be32;
    var owner, fixed := OwnerBytes(rec.owner), FixedBytes(rec);
    AtSplit(data, offset, owner + fixed, rec.rdata);
    AtSplit(data, offset, owner, fixed);
    AtByte(data, offset, owner, 0);
    match rec.owner
    case Pointer(_, _) =>
    case Labels(labels) =>
      SkipPlainName(data, offset, labels);
      if labels == [] {
        EmptyName();
      } else {
        FirstByteOfName(data, offset, labels, [0]);
      }
    case Mixed(labels, hi, lo) =>
      FirstByteOfName(data, offset, labels, [hi, lo]);
      SkipMixedName(data, offset, labels, hi, lo);
      AtByte(data, offset + |owner|, fixed, 0);
      HighByte(rec.rtype);
  }

  lemma EmptyName()
    ensures NameBytes([]) == []
  {
  }

  lemma FixedPart(data: seq<byte>, offset: nat, rec: Record)
    requires GoodRecord(rec) && At(data, offset, FixedBytes(rec))
    ensures Word16(data, offset) == rec.rtype && Word16(data, offset + 8) == |rec.rdata|
  {
    hide FromBe16, Be16, Be32;
    var middle := Be16(rec.rclass) + Be32(rec.ttl);
    AtSplit(data, offset, Be16(rec.rtype) + middle, Be16(|rec.rdata|));
    AtSplit(data, offset, Be16(rec.rtype), middle);
  }

  // ----- Answers -----

  predicate AllAligned(recs: seq<Record>) {
    forall i | 0 <= i < |recs| :: Aligned(recs[i])
  }

  predicate IsARecord(rec: Record) {
    rec.rtype == TYPE_A && |rec.rdata| == 4
  }

  /** The data of the first A record. */
  function FirstA(recs: seq<Record>): Option<seq<byte>> {
    if recs == [] then None
    else if IsARecord(recs[0]) then Some(recs[0].rdata)
    else FirstA(recs[1..])
  }

  /** Every record is aligned up to and including the first A record, behind which the walk does not go. */
  predicate AlignedUpToA(recs: seq<Record>) {
    recs != [] ==> Aligned(recs[0]) && (IsARecord(recs[0]) || AlignedUpToA(recs[1..]))
  }

  /** The parts of a record where the walkers expect them. */
  lemma RecordParts(data: seq<byte>, offset: nat, rec: Record)
    requires GoodRecord(rec) && Aligned(rec) && At(data, offset, RecordBytes(rec))
    ensures offset < |data|
    ensures
      var fixed := AfterOwner(data, offset);
      && fixed + 10 + |rec.rdata| == offset + |RecordBytes(rec)| <= |data|
      && Word16(data, fixed) == rec.rtype && Word16(data, fixed + 8) == |rec.rdata|
      && At(data, fixed + 10, rec.rdata)
  {
    hide AfterOwner, OwnerBytes, FixedBytes, Word16;
    AfterOwnerExact(data, offset, rec);
    AtSplit(data, offset, OwnerBytes(rec.owner) + FixedBytes(rec), rec.rdata);
    AtSplit(data, offset, OwnerBytes(rec.owner), FixedBytes(rec));
    FixedPart(data, offset + |OwnerBytes(rec.owner)|, rec);
  }

  /** Short records before the early break hide nothing: behind an 11-byte record at the end there is no other. */
  lemma BreakHidesNothing(recs: seq<Record>)
    requires GoodRecords(recs) && |RecordsBytes(recs)| < 12
    ensures FirstA(recs) == None
  {
    if recs != [] {
      assert |RecordBytes(recs[0])| >= 11;
      assert recs[1..] == [];
    }
  }

  lemma {:induction false} WalkAExact(data: seq<byte>, offset: nat, recs: seq<Record>)
    requires GoodRecords(recs) && AlignedUpToA(recs) && At(data, offset, RecordsBytes(recs))
    ensures WalkA(data, offset, |recs|) == FirstA(recs)
    decreases |recs|
  {
    hide AfterOwner, RecordBytes, Word16;
    if offset + 12 > |data| {
      BreakHidesNothing(recs);
    } else if recs != [] {
      var rec := recs[0];
      AtSplit(data, offset, RecordBytes(rec), RecordsBytes(recs[1..]));
      RecordParts(data, offset, rec);
      if !IsARecord(rec) {
        WalkAExact(data, offset + |RecordBytes(rec)|, recs[1..]);
      }
    }
  }

  lemma ReplyParts(r: Reply)
    requires GoodReply(r)
    ensures
      var data := ReplyBytes(r);
      && |data| >= 12 && Word16(data, 6) == |r.answers|
      && AfterQuestion(data) == 12 + |QuestionBytes(r)|
      && At(data, 12 + |QuestionBytes(r)|, RecordsBytes(r.answers))
  {
    hide FromBe16, Be16, SkipLabels, SkipZero, NameBytes, RecordsBytes;
    var data := ReplyBytes(r);
    var header, question, answers := HeaderBytes(r), QuestionBytes(r), RecordsBytes(r.answers);
    assert data[..|data|] == data;
    AtSplit(data, 0, header + question + answers, r.trailing);
    AtSplit(data, 0, header + question, answers);
    AtSplit(data, 0, header, question);
    AtSplit(data, 0, r.idToQdcount + Be16(|r.answers|), r.nscountToArcount);
    AtSplit(data, 0, r.idToQdcount, Be16(|r.answers|));
    AtSplit(data, 12, NameBytes(r.question) + [0], r.qtypeAndClass);
    SkipPlainName(data, 12, r.question);
  }

  /** The first A record of every response aligned up to it is found, and nothing else is. */
  lemma ParseAExact(r: Reply)
    requires GoodReply(r) && AlignedUpToA(r.answers)
    ensures ParseA(ReplyBytes(r)) == FirstA(r.answers)
  {
    hide AfterQuestion, Word16, QuestionBytes, ReplyBytes, RecordsBytes;
    ReplyParts(r);
    WalkAExact(ReplyBytes(r), 12 + |QuestionBytes(r)|, r.answers);
  }

  /** A place in the data that reads as the fixed part of an A record followed by an address. */
  predicate ReadsAsA(data: seq<byte>, fixed: nat) {
    fixed + 14 <= |data| && Word16(data, fixed) == TYPE_A && Word16(data, fixed + 8) == 4
  }

  /** Where the fixed part of the k-th record from `offset` on is, going from record to record, if the data lasts. */
  function FixedPartAt(data: seq<byte>, offset: nat, k: nat): Option<nat>
    decreases k
  {
    if offset + 12 > |data| then None
    else
      var fixed := AfterOwner(data, offset);
      if fixed + 10 > |data| then None
      else if k == 0 then Some(fixed)
      else FixedPartAt(data, fixed + 10 + Word16(data, fixed + 8), k - 1)
  }

  predicate IsAAt(data: seq<byte>, offset: nat, k: nat) {
    FixedPartAt(data, offset, k).Some? && ReadsAsA(data, FixedPartAt(data, offset, k).value)
  }

  /** Record k is the first among `count` that reads as an A record, and this is its address. */
  predicate FirstAAt(data: seq<byte>, offset: nat, count: nat, k: nat, ip: seq<byte>) {
    && k < count && IsAAt(data, offset, k)
    && (forall j | 0 <= j < k :: !IsAAt(data, offset, j))
    && var rdata := FixedPartAt(data, offset, k).value + 10;
    ip == data[rdata..rdata + 4]
  }

  /** On any bytes at all, the walk returns an address exactly when it is that of the first A record it reaches. */
  lemma {:induction false} WalkAIsFirst(data: seq<byte>, offset: nat, count: nat, ip: seq<byte>)
    ensures WalkA(data, offset, count) == Some(ip) <==> exists k: nat :: FirstAAt(data, offset, count, k, ip)
    decreases count
  {
    hide Word16, AfterOwner;
    if offset + 12 > |data| || AfterOwner(data, offset) + 10 > |data| {
      NoRecordAt(data, offset);
    } else if count > 0 {
      var fixed := AfterOwner(data, offset);
      var next := fixed + 10 + Word16(data, fixed + 8);
      if ReadsAsA(data, fixed) {
        FirstAAtOnce(data, offset, count, ip);
      } else {
        WalkAIsFirst(data, next, count - 1, ip);
        FirstAAtLater(data, offset, count, count - 1, ip);
      }
    }
  }

  lemma NoRecordAt(data: seq<byte>, offset: nat)
    requires offset + 12 > |data| || AfterOwner(data, offset) + 10 > |data|
    ensures forall k: nat :: FixedPartAt(data, offset, k).None?
  {
  }

  lemma FirstAAtOnce(data: seq<byte>, offset: nat, count: nat, ip: seq<byte>)
    requires count > 0 && IsAAt(data, offset, 0)
    ensures
      var rdata := FixedPartAt(data, offset, 0).value + 10;
      (exists k: nat :: FirstAAt(data, offset, count, k, ip)) <==> ip == data[rdata..rdata + 4]
  {
    hide FixedPartAt;
    var rdata := FixedPartAt(data, offset, 0).value + 10;
    if ip == data[rdata..rdata + 4] {
      assert FirstAAt(data, offset, count, 0, ip);
    }
  }

  lemma FixedPartNext(data: seq<byte>, offset: nat, k: nat)
    requires offset + 12 <= |data| && AfterOwner(data, offset) + 10 <= |data|
    ensures FixedPartAt(data, offset, 0) == Some(AfterOwner(data, offset))
    ensures FixedPartAt(data, offset, k + 1)
         == FixedPartAt(data, AfterOwner(data, offset) + 10 + Word16(data, AfterOwner(data, offset) + 8), k)
  {
  }

  lemma FirstAAtLater(data: seq<byte>, offset: nat, count: nat, rest: nat, ip: seq<byte>)
    requires count == rest + 1 && offset + 12 <= |data| && AfterOwner(data, offset) + 10 <= |data|
    requires !ReadsAsA(data, AfterOwner(data, offset))
    ensures
      var next := AfterOwner(data, offset) + 10 + Word16(data, AfterOwner(data, offset) + 8);
      (exists k: nat :: FirstAAt(data, offset, count, k, ip)) <==> (exists k: nat :: FirstAAt(data, next, rest, k, ip))
  {
    hide FixedPartAt, ReadsAsA, AfterOwner, Word16;
    var next := AfterOwner(data, offset) + 10 + Word16(data, AfterOwner(data, offset) + 8);
    FixedPartNext(data, offset, 0);
    forall k: nat
      ensures FixedPartAt(data, offset, k + 1) == FixedPartAt(data, next, k)
    {
      FixedPartNext(data, offset, k);
    }
    if k: nat :| FirstAAt(data, offset, count, k, ip) {
      assert k > 0;
      assert FixedPartAt(data, next, k - 1) == FixedPartAt(data, offset, k - 1 + 1);
      forall j | 0 <= j < k - 1
        ensures !IsAAt(data, next, j)
      {
        assert FixedPartAt(data, next, j) == FixedPartAt(data, offset, j + 1) && !IsAAt(data, offset, j + 1);
      }
      assert FirstAAt(data, next, rest, k - 1, ip);
    }
    if k: nat :| FirstAAt(data, next, rest, k, ip) {
      forall j | 0 <= j < k + 1
        ensures !IsAAt(data, offset, j)
      {
        if j > 0 {
          assert FixedPartAt(data, offset, j - 1 + 1) == FixedPartAt(data, next, j - 1) && !IsAAt(data, next, j - 1);
        }
      }
      assert FirstAAt(data, offset, count, k + 1, ip);
    }
  }

  /** When the only answer is an A record, its address is found exactly if the owner is not label-then-pointer. */
  lemma OneAnswerExact(r: Reply)
    requires GoodReply(r) && |r.answers| == 1 && IsARecord(r.answers[0])
    ensures ParseA(ReplyBytes(r)) == Some(r.answers[0].rdata) <==> !r.answers[0].owner.Mixed?
  {
    hide AfterQuestion, AfterOwner, FromBe16, QuestionBytes, ReplyBytes;
    var rec := r.answers[0];
    if rec.owner.Mixed? {
      ReplyParts(r);
      var data, offset := ReplyBytes(r), 12 + |QuestionBytes(r)|;
      AtSplit(data, offset, RecordBytes(rec), RecordsBytes(r.answers[1..]));
      ShiftedType(data, offset, rec);
      assert WalkA(data, offset, 1) == None;
    } else {
      ParseAExact(r);
    }
  }

  /** One byte off, a type below 256 is read as 256 or more. */
  lemma ShiftedType(data: seq<byte>, offset: nat, rec: Record)
    requires GoodRecord(rec) && rec.owner.Mixed? && 0 < rec.rtype < 0x100 && rec.rdata != []
    requires At(data, offset, RecordBytes(rec))
    ensures offset < |data|
    ensures
      var fixed := AfterOwner(data, offset);
      fixed + 10 <= |data| && Word16(data, fixed) >= 0x100
  {
    hide AfterOwner, OwnerBytes, Be32;
    AfterOwnerExact(data, offset, rec);
    var owner, fixed := OwnerBytes(rec.owner), FixedBytes(rec);
    AtSplit(data, offset, owner + fixed, rec.rdata);
    AtSplit(data, offset, owner, fixed);
    AtByte(data, offset + |owner|, fixed, 1);
    LowByte(rec.rtype);
    var two := data[offset + |owner| + 1..offset + |owner| + 3];
    FromBe16Bytes(two);
  }

  lemma LowByte(x: u16)
    ensures Be16(x)[1] == x % 0x100
  {
    WordSpans();
    assert Be(x, 2) == Be(x / 0x100, 1) + [x % 0x100];
  }

  // ----- TXT records -----

  /** TXT data: each character-string behind its length. */
  function StringsBytes(strings: seq<seq<byte>>): seq<byte>
    requires IsCut(strings)
  {
    if strings == [] then [] else [|strings[0]|] + strings[0] + StringsBytes(strings[1..])
  }

  lemma {:induction false} JoinStringsBytes(strings: seq<seq<byte>>)
    requires IsCut(strings)
    ensures JoinStrings(StringsBytes(strings)) == Concat(strings)
  {
    if strings != [] {
      var b, rest := StringsBytes(strings), StringsBytes(strings[1..]);
      assert b == [|strings[0]|] + (strings[0] + rest);
      assert b[1..1 + |strings[0]|] == strings[0] && b[1 + |strings[0]|..] == rest;
      JoinStringsBytes(strings[1..]);
      ConcatHead(strings);
    }
  }

  /** The texts of all TXT records, in order, without the empty ones. */
  function TextsOf(recs: seq<Record>): seq<seq<byte>> {
    if recs == [] then [] else TextOf(recs[0].rtype, recs[0].rdata) + TextsOf(recs[1..])
  }

  /** What a server publishes in one record: a payload cut into character-strings, or something else. */
  type Published = Option<seq<seq<byte>>>

  /** The published payloads, without the empty ones. */
  function Payloads(cuts: seq<Published>): seq<seq<byte>> {
    if cuts == [] then []
    else (if cuts[0].None? || Concat(cuts[0].value) == [] then [] else [Concat(cuts[0].value)]) + Payloads(cuts[1..])
  }

  predicate IsCut(strings: seq<seq<byte>>) {
    forall i | 0 <= i < |strings| :: |strings[i]| < 0x100
  }

  predicate Publishes(rec: Record, cut: Published) {
    match cut
    case None => rec.rtype != TYPE_TXT
    case Some(strings) => rec.rtype == TYPE_TXT && IsCut(strings) && rec.rdata == StringsBytes(strings)
  }

  predicate PublishesAll(recs: seq<Record>, cuts: seq<Published>) {
    |recs| == |cuts| && forall i | 0 <= i < |recs| :: Publishes(recs[i], cuts[i])
  }

  lemma TextOfCut(rec: Record, cut: Published)
    requires Publishes(rec, cut)
    ensures TextOf(rec.rtype, rec.rdata) == if cut.None? || Concat(cut.value) == [] then [] else [Concat(cut.value)]
  {
    hide JoinStrings;
    if cut.Some? {
      JoinStringsBytes(cut.value);
    }
  }

  /** Whatever lies between them and however they are cut into character-strings, the texts are the payloads. */
  lemma {:induction false} TextsOfCuts(recs: seq<Record>, cuts: seq<Published>)
    requires PublishesAll(recs, cuts)
    ensures TextsOf(recs) == Payloads(cuts)
  {
    hide TextOf, Publishes, Concat;
    if recs != [] {
      TextOfCut(recs[0], cuts[0]);
      TextsOfCuts(recs[1..], cuts[1..]);
    }
  }

  lemma {:induction false} WalkTxtExact(data: seq<byte>, offset: nat, recs: seq<Record>)
    requires GoodRecords(recs) && AllAligned(recs) && At(data, offset, RecordsBytes(recs))
    ensures WalkTxt(data, offset, |recs|) == TextsOf(recs)
    decreases |recs|
  {
    hide AfterOwner, RecordBytes, Word16, JoinStrings;
    if recs != [] {
      var rec := recs[0];
      AtSplit(data, offset, RecordBytes(rec), RecordsBytes(recs[1..]));
      RecordParts(data, offset, rec);
      WalkTxtExact(data, offset + |RecordBytes(rec)|, recs[1..]);
    }
  }

  lemma ParseTxtExact(r: Reply)
    requires GoodReply(r) && AllAligned(r.answers)
    ensures ParseTxt(ReplyBytes(r)) == TextsOf(r.answers)
  {
    hide AfterQuestion, Word16, QuestionBytes, ReplyBytes, RecordsBytes;
    ReplyParts(r);
    WalkTxtExact(ReplyBytes(r), 12 + |QuestionBytes(r)|, r.answers);
  }

  /** When the only answer is a TXT record with a text, it is found exactly if the owner is not label-then-pointer. */
  lemma OneTextExact(r: Reply)
    requires GoodReply(r) && |r.answers| == 1
    requires r.answers[0].rtype == TYPE_TXT && JoinStrings(r.answers[0].rdata) != []
    ensures ParseTxt(ReplyBytes(r)) == [JoinStrings(r.answers[0].rdata)] <==> !r.answers[0].owner.Mixed?
  {
    hide AfterQuestion, AfterOwner, FromBe16, QuestionBytes, ReplyBytes, JoinStrings, WalkTxt;
    var rec := r.answers[0];
    if rec.owner.Mixed? {
      ReplyParts(r);
      var data, offset := ReplyBytes(r), 12 + |QuestionBytes(r)|;
      AtSplit(data, offset, RecordBytes(rec), RecordsBytes(r.answers[1..]));
      JoinStringsNone();
      ShiftedType(data, offset, rec);
      OtherTypeOnly(data, offset);
    } else {
      ParseTxtExact(r);
      assert TextsOf(r.answers) == TextOf(rec.rtype, rec.rdata) + TextsOf([]);
    }
  }

  /** A walk over one answer of another type finds nothing. */
  lemma OtherTypeOnly(data: seq<byte>, offset: nat)
    requires offset < |data| && AfterOwner(data, offset) + 10 <= |data|
    requires Word16(data, AfterOwner(data, offset)) != TYPE_TXT
    ensures WalkTxt(data, offset, 1) == []
  {
    hide AfterOwner, Word16, WalkTxt;
    WalkTxtStep(data, offset, 1);
    WalkTxtNone(data, AfterOwner(data, offset) + 10 + Word16(data, AfterOwner(data, offset) + 8));
  }

  // ----- The builders' packets -----

  predicate ShortLabels(labels: seq<seq<byte>>) {
    forall i | 0 <= i < |labels| :: |labels[i]| < 0xc0
  }

  lemma {:induction false} NameBytesAppend(a: seq<seq<byte>>, b: seq<seq<byte>>)
    ensures NameBytes(a + b) == NameBytes(a) + NameBytes(b)
  {
    hide LabelBytes;
    if a == [] {
      assert a + b == b;
    } else {
      NameBytesAppend(a[1..], b);
      assert (a + b)[1..] == a[1..] + b;
      assert NameBytes(a + b) == LabelBytes(a[0]) + (NameBytes(a[1..]) + NameBytes(b));
    }
  }

  /** Up to the first empty label, which the walkers take for the root. */
  function FirstEmpty(labels: seq<seq<byte>>): (i: nat)
    ensures i <= |labels| && (i < |labels| ==> labels[i] == [])
    ensures forall j | 0 <= j < i :: labels[j] != []
  {
    if labels == [] || labels[0] == [] then 0 else 1 + FirstEmpty(labels[1..])
  }

  lemma EmptyLabel(labels: seq<seq<byte>>)
    requires labels != [] && labels[0] == []
    ensures NameBytes(labels) == [0] + NameBytes(labels[1..])
  {
    assert LabelBytes([]) == [0];
  }

  /** The bytes of a name: what the walkers skip as a name with its root, and the rest. */
  lemma NameUpToEmpty(labels: seq<seq<byte>>)
    ensures
      var i := FirstEmpty(labels);
      i < |labels| ==> NameBytes(labels) == NameBytes(labels[..i]) + [0] + NameBytes(labels[i + 1..])
  {
    hide FirstEmpty, NameBytes;
    var i := FirstEmpty(labels);
    if i < |labels| {
      NameBytesAppend(labels[..i], labels[i..]);
      assert labels == labels[..i] + labels[i..];
      EmptyLabel(labels[i..]);
      assert labels[i..][1..] == labels[i + 1..];
    }
  }

  /**
   For labels the walkers take for labels, the question skipper ends exactly at the end of the query if and
   only if none is empty: a trailing dot or two in a row stop it before.
   */
  lemma QuestionSkipperExact(domain: seq<byte>, rtype: u16)
    requires ShortLabels(Split<byte>(domain, DOT))
    ensures AfterQuestion(Query(domain, rtype)) == |Query(domain, rtype)| <==>
            forall i | 0 <= i < |Split<byte>(domain, DOT)| :: Split<byte>(domain, DOT)[i] != []
  {
    hide SkipLabels, SkipZero, NameBytes, Split, FirstEmpty, Be16;
    var labels := Split<byte>(domain, DOT);
    var i := FirstEmpty(labels);
    var data, name := Query(domain, rtype), NameBytes(labels[..i]) + [0];
    var rest := if i < |labels| then NameBytes(labels[i + 1..]) + [0] else [];
    NameUpToEmpty(labels);
    assert i == |labels| ==> labels[..i] == labels;
    assert NameBytes(labels) + [0] == name + rest;
    var ending := rest + (Be16(rtype) + [0x00, 0x01]);
    assert data == QUERY_HEADER + name + ending;
    assert data[..|data|] == data;
    AtSplit(data, 0, QUERY_HEADER + name, ending);
    AtSplit(data, 0, QUERY_HEADER, name);
    SkipPlainName(data, 12, labels[..i]);
  }

  // ----- A response, byte for byte -----

  lemma Be16Bytes(x: u16)
    ensures Be16(x) == [x / 0x100, x % 0x100]
  {
    HighByte(x);
    LowByte(x);
  }

  /** The fixed part of a record: type, class, time to live and length, each with its high byte first. */
  lemma FixedBytesExact(rec: Record)
    requires |rec.rdata| < 0x1_0000
    ensures
      var b := FixedBytes(rec);
      && FromBe16(b[0..2]) == rec.rtype && FromBe16(b[2..4]) == rec.rclass && FromBe32(b[4..8]) == rec.ttl
      && FromBe16(b[8..10]) == |rec.rdata|
  {
    hide FromBe16, FromBe32, Be16, Be32;
    var b := FixedBytes(rec);
    assert b[0..2] == Be16(rec.rtype) && b[2..4] == Be16(rec.rclass) && b[4..8] == Be32(rec.ttl);
    assert b[8..10] == Be16(|rec.rdata|);
  }

  const GITHUB: seq<byte> := [103, 105, 116, 104, 117, 98]
  const COM: seq<byte> := [99, 111, 109]

  /** A response to the query for github.com, with one address, as in the repository's own test. */
  const GITHUB_RESPONSE: seq<byte> :=
    [0xab, 0xcd, 0x81, 0x80, 0x00, 0x01, 0x00, 0x01, 0x00, 0x00, 0x00, 0x00]
    + ([6] + GITHUB + [3] + COM + [0] + [0x00, 0x01, 0x00, 0x01])
    + ([0xc0, 0x0c, 0x00, 0x01, 0x00, 0x01, 0x00, 0x00, 0x00, 0x3c, 0x00, 0x04] + [140, 82, 121, 4])

  lemma GithubExample()
    ensures ParseA(GITHUB_RESPONSE) == Some([140, 82, 121, 4])
  {
    hide ParseA, ReplyBytes, GoodReply, AlignedUpToA;
    var rec := Record(Pointer(0xc0, 0x0c), TYPE_A, 1, 60, [140, 82, 121, 4]);
    var reply := Reply([0xab, 0xcd, 0x81, 0x80, 0x00, 0x01], [0x00, 0x00, 0x00, 0x00], [GITHUB, COM],
                       [0x00, 0x01, 0x00, 0x01], [rec], []);
    GithubReply(reply, rec);
    ParseAExact(reply);
    FirstIsA(reply.answers);
  }

  lemma FirstIsA(recs: seq<Record>)
    requires recs != [] && IsARecord(recs[0])
    ensures FirstA(recs) == Some(recs[0].rdata)
  {
  }

  lemma GithubReply(reply: Reply, rec: Record)
    requires rec == Record(Pointer(0xc0, 0x0c), TYPE_A, 1, 60, [140, 82, 121, 4])
    requires reply == Reply([0xab, 0xcd, 0x81, 0x80, 0x00, 0x01], [0x00, 0x00, 0x00, 0x00], [GITHUB, COM],
                            [0x00, 0x01, 0x00, 0x01], [rec], [])
    ensures GoodReply(reply) && AlignedUpToA(reply.answers) && IsARecord(rec) && ReplyBytes(reply) == GITHUB_RESPONSE
  {
    GithubQuestion();
    GithubRecord(rec);
    Be16Bytes(1);
    OneRecord(rec);
    hide Be16, NameBytes, RecordBytes, RecordsBytes;
    assert HeaderBytes(reply) == [0xab, 0xcd, 0x81, 0x80, 0x00, 0x01, 0x00, 0x01, 0x00, 0x00, 0x00, 0x00];
    assert QuestionBytes(reply) == [6] + GITHUB + [3] + COM + [0] + [0x00, 0x01, 0x00, 0x01];
  }

  lemma OneRecord(rec: Record)
    requires GoodRecord(rec)
    ensures RecordsBytes([rec]) == RecordBytes(rec)
  {
    assert [rec][1..] == [];
  }

  /** The query for github.com, type A, byte for byte. */
  lemma GithubQuery()
    ensures Query(GITHUB + [46] + COM, 1) ==
            [0xab, 0xcd, 0x01, 0x00, 0x00, 0x01, 0x00, 0x00, 0x00, 0x00, 0x00, 0x00]
            + ([6] + GITHUB + [3] + COM) + [0x00] + [0x00, 0x01] + [0x00, 0x01]
  {
    GithubQuestion();
    Be16Bytes(1);
    GithubLabels();
    hide NameBytes, Split, Be16;
  }

  lemma GithubLabels()
    ensures Split<byte>(GITHUB + [46] + COM, DOT) == [GITHUB, COM]
  {
    var labels := [GITHUB, COM];
    assert labels[1..] == [COM] && Join(labels, DOT) == GITHUB + [DOT] + COM;
    assert forall i | 0 <= i < |labels| :: DOT !in labels[i];
    SplitJoin(labels, DOT);
  }

  lemma GithubQuestion()
    ensures NameBytes([GITHUB, COM]) == [6] + GITHUB + [3] + COM
  {
    assert [GITHUB, COM][1..] == [COM] && [COM][1..] == [];
    assert NameBytes([COM]) == [3] + COM;
  }

  lemma GithubRecord(rec: Record)
    requires rec == Record(Pointer(0xc0, 0x0c), TYPE_A, 1, 60, [140, 82, 121, 4])
    ensures IsPointer(0xc0)
    ensures RecordBytes(rec)
         == [0xc0, 0x0c, 0x00, 0x01, 0x00, 0x01, 0x00, 0x00, 0x00, 0x3c, 0x00, 0x04] + [140, 82, 121, 4]
  {
    Be16Bytes(1);
    Be16Bytes(4);
    Be32Sixty();
    hide Be16, Be32;
  }

  lemma Be32Sixty()
    ensures Be32(60) == [0, 0, 0, 60]
  {
    FromBe32Bytes([0, 0, 0, 60]);
    BeFromBe([0, 0, 0, 60]);
  }

  /** A response to the same question with one TXT record in two character-strings. */
  const TEXT_RESPONSE: seq<byte> :=
    [0xab, 0xcd, 0x81, 0x80, 0x00, 0x01, 0x00, 0x01, 0x00, 0x00, 0x00, 0x00]
    + ([6] + GITHUB + [3] + COM + [0] + [0x00, 0x10, 0x00, 0x01])
    + ([0xc0, 0x0c, 0x00, 0x10, 0x00, 0x01, 0x00, 0x00, 0x00, 0x3c, 0x00, 0x05] + [2, 97, 98, 1, 99])

  lemma TextExample()
    ensures ParseTxt(TEXT_RESPONSE) == [[97, 98, 99]]
  {
    hide ParseTxt, ReplyBytes, GoodReply;
    var rec := Record(Pointer(0xc0, 0x0c), TYPE_TXT, 1, 60, [2, 97, 98, 1, 99]);
    var reply := Reply([0xab, 0xcd, 0x81, 0x80, 0x00, 0x01], [0x00, 0x00, 0x00, 0x00], [GITHUB, COM],
                       [0x00, 0x10, 0x00, 0x01], [rec], []);
    TextReply(reply, rec);
    ParseTxtExact(reply);
    TextJoined(rec);
    assert TextsOf([rec]) == TextOf(rec.rtype, rec.rdata) + TextsOf([]);
  }

  lemma TextJoined(rec: Record)
    requires rec.rdata == [2, 97, 98, 1, 99]
    ensures JoinStrings(rec.rdata) == [97, 98, 99]
  {
    var first, second: seq<byte> := [97, 98], [99];
    var strings := [first, second];
    assert strings[1..] == [second] && [second][1..] == [];
    assert StringsBytes([second]) == [1, 99];
    assert StringsBytes(strings) == rec.rdata;
    ConcatHead(strings);
    ConcatHead([second]);
    JoinStringsBytes(strings);
  }

  lemma TextReply(reply: Reply, rec: Record)
    requires rec == Record(Pointer(0xc0, 0x0c), TYPE_TXT, 1, 60, [2, 97, 98, 1, 99])
    requires reply == Reply([0xab, 0xcd, 0x81, 0x80, 0x00, 0x01], [0x00, 0x00, 0x00, 0x00], [GITHUB, COM],
                            [0x00, 0x10, 0x00, 0x01], [rec], [])
    ensures GoodReply(reply) && AllAligned(reply.answers) && ReplyBytes(reply) == TEXT_RESPONSE
  {
    GithubQuestion();
    TextRecord(rec);
    Be16Bytes(1);
    OneRecord(rec);
    hide Be16, NameBytes, RecordBytes, RecordsBytes;
    assert HeaderBytes(reply) == [0xab, 0xcd, 0x81, 0x80, 0x00, 0x01, 0x00, 0x01, 0x00, 0x00, 0x00, 0x00];
    assert QuestionBytes(reply) == [6] + GITHUB + [3] + COM + [0] + [0x00, 0x10, 0x00, 0x01];
  }

  lemma TextRecord(rec: Record)
    requires rec == Record(Pointer(0xc0, 0x0c), TYPE_TXT, 1, 60, [2, 97, 98, 1, 99])
    ensures IsPointer(0xc0)
    ensures RecordBytes(rec)
         == [0xc0, 0x0c, 0x00, 0x10, 0x00, 0x01, 0x00, 0x00, 0x00, 0x3c, 0x00, 0x05] + [2, 97, 98, 1, 99]
  {
    Be16Bytes(1);
    Be16Bytes(16);
    Be16Bytes(5);
    Be32Sixty();
    hide Be16, Be32;
  }
}
