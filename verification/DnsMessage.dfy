/** DNS messages in src/dns.rs: the query builders and the two index-driven walkers (RFC 1035, section 4.1). */
module DnsMessage {
  import opened Bytes
  import opened Text

  const TYPE_A: u16 := 1
  const TYPE_TXT: u16 := 16

  // ----- Walking, as functions of the position -----

  /** The two high bits mark a compression pointer. */
  predicate IsPointer(b: byte)
    ensures IsPointer(b) <==> b >= 0xc0
  {
    (b as bv8) & 0xc0 == 0xc0
  }

  /** Past the labels, up to a zero byte, a pointer's end or the end of the data; it may overshoot. */
  function SkipLabels(data: seq<byte>, offset: nat): nat
    decreases |data| - offset
  {
    if offset >= |data| || data[offset] == 0 then offset
    else if IsPointer(data[offset]) then offset + 2
    else SkipLabels(data, offset + data[offset] + 1)
  }

  function SkipZero(data: seq<byte>, offset: nat): nat {
    if offset < |data| && data[offset] == 0 then offset + 1 else offset
  }

  function AfterQuestion(data: seq<byte>): nat {
    SkipZero(data, SkipLabels(data, 12)) + 4
  }

  function AfterOwner(data: seq<byte>, offset: nat): nat
    requires offset < |data|
  {
    if IsPointer(data[offset]) then offset + 2 else SkipZero(data, SkipLabels(data, offset))
  }

  function Word16(data: seq<byte>, offset: nat): u16
    requires offset + 2 <= |data|
  {
    FromBe16(data[offset..offset + 2])
  }

  /** The address in the first A record among `count` answers from `offset` on, as the code walks them. */
  function WalkA(data: seq<byte>, offset: nat, count: nat): Option<seq<byte>>
    decreases count
  {
    if count == 0 || offset + 12 > |data| then None
    else
      var fixed := AfterOwner(data, offset);
      if fixed + 10 > |data| then None
      else
        var rtype, rdlength := Word16(data, fixed), Word16(data, fixed + 8);
        var rdata := fixed + 10;
        if rtype == TYPE_A && rdlength == 4 && rdata + 4 <= |data| then Some(data[rdata..rdata + 4])
        else WalkA(data, rdata + rdlength, count - 1)
  }

  function ParseA(data: seq<byte>): Option<seq<byte>> {
    if |data| < 12 then None else WalkA(data, AfterQuestion(data), Word16(data, 6))
  }

  /** The character-strings of a TXT record, joined; a cut-off last one is ignored. */
  function JoinStrings(rdata: seq<byte>): seq<byte> {
    if rdata == [] || 1 + rdata[0] as int > |rdata| then []
    else rdata[1..1 + rdata[0]] + JoinStrings(rdata[1 + rdata[0]..])
  }

  /** The text of a record, if it has any. */
  function TextOf(rtype: u16, rdata: seq<byte>): seq<seq<byte>> {
    if rtype == TYPE_TXT && JoinStrings(rdata) != [] then [JoinStrings(rdata)] else []
  }

  function WalkTxt(data: seq<byte>, offset: nat, count: nat): seq<seq<byte>>
    decreases count
  {
    if count == 0 || offset + 2 > |data| then []
    else
      var fixed := AfterOwner(data, offset);
      if fixed + 10 > |data| then []
      else
        var rtype, rdlength := Word16(data, fixed), Word16(data, fixed + 8);
        var rdata := fixed + 10;
        if rdata + rdlength > |data| then []
        else
          TextOf(rtype, data[rdata..rdata + rdlength]) + WalkTxt(data, rdata + rdlength, count - 1)
  }

  function ParseTxt(data: seq<byte>): seq<seq<byte>> {
    if |data| < 12 then [] else WalkTxt(data, AfterQuestion(data), Word16(data, 6))
  }

  // ----- The code -----

  /** The label loop, written out in the source before and inside both answer loops. */
  method SkipLabelLoop(data: seq<byte>, start: nat) returns (offset: nat)
    ensures offset == SkipLabels(data, start)
  {
    offset := start;
    while offset < |data| && data[offset] != 0
      invariant SkipLabels(data, offset) == SkipLabels(data, start)
      decreases |data| - offset
    {
      if IsPointer(data[offset]) {
        offset := offset + 2;
        return;
      }
      offset := offset + data[offset] + 1;
    }
  }

  method SkipQuestion(data: seq<byte>) returns (offset: nat)
    ensures offset == AfterQuestion(data)
  {
    offset := SkipLabelLoop(data, 12);
    if offset < |data| && data[offset] == 0 {
      offset := offset + 1;
    }
    offset := offset + 4;
  }

  method SkipOwner(data: seq<byte>, start: nat) returns (offset: nat)
    requires start < |data|
    ensures offset == AfterOwner(data, start)
  {
    offset := start;
    if IsPointer(data[offset]) {
      offset := offset + 2;
    } else {
      offset := SkipLabelLoop(data, offset);
      if offset < |data| && data[offset] == 0 {
        offset := offset + 1;
      }
    }
  }

  method ParseDnsResponse(data: seq<byte>) returns (r: Option<seq<byte>>)
    ensures r == ParseA(data)
  {
    hide FromBe16, AfterOwner, AfterQuestion;
    if |data| < 12 {
      return None;
    }
    var ancount: nat := FromBe16(data[6..8]);
    var offset: nat := SkipQuestion(data);
    for k := 0 to ancount
      invariant WalkA(data, offset, ancount - k) == ParseA(data)
    {
      if offset + 12 > |data| {
        break;
      }
      offset := SkipOwner(data, offset);
      if offset + 10 > |data| {
        break;
      }
      var atype := FromBe16(data[offset..offset + 2]);
      var rdlength := FromBe16(data[offset + 8..offset + 10]);
      offset := offset + 10;
      if atype == 1 && rdlength == 4 && offset + 4 <= |data| {
        return Some(data[offset..offset + 4]);
      }
      offset := offset + rdlength;
    }
    r := None;
  }

  /** One character-string, at position i of the record. */
  lemma JoinStringsStep(rdata: seq<byte>, i: nat)
    requires i < |rdata|
    ensures
      var end := i + 1 + rdata[i] as int;
      JoinStrings(rdata[i..]) == if end > |rdata| then [] else rdata[i + 1..end] + JoinStrings(rdata[end..])
  {
    var end := i + 1 + rdata[i] as int;
    if end <= |rdata| {
      assert rdata[i..][1..end - i] == rdata[i + 1..end];
      assert rdata[i..][end - i..] == rdata[end..];
    }
  }

  lemma JoinStringsNone()
    ensures JoinStrings([]) == []
  {
  }

  method JoinStringLoop(rdata: seq<byte>) returns (txtData: seq<byte>)
    ensures txtData == JoinStrings(rdata)
  {
    hide JoinStrings;
    txtData := [];
    var i := 0;
    assert rdata[0..] == rdata && rdata[|rdata|..] == [];
    JoinStringsNone();
    while i < |rdata|
      invariant i <= |rdata|
      invariant txtData + JoinStrings(rdata[i..]) == JoinStrings(rdata)
    {
      JoinStringsStep(rdata, i);
      var chunkLen := rdata[i] as int;
      if i + 1 + chunkLen > |rdata| {
        break;
      }
      txtData := txtData + rdata[i + 1..i + 1 + chunkLen];
      i := i + 1 + chunkLen;
    }
  }

  /** One answer of the TXT walk. */
  lemma WalkTxtStep(data: seq<byte>, offset: nat, count: nat)
    requires count > 0
    ensures offset + 2 > |data| ==> WalkTxt(data, offset, count) == []
    ensures offset + 2 <= |data| ==>
              var fixed := AfterOwner(data, offset);
              && (fixed + 10 > |data| ==> WalkTxt(data, offset, count) == [])
              && (fixed + 10 <= |data| ==>
                    var end := fixed + 10 + Word16(data, fixed + 8);
                    WalkTxt(data, offset, count) ==
                    if end > |data| then []
                    else TextOf(Word16(data, fixed), data[fixed + 10..end]) + WalkTxt(data, end, count - 1))
  {
    hide AfterOwner, Word16, TextOf;
  }

  lemma WalkTxtNone(data: seq<byte>, offset: nat)
    ensures WalkTxt(data, offset, 0) == []
  {
  }

  /** The text of a record is what the loop over it joins, unless it is empty or of another type. */
  method AddText(results: seq<seq<byte>>, rtype: u16, rdata: seq<byte>) returns (r: seq<seq<byte>>)
    ensures r == results + TextOf(rtype, rdata)
  {
    hide JoinStrings;
    r := results;
    if rtype == 16 {
      var txtData := JoinStringLoop(rdata);
      if txtData != [] {
        r := r + [txtData];
      }
    }
  }

  method ParseTxtResponse(data: seq<byte>) returns (results: seq<seq<byte>>)
    ensures results == ParseTxt(data)
  {
    hide FromBe16, AfterOwner, AfterQuestion, TextOf, WalkTxt;
    results := [];
    if |data| < 12 {
      return;
    }
    var ancount: nat := FromBe16(data[6..8]);
    var offset: nat := SkipQuestion(data);
    for k := 0 to ancount
      invariant results + WalkTxt(data, offset, ancount - k) == ParseTxt(data)
    {
      WalkTxtStep(data, offset, ancount - k);
      if offset >= |data| {
        break;
      }
      if offset + 2 > |data| {
        break;
      }
      offset := SkipOwner(data, offset);
      if offset + 10 > |data| {
        break;
      }
      var rtype := FromBe16(data[offset..offset + 2]);
      var rdlength := FromBe16(data[offset + 8..offset + 10]);
      offset := offset + 10;
      if offset + rdlength > |data| {
        break;
      }
      results := AddText(results, rtype, data[offset..offset + rdlength]);
      offset := offset + rdlength;
    }
    WalkTxtNone(data, offset);
  }

  // ----- The builders -----

  const QUERY_HEADER: seq<byte> := [0xab, 0xcd, 0x01, 0x00, 0x00, 0x01, 0x00, 0x00, 0x00, 0x00, 0x00, 0x00]

  const DOT: byte := 46

  /** A length byte, which keeps the low eight bits, and the label. */
  function LabelBytes(part: seq<byte>): seq<byte> {
    [|part| % 0x100] + part
  }

  function NameBytes(labels: seq<seq<byte>>): seq<byte> {
    if labels == [] then [] else LabelBytes(labels[0]) + NameBytes(labels[1..])
  }

  function Query(domain: seq<byte>, rtype: u16): seq<byte> {
    QUERY_HEADER + NameBytes(Split<byte>(domain, DOT)) + [0] + Be16(rtype) + [0x00, 0x01]
  }

  /** The labels of a name from an offset on, each behind its length, and where the name ends. */
  function ReadName(data: seq<byte>, offset: nat): Option<(seq<seq<byte>>, nat)>
    decreases |data| - offset
  {
    if offset >= |data| then None
    else if data[offset] == 0 then Some(([], offset + 1))
    else
      var end := offset + 1 + data[offset] as int;
      if end > |data| then None
      else
        var (labels, after) :- ReadName(data, end);
        Some(([data[offset + 1..end]] + labels, after))
  }

  predicate WireLabels(labels: seq<seq<byte>>) {
    forall i | 0 <= i < |labels| :: 0 < |labels[i]| < 0x100
  }

  lemma LabelAt(data: seq<byte>, offset: nat, part: seq<byte>)
    requires |part| < 0x100 && At(data, offset, LabelBytes(part))
    ensures |LabelBytes(part)| == 1 + |part| && offset + 1 + |part| <= |data|
    ensures data[offset] == |part| && data[offset + 1..offset + 1 + |part|] == part
  {
    var whole := data[offset..offset + 1 + |part|];
    assert whole[0] == |part| && whole[1..] == part;
  }

  lemma ReadNameStep(data: seq<byte>, offset: nat, end: nat, labels: seq<seq<byte>>, after: nat)
    requires offset < |data| && data[offset] != 0 && end == offset + 1 + data[offset] as int <= |data|
    requires ReadName(data, end) == Some((labels, after))
    ensures ReadName(data, offset) == Some(([data[offset + 1..end]] + labels, after))
  {
  }

  lemma ReadNameRoot(data: seq<byte>, offset: nat)
    requires At(data, offset, [0])
    ensures ReadName(data, offset) == Some(([], offset + 1))
  {
    assert data[offset..offset + 1][0] == 0;
  }

  lemma NameBytesSplit(labels: seq<seq<byte>>)
    ensures labels == [] ==> NameBytes(labels) + [0] == [0]
    ensures labels != [] ==> NameBytes(labels) + [0] == LabelBytes(labels[0]) + (NameBytes(labels[1..]) + [0])
  {
  }

  lemma {:induction false} ReadNameBytes(data: seq<byte>, offset: nat, labels: seq<seq<byte>>)
    requires WireLabels(labels) && At(data, offset, NameBytes(labels) + [0])
    ensures ReadName(data, offset) == Some((labels, offset + |NameBytes(labels)| + 1))
    decreases |labels|
  {
    hide At, LabelBytes, NameBytes, ReadName;
    NameBytesSplit(labels);
    if labels == [] {
      ReadNameRoot(data, offset);
    } else {
      var first, rest := labels[0], NameBytes(labels[1..]) + [0];
      AtSplit(data, offset, LabelBytes(first), rest);
      LabelAt(data, offset, first);
      var end := offset + 1 + |first|;
      ReadNameBytes(data, end, labels[1..]);
      ReadNameStep(data, offset, end, labels[1..], end + |rest|);
      assert labels == [first] + labels[1..];
    }
  }

  /** A reader of the query finds the header, the labels of the domain, the type and class IN, and nothing else. */
  lemma QueryReadBack(domain: seq<byte>, rtype: u16)
    requires WireLabels(Split<byte>(domain, DOT))
    ensures
      var labels, data := Split<byte>(domain, DOT), Query(domain, rtype);
      && |data| >= 16
      && data[..12] == [0xab, 0xcd, 0x01, 0x00, 0x00, 0x01, 0x00, 0x00, 0x00, 0x00, 0x00, 0x00]
      && ReadName(data, 12) == Some((labels, |data| - 4))
      && FromBe16(data[|data| - 4..|data| - 2]) == rtype && data[|data| - 2..] == [0x00, 0x01]
      && Join(labels, DOT) == domain
  {
    hide ReadName, NameBytes, Split, Join, Be16, FromBe16;
    var labels, data := Split<byte>(domain, DOT), Query(domain, rtype);
    var name := NameBytes(labels) + [0];
    JoinSplit(domain, DOT);
    assert data == QUERY_HEADER + name + (Be16(rtype) + [0x00, 0x01]);
    assert data[12..12 + |name|] == name;
    ReadNameBytes(data, 12, labels);
  }

  /** Both builders, which differ in the type they ask for. */
  method BuildQuery(domain: seq<byte>, rtype: u16) returns (query: seq<byte>)
    ensures query == Query(domain, rtype)
  {
    query := QUERY_HEADER;
    var parts: seq<seq<byte>> := Split<byte>(domain, DOT);
    for k := 0 to |parts|
      invariant query + NameBytes(parts[k..]) == QUERY_HEADER + NameBytes(parts)
    {
      assert parts[k..][1..] == parts[k + 1..];
      query := query + [|parts[k]| % 0x100];
      query := query + parts[k];
    }
    query := query + [0];
    query := query + Be16(rtype) + [0x00, 0x01];
  }

  method BuildARecordQuery(domain: seq<byte>) returns (query: seq<byte>)
    ensures query == Query(domain, TYPE_A)
  {
    query := BuildQuery(domain, TYPE_A);
  }

  method BuildTxtRecordQuery(domain: seq<byte>) returns (query: seq<byte>)
    ensures query == Query(domain, TYPE_TXT)
  {
    query := BuildQuery(domain, TYPE_TXT);
  }
}
