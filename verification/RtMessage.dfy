/**
 The tagged message format of Roughtime, as `RtMessage` in src/time.rs reads it: a 32-bit tag
 count n, n - 1 offsets, n tags, then the values one after the other.
 */
module RtMessage {
  import opened Bytes

  datatype Message = Message(tags: seq<u32>, values: seq<seq<byte>>)

  // ----- The encoder, which only the server has -----

  /** Where value i starts in the body. */
  function Start(values: seq<seq<byte>>, i: nat): nat
    requires i <= |values|
  {
    |Concat(values[..i])|
  }

  ghost predicate Encodable(m: Message) {
    && 1 <= |m.tags| == |m.values| < 0x1_0000_0000
    && (forall i | 0 <= i < |m.values| :: |m.values[i]| % 4 == 0)
    && Start(m.values, |m.values| - 1) < 0x1_0000_0000
  }

  function Words(ws: seq<u32>): (s: seq<byte>)
    ensures |s| == 4 * |ws|
  {
    if ws == [] then [] else Words(ws[..|ws| - 1]) + Le32(ws[|ws| - 1])
  }

  lemma {:induction false} StartMonotone(values: seq<seq<byte>>, i: nat, j: nat)
    requires i <= j <= |values|
    ensures Start(values, i) <= Start(values, j)
    decreases j - i
  {
    if i < j {
      StartMonotone(values, i, j - 1);
      assert values[..j][..j - 1] == values[..j - 1];
    }
  }

  /** Word j of the header: the count, then the starts of all values but the first, then the tags. */
  ghost function HeaderWord(m: Message, j: nat): u32
    requires Encodable(m) && j < 2 * |m.tags|
  {
    var n := |m.tags|;
    if j == 0 then n
    else if j < n then
      StartMonotone(m.values, j, n - 1);
      Start(m.values, j)
    else m.tags[j - n]
  }

  ghost function Header(m: Message): (ws: seq<u32>)
    requires Encodable(m)
    ensures |ws| == 2 * |m.tags|
  {
    seq<u32>(2 * |m.tags|, (j: nat) requires j < 2 * |m.tags| => HeaderWord(m, j))
  }

  ghost function Encode(m: Message): seq<byte>
    requires Encodable(m)
  {
    Words(Header(m)) + Concat(m.values)
  }

  // ----- The parser -----

  /** The j-th little-endian word of `data`. */
  function WordAt(data: seq<byte>, j: nat): u32
    requires 4 * j + 4 <= |data|
  {
    FromLe32(data[4 * j..4 * j + 4])
  }

  /** Offset of value i in the body of n values, as the header says; the first is 0 and the last ends with the data. */
  function Boundary(data: seq<byte>, n: nat, i: nat): nat
    requires 1 <= n && 8 * n <= |data| && i <= n
  {
    if i == 0 then 0 else if i < n then WordAt(data, i) else |data| - 8 * n
  }

  /** Value i is a slice of the body that starts and ends on a word. */
  predicate GoodSlice(data: seq<byte>, n: nat, i: nat)
    requires 1 <= n && 8 * n <= |data| && i < n
  {
    && Boundary(data, n, i) <= Boundary(data, n, i + 1) <= |data| - 8 * n
    && Boundary(data, n, i) % 4 == 0
    && Boundary(data, n, i + 1) % 4 == 0
  }

  predicate GoodSlices(data: seq<byte>, n: nat, upTo: nat)
    requires 1 <= n && 8 * n <= |data| && upTo <= n
  {
    forall i | 0 <= i < upTo :: GoodSlice(data, n, i)
  }

  function Slice(data: seq<byte>, n: nat, i: nat): seq<byte>
    requires 1 <= n && 8 * n <= |data| && i < n && GoodSlice(data, n, i)
  {
    data[8 * n..][Boundary(data, n, i)..Boundary(data, n, i + 1)]
  }

  /** The messages the parser accepts, as a function. */
  function Decode(data: seq<byte>): Option<Message> {
    if |data| < 4 then None
    else
      var n := WordAt(data, 0);
      if n == 0 || |data| < 8 * n || !GoodSlices(data, n, n) then None
      else
        Some(Message(
               seq<u32>(n, i requires 0 <= i < n => WordAt(data, n + i)),
               seq(n, i requires 0 <= i < n => Slice(data, n, i))))
  }

  /** What it takes for `data` to be read as m, field by field. */
  ghost predicate Decodes(data: seq<byte>, m: Message) {
    var n := |m.tags|;
    && 1 <= n == |m.values| && 8 * n <= |data|
    && WordAt(data, 0) == n
    && (forall i | 0 <= i < n :: m.tags[i] == WordAt(data, n + i))
    && (forall i | 0 <= i < n :: GoodSlice(data, n, i) && m.values[i] == Slice(data, n, i))
  }

  lemma DecodeIsDecodes(data: seq<byte>, m: Message)
    ensures Decode(data) == Some(m) <==> Decodes(data, m)
  {
    if Decodes(data, m) {
      assert Decode(data).value.tags == m.tags;
      assert Decode(data).value.values == m.values;
    }
  }

  method Parse(data: seq<byte>) returns (r: Option<Message>)
    ensures r == Decode(data)
  {
    hide FromLe32;
    if |data| < 4 {
      return None;
    }
    var numTags: nat := FromLe32(data[0..4]);
    if numTags == 0 {
      return None;
    }
    var headerLen := 8 * numTags;
    if |data| < headerLen {
      return None;
    }

    var offsets: seq<nat> := [0];
    for i := 0 to numTags - 1
      invariant |offsets| == i + 1
      invariant forall k | 0 <= k <= i :: offsets[k] == Boundary(data, numTags, k)
    {
      var idx := 4 + i * 4;
      offsets := offsets + [FromLe32(data[idx..idx + 4])];
    }

    var tags: seq<u32> := [];
    var tagsStart := 4 + (numTags - 1) * 4;
    for i := 0 to numTags
      invariant |tags| == i
      invariant forall k | 0 <= k < i :: tags[k] == WordAt(data, numTags + k)
    {
      var idx := tagsStart + i * 4;
      tags := tags + [FromLe32(data[idx..idx + 4])];
    }

    var valuesStart := 8 * numTags;
    var valuesLen := |data| - valuesStart;
    var valuesData := data[valuesStart..];
    for i := 0 to numTags
      invariant GoodSlices(data, numTags, i)
    {
      var start := offsets[i];
      var end := if i + 1 < numTags then offsets[i + 1] else valuesLen;
      assert start == Boundary(data, numTags, i) && end == Boundary(data, numTags, i + 1);
      if start > end || end > valuesLen {
        assert !GoodSlice(data, numTags, i);
        return None;
      }
      if start % 4 != 0 || end % 4 != 0 {
        assert !GoodSlice(data, numTags, i);
        return None;
      }
    }

    var values: seq<seq<byte>> := [];
    for i := 0 to numTags
      invariant |values| == i
      invariant forall k | 0 <= k < i :: values[k] == Slice(data, numTags, k)
    {
      assert GoodSlice(data, numTags, i);
      var start := offsets[i];
      var end := if i + 1 < numTags then offsets[i + 1] else valuesLen;
      values := values + [valuesData[start..end]];
    }
    assert tags == Decode(data).value.tags && values == Decode(data).value.values;
    r := Some(Message(tags, values));
  }

  // ----- The parser inverts the encoder, in both directions -----

  lemma {:induction false} WordsAt(ws: seq<u32>, j: nat)
    requires j < |ws|
    ensures Words(ws)[4 * j..4 * j + 4] == Le32(ws[j])
  {
    var n := |ws| - 1;
    if j < n {
      WordsAt(ws[..n], j);
      assert Words(ws)[4 * j..4 * j + 4] == Words(ws[..n])[4 * j..4 * j + 4];
    }
  }

  lemma EncodedWord(m: Message, j: nat)
    requires Encodable(m) && j < 2 * |m.tags|
    ensures |Encode(m)| == 8 * |m.tags| + |Concat(m.values)|
    ensures WordAt(Encode(m), j) == Header(m)[j]
  {
    WordsAt(Header(m), j);
    assert Encode(m)[4 * j..4 * j + 4] == Words(Header(m))[4 * j..4 * j + 4];
  }

  lemma {:induction false} StartAligned(values: seq<seq<byte>>, i: nat)
    requires i <= |values| && forall k | 0 <= k < |values| :: |values[k]| % 4 == 0
    ensures Start(values, i) % 4 == 0
  {
    if i > 0 {
      StartAligned(values, i - 1);
      assert values[..i][..i - 1] == values[..i - 1];
    }
  }

  /** Value i occupies exactly the bytes from Start(i) to Start(i + 1). */
  lemma {:induction false} ConcatSlice(values: seq<seq<byte>>, i: nat)
    requires i < |values|
    ensures Start(values, i) <= Start(values, i + 1) <= |Concat(values)|
    ensures Concat(values)[Start(values, i)..Start(values, i + 1)] == values[i]
    decreases |values|
  {
    var n := |values| - 1;
    var init := values[..n];
    assert values[..i + 1][..i] == values[..i];
    if i < n {
      ConcatSlice(init, i);
      assert init[..i] == values[..i] && init[..i + 1] == values[..i + 1];
    } else {
      assert values[..i + 1] == values;
    }
  }

  lemma EncodedBoundary(m: Message, i: nat)
    requires Encodable(m) && i <= |m.tags|
    ensures |Encode(m)| == 8 * |m.tags| + |Concat(m.values)|
    ensures Boundary(Encode(m), |m.tags|, i) == Start(m.values, i)
  {
    EncodedWord(m, 0);
    assert m.values[..|m.tags|] == m.values;
    if 0 < i < |m.tags| {
      EncodedWord(m, i);
    }
  }

  lemma EncodedSlice(m: Message, i: nat)
    requires Encodable(m) && i < |m.tags|
    ensures 8 * |m.tags| <= |Encode(m)|
    ensures GoodSlice(Encode(m), |m.tags|, i) && Slice(Encode(m), |m.tags|, i) == m.values[i]
  {
    EncodedBoundary(m, i);
    EncodedBoundary(m, i + 1);
    ConcatSlice(m.values, i);
    StartAligned(m.values, i);
    StartAligned(m.values, i + 1);
    assert Encode(m)[8 * |m.tags|..] == Concat(m.values);
  }

  lemma EncodedTag(m: Message, i: nat)
    requires Encodable(m) && i < |m.tags|
    ensures 8 * |m.tags| <= |Encode(m)|
    ensures WordAt(Encode(m), |m.tags| + i) == m.tags[i]
  {
    hide Encode, Start;
    EncodedWord(m, |m.tags| + i);
  }

  lemma DecodeEncode(m: Message)
    requires Encodable(m)
    ensures Decode(Encode(m)) == Some(m)
  {
    hide Decode, Start, Concat, Encode, GoodSlice, FromLe32;
    EncodedWord(m, 0);
    forall i | 0 <= i < |m.tags|
      ensures m.tags[i] == WordAt(Encode(m), |m.tags| + i)
    {
      EncodedTag(m, i);
    }
    forall i | 0 <= i < |m.tags|
      ensures GoodSlice(Encode(m), |m.tags|, i) && m.values[i] == Slice(Encode(m), |m.tags|, i)
    {
      EncodedSlice(m, i);
    }
    DecodeIsDecodes(Encode(m), m);
  }

  lemma {:induction false} WordsRead(data: seq<byte>, ws: seq<u32>)
    requires 4 * |ws| <= |data|
    requires forall j | 0 <= j < |ws| :: ws[j] == WordAt(data, j)
    ensures Words(ws) == data[..4 * |ws|]
  {
    hide FromLe, Le;
    if ws != [] {
      var j := |ws| - 1;
      WordsRead(data, ws[..j]);
      LeFromLe(data[4 * j..4 * j + 4]);
    }
  }

  /** The accepted slices tile the body: no gap and no overlap up to any boundary. */
  lemma {:induction false} SlicesTile(data: seq<byte>, n: nat, values: seq<seq<byte>>, i: nat)
    requires 1 <= n && 8 * n <= |data| && GoodSlices(data, n, n) && i <= n == |values|
    requires forall k | 0 <= k < n :: values[k] == Slice(data, n, k)
    ensures Boundary(data, n, i) <= |data| - 8 * n
    ensures Concat(values[..i]) == data[8 * n..][..Boundary(data, n, i)]
    decreases i
  {
    if i > 0 {
      SlicesTile(data, n, values, i - 1);
      assert values[..i][..i - 1] == values[..i - 1];
      assert GoodSlice(data, n, i - 1);
    }
  }

  lemma DecodedStart(data: seq<byte>, m: Message, i: nat)
    requires Decodes(data, m) && i <= |m.tags|
    ensures Start(m.values, i) == Boundary(data, |m.tags|, i)
  {
    hide FromLe32;
    SlicesTile(data, |m.tags|, m.values, i);
  }

  lemma DecodedBody(data: seq<byte>, m: Message)
    requires Decodes(data, m)
    ensures Concat(m.values) == data[8 * |m.tags|..]
  {
    hide FromLe32, GoodSlice;
    SlicesTile(data, |m.tags|, m.values, |m.tags|);
    assert m.values[..|m.tags|] == m.values;
  }

  lemma DecodedEncodable(data: seq<byte>, m: Message)
    requires Decodes(data, m)
    ensures Encodable(m)
  {
    hide FromLe32, Concat, Start;
    DecodedStart(data, m, |m.tags| - 1);
    assert Boundary(data, |m.tags|, |m.tags| - 1) < 0x1_0000_0000;
    forall i | 0 <= i < |m.tags|
      ensures |m.values[i]| % 4 == 0
    {
      assert GoodSlice(data, |m.tags|, i);
    }
  }

  lemma DecodedHeader(data: seq<byte>, m: Message, j: nat)
    requires Decodes(data, m) && Encodable(m) && j < 2 * |m.tags|
    ensures HeaderWord(m, j) == WordAt(data, j)
  {
    hide Start, Concat, GoodSlice, FromLe32;
    var n := |m.tags|;
    if n <= j {
      assert m.tags[j - n] == WordAt(data, n + (j - n));
    } else {
      DecodedStart(data, m, j);
    }
  }

  lemma EncodeDecode(data: seq<byte>, m: Message)
    requires Decode(data) == Some(m)
    ensures Encodable(m) && Encode(m) == data
  {
    hide Decode, Start, Concat, Encodable, HeaderWord, FromLe32, GoodSlice, Words;
    DecodeIsDecodes(data, m);
    DecodedEncodable(data, m);
    forall j | 0 <= j < 2 * |m.tags|
      ensures Header(m)[j] == WordAt(data, j)
    {
      DecodedHeader(data, m, j);
    }
    WordsRead(data, Header(m));
    DecodedBody(data, m);
    assert data == data[..8 * |m.tags|] + data[8 * |m.tags|..];
  }

  /** The parser accepts exactly the encodings, and reads each one back as what was encoded. */
  lemma CodecBijection(data: seq<byte>, m: Message)
    ensures Decode(data) == Some(m) <==> Encodable(m) && Encode(m) == data
  {
    hide Decode, Encode, Encodable;
    if Decode(data) == Some(m) {
      EncodeDecode(data, m);
    } else if Encodable(m) {
      DecodeEncode(m);
    }
  }

  // ----- Byte for byte -----

  /** Four bytes of the data, the lowest first. */
  function Raw32(data: seq<byte>, p: nat): nat
    requires p + 4 <= |data|
  {
    data[p] as int + 0x100 * data[p + 1] as int + 0x1_0000 * data[p + 2] as int + 0x100_0000 * data[p + 3] as int
  }

  lemma WordAtRaw(data: seq<byte>, j: nat)
    requires 4 * j + 4 <= |data|
    ensures WordAt(data, j) == Raw32(data, 4 * j)
  {
    hide FromLe32;
    FromLe32Bytes(data[4 * j..4 * j + 4]);
  }

  /** Where the header of n tags says that value i starts, from the end of the header on. */
  function RawStart(data: seq<byte>, n: nat, i: nat): nat
    requires 1 <= n && 8 * n <= |data| && i <= n
  {
    if i == 0 then 0 else if i == n then |data| - 8 * n else Raw32(data, 4 * i)
  }

  /** Value i is a slice of whole words, in order and within the data. */
  predicate RawSlice(data: seq<byte>, n: nat, i: nat, value: seq<byte>)
    requires 1 <= n && 8 * n <= |data| && i < n
  {
    var start, end := RawStart(data, n, i), RawStart(data, n, i + 1);
    && start % 4 == 0 && end % 4 == 0 && 8 * n + start <= 8 * n + end <= |data|
    && value == data[8 * n + start..8 * n + end]
  }

  lemma RawSliceExact(data: seq<byte>, n: nat, i: nat, value: seq<byte>)
    requires 1 <= n && 8 * n <= |data| && i < n
    ensures RawSlice(data, n, i, value) <==> GoodSlice(data, n, i) && value == Slice(data, n, i)
  {
    hide WordAt, Raw32;
    if 0 < i {
      WordAtRaw(data, i);
    }
    if i + 1 < n {
      WordAtRaw(data, i + 1);
    }
    var body := data[8 * n..];
    var start, end := RawStart(data, n, i), RawStart(data, n, i + 1);
    if start <= end <= |body| {
      assert body[start..end] == data[8 * n + start..8 * n + end];
    }
  }

  /** The layout that is read, byte for byte: count, offsets of all values but the first, tags, values. */
  lemma ReadExact(data: seq<byte>, m: Message)
    ensures Decode(data) == Some(m) <==>
            var n := |m.tags|;
            && 1 <= n == |m.values| && 8 * n <= |data|
            && Raw32(data, 0) == n
            && (forall i | 0 <= i < n :: m.tags[i] == Raw32(data, 4 * (n + i)))
            && (forall i | 0 <= i < n :: RawSlice(data, n, i, m.values[i]))
  {
    hide Decode, WordAt, GoodSlice, Slice, Raw32, RawSlice;
    DecodeIsDecodes(data, m);
    var n := |m.tags|;
    if 1 <= n == |m.values| && 8 * n <= |data| {
      WordAtRaw(data, 0);
      forall i | 0 <= i < n
        ensures m.tags[i] == WordAt(data, n + i) <==> m.tags[i] == Raw32(data, 4 * (n + i))
        ensures RawSlice(data, n, i, m.values[i]) <==> GoodSlice(data, n, i) && m.values[i] == Slice(data, n, i)
      {
        WordAtRaw(data, n + i);
        RawSliceExact(data, n, i, m.values[i]);
      }
    }
  }

  // ----- Tag lookup -----

  predicate FirstAt(m: Message, tag: u32, i: nat) {
    i < |m.tags| && m.tags[i] == tag && tag !in m.tags[..i]
  }

  /** The value of the first occurrence of the tag, searched from index i on. */
  function LookupFrom(m: Message, tag: u32, i: nat): (r: Option<seq<byte>>)
    requires |m.tags| == |m.values| && i <= |m.tags|
    decreases |m.tags| - i
  {
    if i == |m.tags| then None
    else if m.tags[i] == tag then Some(m.values[i])
    else LookupFrom(m, tag, i + 1)
  }

  function Lookup(m: Message, tag: u32): Option<seq<byte>>
    requires |m.tags| == |m.values|
  {
    LookupFrom(m, tag, 0)
  }

  method Get(m: Message, tag: u32) returns (r: Option<seq<byte>>)
    requires |m.tags| == |m.values|
    ensures r == Lookup(m, tag)
  {
    for i := 0 to |m.tags|
      invariant LookupFrom(m, tag, i) == Lookup(m, tag)
    {
      if m.tags[i] == tag {
        return Some(m.values[i]);
      }
    }
    r := None;
  }

  lemma {:induction false} LookupFromIsFirst(m: Message, tag: u32, i: nat)
    requires |m.tags| == |m.values| && i <= |m.tags| && tag !in m.tags[..i]
    ensures LookupFrom(m, tag, i).None? <==> tag !in m.tags
    ensures forall j: nat | FirstAt(m, tag, j) :: LookupFrom(m, tag, i) == Some(m.values[j])
    decreases |m.tags| - i
  {
    if i < |m.tags| && m.tags[i] != tag {
      LookupFromIsFirst(m, tag, i + 1);
    }
  }

  /** A lookup fails exactly for absent tags, and otherwise yields the value of the first occurrence. */
  lemma LookupIsFirst(m: Message, tag: u32)
    requires |m.tags| == |m.values|
    ensures Lookup(m, tag).None? <==> tag !in m.tags
    ensures forall j: nat | FirstAt(m, tag, j) :: Lookup(m, tag) == Some(m.values[j])
  {
    LookupFromIsFirst(m, tag, 0);
  }
}
