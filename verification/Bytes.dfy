/** Machine integers, byte strings and the fixed-width encodings the loader reads and writes. */
module Bytes {
  type byte = x: int | 0 <= x < 0x100
  type u16 = x: int | 0 <= x < 0x1_0000
  type u32 = x: int | 0 <= x < 0x1_0000_0000
  type u64 = x: int | 0 <= x < 0x1_0000_0000_0000_0000

  const U64_SIZE := 0x1_0000_0000_0000_0000

  datatype Option<+T> = None | Some(value: T) {
    predicate IsFailure() { None? }

    function PropagateFailure<U>(): Option<U>
      requires None?
    {
      None
    }

    function Extract(): T
      requires Some?
    {
      value
    }

    /** `ok_or`: a missing value becomes the given error. */
    function OkOr<E>(error: E): Result<T, E> {
      match this
      case Some(v) => Ok(v)
      case None => Err(error)
    }
  }

  datatype Result<+T, +E> = Ok(value: T) | Err(error: E) {
    predicate IsFailure() { Err? }

    function PropagateFailure<U>(): Result<U, E>
      requires Err?
    {
      Err(error)
    }

    function Extract(): T
      requires Ok?
    {
      value
    }
  }

  function Pow2(n: nat): (p: nat)
    ensures p >= 1
  {
    if n == 0 then 1 else 2 * Pow2(n - 1)
  }

  lemma Digits(base: nat, low: nat, high: nat)
    requires base == 2 || base == 0x100
    requires low < base
    ensures (low + base * high) % base == low && (low + base * high) / base == high
  {
  }

  // ----- Little-endian and big-endian words -----

  /** The number of byte strings of length n. */
  function Span(n: nat): (p: nat)
    ensures p >= 1
  {
    if n == 0 then 1 else 0x100 * Span(n - 1)
  }

  lemma WordSpans()
    ensures Span(2) == 0x1_0000 && Span(4) == 0x1_0000_0000 && Span(8) == U64_SIZE
  {
    assert Span(2) == 0x100 * Span(1) == 0x1_0000;
    assert Span(4) == 0x100 * Span(3) && Span(3) == 0x100 * Span(2);
    assert Span(6) == 0x100 * Span(5) && Span(5) == 0x100 * Span(4);
    assert Span(8) == 0x100 * Span(7) && Span(7) == 0x100 * Span(6);
  }

  function FromLe(s: seq<byte>): (x: nat)
    ensures x < Span(|s|)
  {
    if s == [] then 0 else (s[0] as int) + 0x100 * FromLe(s[1..])
  }

  /** The little-endian encoding of x in exactly n bytes. */
  function Le(x: nat, n: nat): (s: seq<byte>)
    requires x < Span(n)
    ensures |s| == n && FromLe(s) == x
  {
    if n == 0 then []
    else
      var rest := Le(x / 0x100, n - 1);
      var s := [x % 0x100] + rest;
      assert s[1..] == rest;
      s
  }

  lemma {:induction false} LeFromLe(s: seq<byte>)
    ensures Le(FromLe(s), |s|) == s
  {
    if s != [] {
      Digits(0x100, s[0], FromLe(s[1..]));
      LeFromLe(s[1..]);
      assert s == [s[0]] + s[1..];
    }
  }

  function FromBe(s: seq<byte>): (x: nat)
    ensures x < Span(|s|)
  {
    if s == [] then 0 else FromBe(s[..|s| - 1]) * 0x100 + s[|s| - 1]
  }

  /** The big-endian encoding of x in exactly n bytes. */
  function Be(x: nat, n: nat): (s: seq<byte>)
    requires x < Span(n)
    ensures |s| == n && FromBe(s) == x
  {
    if n == 0 then []
    else
      var rest := Be(x / 0x100, n - 1);
      var s := rest + [x % 0x100];
      assert s[..|s| - 1] == rest;
      s
  }

  lemma {:induction false} BeFromBe(s: seq<byte>)
    ensures Be(FromBe(s), |s|) == s
  {
    if s != [] {
      Digits(0x100, s[|s| - 1], FromBe(s[..|s| - 1]));
      BeFromBe(s[..|s| - 1]);
      assert s == s[..|s| - 1] + [s[|s| - 1]];
    }
  }

  function FromLe32(s: seq<byte>): u32
    requires |s| == 4
  {
    WordSpans();
    FromLe(s)
  }

  function Le32(x: u32): (s: seq<byte>)
    ensures |s| == 4 && FromLe32(s) == x
  {
    WordSpans();
    Le(x, 4)
  }

  function FromLe64(s: seq<byte>): u64
    requires |s| == 8
  {
    WordSpans();
    FromLe(s)
  }

  function Le64(x: u64): (s: seq<byte>)
    ensures |s| == 8 && FromLe64(s) == x
  {
    WordSpans();
    Le(x, 8)
  }

  function FromBe16(s: seq<byte>): u16
    requires |s| == 2
  {
    WordSpans();
    FromBe(s)
  }

  function Be16(x: u16): (s: seq<byte>)
    ensures |s| == 2 && FromBe16(s) == x
  {
    WordSpans();
    Be(x, 2)
  }

  function FromBe32(s: seq<byte>): u32
    requires |s| == 4
  {
    WordSpans();
    FromBe(s)
  }

  function Be32(x: u32): (s: seq<byte>)
    ensures |s| == 4 && FromBe32(s) == x
  {
    WordSpans();
    Be(x, 4)
  }

  // ----- Which byte counts how much -----

  /** Later bytes of a little-endian word count more. */
  lemma FromLeFour(s: seq<byte>)
    requires |s| >= 4
    ensures FromLe(s) == s[0] as int + 0x100 * s[1] as int + 0x1_0000 * s[2] as int + 0x100_0000 * s[3] as int
                         + 0x1_0000_0000 * FromLe(s[4..])
  {
    assert s[1..][1..] == s[2..] && s[2..][1..] == s[3..] && s[3..][1..] == s[4..];
    assert FromLe(s[3..]) == s[3] as int + 0x100 * FromLe(s[4..]);
    assert FromLe(s[2..]) == s[2] as int + 0x100 * FromLe(s[3..]);
    assert FromLe(s[1..]) == s[1] as int + 0x100 * FromLe(s[2..]);
  }

  lemma FromLe32Bytes(s: seq<byte>)
    requires |s| == 4
    ensures FromLe32(s) == s[0] as int + 0x100 * s[1] as int + 0x1_0000 * s[2] as int + 0x100_0000 * s[3] as int
  {
    FromLeFour(s);
  }

  lemma FromLe64Bytes(s: seq<byte>)
    requires |s| == 8
    ensures FromLe64(s) ==
            s[0] as int + 0x100 * s[1] as int + 0x1_0000 * s[2] as int + 0x100_0000 * s[3] as int
            + 0x1_0000_0000 * s[4] as int + 0x100_0000_0000 * s[5] as int
            + 0x1_0000_0000_0000 * s[6] as int + 0x100_0000_0000_0000 * s[7] as int
  {
    hide FromLe;
    FromLeFour(s);
    FromLeFour(s[4..]);
    assert s[4..][4..] == [];
    EmptyLe();
  }

  lemma EmptyLe()
    ensures FromLe([]) == 0
  {
  }

  lemma FromBe16Bytes(s: seq<byte>)
    requires |s| == 2
    ensures FromBe16(s) == 0x100 * s[0] as int + s[1] as int
  {
    assert s[..1][..0] == [];
    assert FromBe(s[..1]) == s[0];
  }

  lemma FromBe32Bytes(s: seq<byte>)
    requires |s| == 4
    ensures FromBe32(s) == 0x100_0000 * s[0] as int + 0x1_0000 * s[1] as int + 0x100 * s[2] as int + s[3] as int
  {
    assert s[..3][..2] == s[..2] && s[..2][..1] == s[..1] && s[..1][..0] == [];
    assert FromBe(s[..1]) == s[0];
    assert FromBe(s[..2]) == FromBe(s[..1]) * 0x100 + s[1];
    assert FromBe(s[..3]) == FromBe(s[..2]) * 0x100 + s[2];
  }

  // ----- Bitwise operations on bytes -----

  /** Exclusive or of the low n bits. */
  function XorBits(a: nat, b: nat, n: nat): (x: nat)
    ensures x < Pow2(n)
  {
    if n == 0 then 0 else (if a % 2 == b % 2 then 0 else 1) + 2 * XorBits(a / 2, b / 2, n - 1)
  }

  lemma {:induction false} XorBitsInvolution(a: nat, b: nat, n: nat)
    requires a < Pow2(n)
    ensures XorBits(XorBits(a, b, n), b, n) == a
  {
    if n > 0 {
      Digits(2, if a % 2 == b % 2 then 0 else 1, XorBits(a / 2, b / 2, n - 1));
      XorBitsInvolution(a / 2, b / 2, n - 1);
    }
  }

  function Xor(a: byte, b: byte): byte {
    assert Pow2(8) == 2 * Pow2(7) && Pow2(6) == 2 * Pow2(5) && Pow2(4) == 2 * Pow2(3) && Pow2(2) == 4;
    XorBits(a, b, 8)
  }

  lemma XorInvolution(a: byte, b: byte)
    ensures Xor(Xor(a, b), b) == a
  {
    assert Pow2(8) == 2 * Pow2(7) && Pow2(6) == 2 * Pow2(5) && Pow2(4) == 2 * Pow2(3) && Pow2(2) == 4;
    XorBitsInvolution(a, b, 8);
  }

  /** Bit i of x, counted from the lowest. */
  function Bit(x: nat, i: nat): nat {
    if i == 0 then x % 2 else Bit(x / 2, i - 1)
  }

  lemma {:induction false} XorBitsBit(a: nat, b: nat, n: nat, i: nat)
    requires i < n
    ensures Bit(XorBits(a, b, n), i) == (Bit(a, i) + Bit(b, i)) % 2
  {
    Digits(2, if a % 2 == b % 2 then 0 else 1, XorBits(a / 2, b / 2, n - 1));
    if i > 0 {
      XorBitsBit(a / 2, b / 2, n - 1, i - 1);
    }
  }

  /** Each bit of the exclusive or is the sum of the two bits without carry. */
  lemma XorBit(a: byte, b: byte, i: nat)
    requires i < 8
    ensures Bit(Xor(a, b), i) == (Bit(a, i) + Bit(b, i)) % 2
  {
    hide XorBits, Bit;
    XorBitsBit(a, b, 8, i);
  }

  lemma {:induction false} XorBitsZero(b: nat, n: nat)
    requires b < Pow2(n)
    ensures XorBits(0, b, n) == b
  {
    if n > 0 {
      XorBitsZero(b / 2, n - 1);
    }
  }

  lemma XorZero(b: byte)
    ensures Xor(0, b) == b
  {
    assert Pow2(8) == 2 * Pow2(7) && Pow2(6) == 2 * Pow2(5) && Pow2(4) == 2 * Pow2(3) && Pow2(2) == 4;
    XorBitsZero(b, 8);
  }

  // ----- Byte strings inside byte strings -----

  /** `part` occurs in `data` at `offset`. */
  predicate At(data: seq<byte>, offset: nat, part: seq<byte>) {
    offset + |part| <= |data| && data[offset..offset + |part|] == part
  }

  lemma AtSplit(data: seq<byte>, offset: nat, left: seq<byte>, right: seq<byte>)
    requires At(data, offset, left + right)
    ensures At(data, offset, left) && At(data, offset + |left|, right)
  {
    var whole := data[offset..offset + |left + right|];
    assert left == whole[..|left|] && right == whole[|left|..];
  }

  function Zeros(n: nat): (s: seq<byte>)
    ensures |s| == n && forall i | 0 <= i < n :: s[i] == 0
  {
    seq(n, _ => 0)
  }

  // ----- Sequences -----

  predicate Sorted(s: seq<int>) {
    forall i, j | 0 <= i < j < |s| :: s[i] <= s[j]
  }

  function Concat(parts: seq<seq<byte>>): seq<byte> {
    if parts == [] then [] else Concat(parts[..|parts| - 1]) + parts[|parts| - 1]
  }

  lemma {:induction false} ConcatHead(parts: seq<seq<byte>>)
    requires parts != []
    ensures Concat(parts) == parts[0] + Concat(parts[1..])
  {
    var k := |parts| - 1;
    if k > 0 {
      ConcatHead(parts[..k]);
      assert parts[..k][1..] == parts[1..][..k - 1];
    }
  }

  lemma {:induction false} ConcatAppend(a: seq<seq<byte>>, b: seq<seq<byte>>)
    ensures Concat(a + b) == Concat(a) + Concat(b)
  {
    if b == [] {
      assert a + b == a;
    } else {
      var k := |b| - 1;
      ConcatAppend(a, b[..k]);
      assert (a + b)[..|a + b| - 1] == a + b[..k];
      assert Concat(a + b) == Concat(a) + Concat(b[..k]) + b[k];
    }
  }
}
