/** The string operations of Rust's standard library that the loader parses with. */
module Text {
  import opened Bytes

  // ----- split -----

  /** `split` at a separator: always at least one piece. */
  function Split<T(==)>(s: seq<T>, sep: T): (parts: seq<seq<T>>)
    ensures |parts| >= 1
  {
    if s == [] then [[]]
    else if s[0] == sep then [[]] + Split(s[1..], sep)
    else
      var rest := Split(s[1..], sep);
      [[s[0]] + rest[0]] + rest[1..]
  }

  function Join<T>(parts: seq<seq<T>>, sep: T): seq<T>
    requires parts != []
  {
    if |parts| == 1 then parts[0] else parts[0] + [sep] + Join(parts[1..], sep)
  }

  lemma JoinFirst<T>(first: seq<T>, rest: seq<seq<T>>, sep: T)
    requires rest != []
    ensures Join([first] + rest, sep) == first + [sep] + Join(rest, sep)
  {
    assert ([first] + rest)[1..] == rest;
  }

  lemma Join3<T>(a: seq<T>, b: seq<T>, c: seq<T>, sep: T)
    ensures Join([a, b, c], sep) == a + [sep] + (b + [sep] + c)
  {
    assert [a, b, c][1..] == [b, c] && [b, c][1..] == [c];
    assert Join([b, c], sep) == b + [sep] + c;
  }

  lemma {:induction false} SplitPiece<T>(piece: seq<T>, sep: T, rest: seq<T>)
    requires sep !in piece
    ensures Split(piece + [sep] + rest, sep) == [piece] + Split(rest, sep)
  {
    var s := piece + [sep] + rest;
    if piece == [] {
      assert s[1..] == rest;
    } else {
      SplitPiece(piece[1..], sep, rest);
      assert s[1..] == piece[1..] + [sep] + rest;
      assert piece == [piece[0]] + piece[1..];
    }
  }

  lemma {:induction false} SplitLast<T>(piece: seq<T>, sep: T)
    requires sep !in piece
    ensures Split(piece, sep) == [piece]
  {
    if piece != [] {
      SplitLast(piece[1..], sep);
      assert piece == [piece[0]] + piece[1..];
    }
  }

  lemma {:induction false} SplitJoin<T>(parts: seq<seq<T>>, sep: T)
    requires parts != [] && forall i | 0 <= i < |parts| :: sep !in parts[i]
    ensures Split(Join(parts, sep), sep) == parts
  {
    if |parts| == 1 {
      SplitLast(parts[0], sep);
    } else {
      SplitJoin(parts[1..], sep);
      SplitPiece(parts[0], sep, Join(parts[1..], sep));
    }
  }

  lemma {:induction false} JoinAvoids<T>(parts: seq<seq<T>>, sep: T, c: T)
    requires parts != [] && c != sep && forall i | 0 <= i < |parts| :: c !in parts[i]
    ensures c !in Join(parts, sep)
  {
    if |parts| > 1 {
      JoinAvoids(parts[1..], sep, c);
    }
  }

  lemma {:induction false} JoinSplit<T>(s: seq<T>, sep: T)
    ensures Join(Split(s, sep), sep) == s
    ensures forall i | 0 <= i < |Split(s, sep)| :: sep !in Split(s, sep)[i]
  {
    if s != [] {
      JoinSplit(s[1..], sep);
      var rest := Split(s[1..], sep);
      if s[0] != sep && |rest| > 1 {
        assert Split(s, sep)[1..] == rest[1..];
      }
    }
  }

  // ----- split_once -----

  lemma SplitLater<T>(s: seq<T>, sep: T, k: seq<T>, v: seq<T>)
    requires s != [] && s[0] != sep && sep !in k && s[1..] == k + [sep] + v
    ensures sep !in [s[0]] + k && s == [s[0]] + k + [sep] + v && sep in s
  {
    assert s == [s[0]] + s[1..];
    assert sep in s[1..] by {
      assert s[1..][|k|] == sep;
    }
  }

  lemma NotInTail<T>(s: seq<T>, sep: T)
    requires s != [] && s[0] != sep && sep !in s[1..]
    ensures sep !in s
  {
    assert s == [s[0]] + s[1..];
  }

  /** The text before and after the first separator. */
  function SplitOnce<T(==)>(s: seq<T>, sep: T): (r: Option<(seq<T>, seq<T>)>)
    ensures r.None? <==> sep !in s
    ensures r.Some? ==> sep !in r.value.0 && s == r.value.0 + [sep] + r.value.1
  {
    if s == [] then None
    else if s[0] == sep then
      assert s == [] + [sep] + s[1..];
      Some(([], s[1..]))
    else
      match SplitOnce(s[1..], sep)
      case None =>
        NotInTail(s, sep);
        None
      case Some((k, v)) =>
        SplitLater(s, sep, k, v);
        Some(([s[0]] + k, v))
  }

  lemma {:induction false} SplitOnceAt<T>(a: seq<T>, sep: T, b: seq<T>)
    requires sep !in a
    ensures SplitOnce(a + [sep] + b, sep) == Some((a, b))
  {
    var s := a + [sep] + b;
    if a == [] {
      assert s[1..] == b;
    } else {
      SplitOnceAt(a[1..], sep, b);
      assert s[1..] == a[1..] + [sep] + b;
      assert a == [a[0]] + a[1..];
    }
  }

  // ----- split_whitespace -----

  /** The Unicode property White_Space. */
  predicate IsWhitespace(c: char) {
    var x := c as int;
    || 0x09 <= x <= 0x0d || x == 0x20 || x == 0x85 || x == 0xa0 || x == 0x1680 || 0x2000 <= x <= 0x200a
    || x == 0x2028 || x == 0x2029 || x == 0x202f || x == 0x205f || x == 0x3000
  }

  /** The white space characters, one by one. */
  lemma WhitespaceExact(c: char)
    ensures IsWhitespace(c) <==>
            c in {'\t', '\n', '\U{b}', '\U{c}', '\r', ' ', '\U{85}', '\U{a0}', '\U{1680}', '\U{2000}', '\U{2001}',
                  '\U{2002}', '\U{2003}', '\U{2004}', '\U{2005}', '\U{2006}', '\U{2007}', '\U{2008}', '\U{2009}',
                  '\U{200a}', '\U{2028}', '\U{2029}', '\U{202f}', '\U{205f}', '\U{3000}'}
  {
    if IsWhitespace(c) {
      assert c == (c as int) as char;
    }
  }

  function TokenLength(s: string): (k: nat)
    ensures k <= |s|
    ensures forall i | 0 <= i < k :: !IsWhitespace(s[i])
    ensures k < |s| ==> IsWhitespace(s[k])
  {
    if s == [] || IsWhitespace(s[0]) then 0 else 1 + TokenLength(s[1..])
  }

  function SplitWhitespace(s: string): seq<string> {
    if s == [] then []
    else if IsWhitespace(s[0]) then SplitWhitespace(s[1..])
    else
      var k := TokenLength(s);
      [s[..k]] + SplitWhitespace(s[k..])
  }

  predicate IsToken(s: string) {
    s != [] && forall i | 0 <= i < |s| :: !IsWhitespace(s[i])
  }

  lemma FirstToken(token: string, rest: string)
    requires IsToken(token) && (rest == [] || IsWhitespace(rest[0]))
    ensures SplitWhitespace(token + rest) == [token] + SplitWhitespace(rest)
  {
    var s := token + rest;
    var k := TokenLength(s);
    assert forall i | 0 <= i < |token| :: s[i] == token[i];
    assert rest != [] ==> s[|token|] == rest[0];
    assert k == |token|;
    assert s[..k] == token && s[k..] == rest;
  }

  function Spaced(tokens: seq<string>): string
    requires tokens != []
  {
    Join(tokens, ' ')
  }

  lemma SkipSpace(rest: string)
    ensures SplitWhitespace([' '] + rest) == SplitWhitespace(rest) && SplitWhitespace([]) == [] && IsWhitespace(' ')
  {
    assert ([' '] + rest)[1..] == rest;
  }

  lemma {:induction false} SplitSpaced(tokens: seq<string>)
    requires tokens != [] && forall i | 0 <= i < |tokens| :: IsToken(tokens[i])
    ensures SplitWhitespace(Spaced(tokens)) == tokens
  {
    hide SplitWhitespace, IsWhitespace, IsToken;
    if |tokens| == 1 {
      FirstToken(tokens[0], []);
      SkipSpace([]);
      assert tokens[0] + [] == tokens[0];
    } else {
      SplitSpaced(tokens[1..]);
      var rest := Spaced(tokens[1..]);
      SkipSpace(rest);
      FirstToken(tokens[0], [' '] + rest);
      assert Spaced(tokens) == tokens[0] + ([' '] + rest);
    }
  }

  predicate AllSpace(s: string) {
    forall i | 0 <= i < |s| :: IsWhitespace(s[i])
  }

  lemma {:induction false} SkipSpaces(gap: string, rest: string)
    requires AllSpace(gap)
    ensures SplitWhitespace(gap + rest) == SplitWhitespace(rest)
  {
    if gap == [] {
      assert gap + rest == rest;
    } else {
      assert (gap + rest)[1..] == gap[1..] + rest;
      SkipSpaces(gap[1..], rest);
    }
  }

  /** A word and the white space behind it. */
  datatype Word = Word(token: string, gap: string)

  function WordsText(words: seq<Word>): string {
    if words == [] then [] else words[0].token + (words[0].gap + WordsText(words[1..]))
  }

  function TokensOf(words: seq<Word>): (tokens: seq<string>)
    ensures |tokens| == |words|
  {
    seq(|words|, i requires 0 <= i < |words| => words[i].token)
  }

  predicate WellSpaced(words: seq<Word>) {
    forall i | 0 <= i < |words| ::
      IsToken(words[i].token) && AllSpace(words[i].gap) && (i + 1 < |words| ==> words[i].gap != [])
  }

  lemma GapIsSpace(gap: string, rest: string)
    requires AllSpace(gap) && (gap == [] ==> rest == [])
    ensures gap + rest == [] || IsWhitespace((gap + rest)[0])
  {
  }

  /** Words are found whatever white space lies before, between and behind them. */
  lemma {:induction false} SplitWords(lead: string, words: seq<Word>)
    requires AllSpace(lead) && WellSpaced(words)
    ensures SplitWhitespace(lead + WordsText(words)) == TokensOf(words)
    decreases |words|
  {
    hide SplitWhitespace, IsWhitespace, IsToken, AllSpace;
    SkipSpaces(lead, WordsText(words));
    if words == [] {
      SkipSpace([]);
    } else {
      var rest := WordsText(words[1..]);
      assert WellSpaced(words[1..]);
      SplitWords(words[0].gap, words[1..]);
      GapIsSpace(words[0].gap, rest);
      FirstToken(words[0].token, words[0].gap + rest);
      assert TokensOf(words) == [words[0].token] + TokensOf(words[1..]);
    }
  }

  // ----- parse::<u64> -----

  predicate IsDigit(c: char) {
    '0' <= c <= '9'
  }

  function DigitValue(c: char): (d: nat)
    requires IsDigit(c)
    ensures d < 10
  {
    c as int - '0' as int
  }

  function DigitOf(d: nat): (c: char)
    requires d < 10
    ensures IsDigit(c) && DigitValue(c) == d
  {
    ('0' as int + d) as char
  }

  predicate AllDigits(s: string) {
    forall i | 0 <= i < |s| :: IsDigit(s[i])
  }

  function Decimal(s: string): nat
    requires AllDigits(s)
  {
    if s == [] then 0 else 10 * Decimal(s[..|s| - 1]) + DigitValue(s[|s| - 1])
  }

  /** An optional plus sign and at least one digit, with a value that fits. */
  function ParseU64(s: string): Option<u64> {
    var digits := if s != [] && s[0] == '+' then s[1..] else s;
    if digits == [] || !AllDigits(digits) then None
    else
      var value := Decimal(digits);
      if value < U64_SIZE then Some(value) else None
  }

  /** A number is read from digits, with or without a plus sign, if it fits; leading zeros are allowed. */
  lemma ParseU64Exact(s: string, n: nat)
    ensures ParseU64(s) == Some(n) <==>
            && n < U64_SIZE
            && exists digits | digits != [] && AllDigits(digits) ::
                 (s == digits || s == "+" + digits) && Decimal(digits) == n
  {
    hide Decimal;
    if digits :| digits != [] && AllDigits(digits) && (s == digits || s == "+" + digits) && Decimal(digits) == n {
      assert IsDigit(digits[0]);
      assert s != digits ==> s[1..] == digits;
    }
    if ParseU64(s) == Some(n) {
      var digits := if s != [] && s[0] == '+' then s[1..] else s;
      assert s == digits || s == "+" + digits;
    }
  }

  /** n in exactly `width` decimal digits. */
  function Padded(n: nat, width: nat): (s: string)
    ensures |s| == width && AllDigits(s)
  {
    if width == 0 then [] else Padded(n / 10, width - 1) + [DigitOf(n % 10)]
  }

  function Pow10(n: nat): (p: nat)
    ensures p >= 1
  {
    if n == 0 then 1 else 10 * Pow10(n - 1)
  }

  lemma LastDigit(n: nat)
    ensures n == 10 * (n / 10) + n % 10
  {
  }

  lemma DecimalSnoc(s: string, c: char)
    requires AllDigits(s) && IsDigit(c)
    ensures AllDigits(s + [c]) && Decimal(s + [c]) == 10 * Decimal(s) + DigitValue(c)
  {
    assert (s + [c])[..|s|] == s;
  }

  lemma PaddedSnoc(n: nat, width: nat)
    requires width > 0
    ensures Padded(n, width) == Padded(n / 10, width - 1) + [DigitOf(n % 10)]
  {
  }

  lemma {:induction false} DecimalPadded(n: nat, width: nat)
    requires n < Pow10(width)
    ensures Decimal(Padded(n, width)) == n
  {
    if width > 0 {
      hide Padded, Decimal, DigitOf, DigitValue;
      LastDigit(n);
      PaddedSnoc(n, width);
      DecimalPadded(n / 10, width - 1);
      DecimalSnoc(Padded(n / 10, width - 1), DigitOf(n % 10));
    }
  }

  lemma ParsePadded(n: nat, width: nat)
    requires 0 < width && n < Pow10(width) && n < U64_SIZE
    ensures ParseU64(Padded(n, width)) == Some(n)
  {
    DecimalPadded(n, width);
    assert IsDigit(Padded(n, width)[0]);
  }
}
