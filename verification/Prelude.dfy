/** Values shared by every part of the model. */
module Prelude {

  datatype Option<+T> = None | Some(value: T)

  datatype Result<+T, +E> = Ok(value: T) | Err(error: E)

  /** One octet of a Rust `u8` slice. */
  newtype byte = b: int | 0 <= b < 256
}

/** Division with remainder, where the solver wants to be told the quotient. */
module Arithmetic {

  lemma DivMod(n: int, m: int, q: int, r: int)
    requires n == m * q + r && 0 <= r < m
    ensures n / m == q && n % m == r
  {
    var d := n / m - q;
    assert m * d == r - n % m by {
      assert n == m * (n / m) + n % m;
    }
    assert d >= 1 ==> m * d >= m;
    assert d <= -1 ==> m * d <= -m;
  }
}

/** Letters and digits. */
module Ascii {

  const UPPER: string := "ABCDEFGHIJKLMNOPQRSTUVWXYZ"
  const LOWER: string := "abcdefghijklmnopqrstuvwxyz"
  const DIGITS: string := "0123456789"

  lemma UpperInOrder(i: int)
    requires 0 <= i < 26
    ensures |UPPER| == 26 && UPPER[i] as int == 'A' as int + i
  {
  }

  lemma LowerInOrder(i: int)
    requires 0 <= i < 26
    ensures |LOWER| == 26 && LOWER[i] as int == 'a' as int + i
  {
  }

  lemma DigitsInOrder(i: int)
    requires 0 <= i < 10
    ensures |DIGITS| == 10 && DIGITS[i] as int == '0' as int + i
  {
  }

  /** Being one of them is being between the first and the last. */
  lemma InOrder(c: char)
    ensures c in UPPER <==> 'A' <= c <= 'Z'
    ensures c in LOWER <==> 'a' <= c <= 'z'
    ensures c in DIGITS <==> '0' <= c <= '9'
  {
    hide UPPER, LOWER, DIGITS;
    UpperInOrder(if 'A' <= c <= 'Z' then c as int - 'A' as int else 0);
    LowerInOrder(if 'a' <= c <= 'z' then c as int - 'a' as int else 0);
    DigitsInOrder(if '0' <= c <= '9' then c as int - '0' as int else 0);
    if i :| 0 <= i < 26 && UPPER[i] == c {
      UpperInOrder(i);
    }
    if i :| 0 <= i < 26 && LOWER[i] == c {
      LowerInOrder(i);
    }
    if i :| 0 <= i < 10 && DIGITS[i] == c {
      DigitsInOrder(i);
    }
  }
}

/** Text broken up by gaps, as PEM and base64 allow. */
module Gaps {

  /** The text with a gap before its first item and after every item. */
  function Spread<T>(text: seq<T>, gaps: seq<seq<T>>): seq<T>
    requires |gaps| == |text| + 1
  {
    if text == [] then gaps[0]
    else Spread(text[..|text| - 1], gaps[..|text|]) + [text[|text| - 1]] + gaps[|text|]
  }

  /** What follows the last item can be added to the last gap. */
  lemma SpreadMore<T>(text: seq<T>, gaps: seq<seq<T>>, more: seq<T>)
    requires |gaps| == |text| + 1
    ensures Spread(text, gaps[|text| := gaps[|text|] + more]) == Spread(text, gaps) + more
  {
    var longer := gaps[|text| := gaps[|text|] + more];
    if text != [] {
      assert longer[..|text|] == gaps[..|text|];
    }
  }

  /** A new item takes an empty gap after it. */
  lemma SpreadItem<T>(text: seq<T>, gaps: seq<seq<T>>, item: T)
    requires |gaps| == |text| + 1
    ensures Spread(text + [item], gaps + [[]]) == Spread(text, gaps) + [item]
  {
    assert (text + [item])[..|text|] == text && (gaps + [[]])[..|text| + 1] == gaps;
  }
}

/** The handful of string operations of Rust's standard library that the code leans on. */
module Text {
  import opened Prelude
  import opened Arithmetic
  import opened Gaps

  /** `char::is_whitespace`: the characters with the Unicode property White_Space. */
  predicate IsWhitespace(c: char) {
    || '\t' <= c <= '\r' || c == ' ' || c == '\U{0085}' || c == '\U{00A0}' || c == '\U{1680}'
    || '\U{2000}' <= c <= '\U{200A}' || c == '\U{2028}' || c == '\U{2029}' || c == '\U{202F}'
    || c == '\U{205F}' || c == '\U{3000}'
  }

  /** `str::trim().is_empty()`. */
  predicate Blank(s: string) {
    forall c | c in s :: IsWhitespace(c)
  }

  /** The UTF-8 encoding of a character, and of a string. */
  function Utf8Char(c: char): seq<byte> {
    var n := c as int;
    if n < 0x80 then [n as byte]
    else if n < 0x800 then [(0xC0 + n / 0x40) as byte, (0x80 + n % 0x40) as byte]
    else if n < 0x1_0000 then
      [(0xE0 + n / 0x1000) as byte, (0x80 + n / 0x40 % 0x40) as byte, (0x80 + n % 0x40) as byte]
    else
      [(0xF0 + n / 0x4_0000) as byte, (0x80 + n / 0x1000 % 0x40) as byte, (0x80 + n / 0x40 % 0x40) as byte,
       (0x80 + n % 0x40) as byte]
  }

  /** The number the low bits of the octets of a character spell. */
  function CodePoint(octets: seq<byte>): int {
    if |octets| == 1 then octets[0] as int
    else if |octets| == 2 then (octets[0] as int - 0xC0) * 0x40 + octets[1] as int - 0x80
    else if |octets| == 3 then
      (octets[0] as int - 0xE0) * 0x1000 + (octets[1] as int - 0x80) * 0x40 + octets[2] as int - 0x80
    else if |octets| == 4 then
      (octets[0] as int - 0xF0) * 0x4_0000 + (octets[1] as int - 0x80) * 0x1000
      + (octets[2] as int - 0x80) * 0x40 + octets[3] as int - 0x80
    else 0
  }

  lemma Sixes(n: nat)
    ensures n == n / 0x40 * 0x40 + n % 0x40
    ensures n == n / 0x1000 * 0x1000 + n / 0x40 % 0x40 * 0x40 + n % 0x40
    ensures n == n / 0x4_0000 * 0x4_0000 + n / 0x1000 % 0x40 * 0x1000 + n / 0x40 % 0x40 * 0x40 + n % 0x40
  {
    var a := n / 0x40;
    var b := a / 0x40;
    DivMod(n, 0x1000, b, a % 0x40 * 0x40 + n % 0x40);
    DivMod(n, 0x4_0000, b / 0x40, b % 0x40 * 0x1000 + a % 0x40 * 0x40 + n % 0x40);
  }

  /** One octet below 0x80, or up to four from 0x80 on, that spell the character. */
  lemma Utf8Spells(c: char)
    ensures CodePoint(Utf8Char(c)) == c as int
    ensures if c as int < 0x80 then |Utf8Char(c)| == 1 else forall i | 0 <= i < |Utf8Char(c)| :: Utf8Char(c)[i] >= 0x80
  {
    Sixes(c as int);
  }

  function Utf8(s: string): seq<byte> {
    if s == "" then [] else Utf8(s[..|s| - 1]) + Utf8Char(s[|s| - 1])
  }

  /** An ASCII character shows up in the encoding as itself. */
  lemma {:induction false} Utf8Shows(s: string, c: char)
    requires c in s && c as int < 0x80
    ensures c as int as byte in Utf8(s)
  {
    var last := |s| - 1;
    assert s == s[..last] + [s[last]];
    if c in s[..last] {
      Utf8Shows(s[..last], c);
    } else {
      assert c == s[last];
    }
  }

  predicate OccursAt(s: string, pattern: string, i: nat) {
    i + |pattern| <= |s| && s[i..i + |pattern|] == pattern
  }

  /** `str::find`. */
  function Find(s: string, pattern: string): (found: Option<nat>)
    ensures found.Some? ==> OccursAt(s, pattern, found.value)
    ensures found.Some? ==> forall j: nat | j < found.value :: !OccursAt(s, pattern, j)
    ensures found.None? ==> forall j: nat :: !OccursAt(s, pattern, j)
  {
    FindFrom(s, pattern, 0)
  }

  function FindFrom(s: string, pattern: string, i: nat): (found: Option<nat>)
    ensures found.Some? ==> i <= found.value && OccursAt(s, pattern, found.value)
    ensures found.Some? ==> forall j: nat | i <= j < found.value :: !OccursAt(s, pattern, j)
    ensures found.None? ==> forall j: nat | i <= j :: !OccursAt(s, pattern, j)
    decreases |s| - i
  {
    if OccursAt(s, pattern, i) then Some(i)
    else if i >= |s| then None
    else FindFrom(s, pattern, i + 1)
  }

  lemma FindIs(s: string, pattern: string, i: nat)
    requires OccursAt(s, pattern, i) && forall j: nat | j < i :: !OccursAt(s, pattern, j)
    ensures Find(s, pattern) == Some(i)
  {
    hide OccursAt;
  }

  function TrimEnd(s: string): string {
    if s != "" && IsWhitespace(s[|s| - 1]) then TrimEnd(s[..|s| - 1]) else s
  }

  function TrimStart(s: string): string {
    if s != "" && IsWhitespace(s[0]) then TrimStart(s[1..]) else s
  }

  /** `str::trim`. */
  function Trim(s: string): string {
    TrimStart(TrimEnd(s))
  }

  lemma {:induction false} TrimEndIs(s: string) returns (right: string)
    ensures s == TrimEnd(s) + right && Blank(right)
    ensures TrimEnd(s) != "" ==> !IsWhitespace(TrimEnd(s)[|TrimEnd(s)| - 1])
  {
    right := "";
    if s != "" && IsWhitespace(s[|s| - 1]) {
      right := TrimEndIs(s[..|s| - 1]);
      right := right + [s[|s| - 1]];
    }
  }

  lemma {:induction false} TrimStartIs(s: string) returns (left: string)
    ensures s == left + TrimStart(s) && Blank(left)
    ensures TrimStart(s) != "" ==> !IsWhitespace(TrimStart(s)[0])
  {
    left := "";
    if s != "" && IsWhitespace(s[0]) {
      left := TrimStartIs(s[1..]);
      left := [s[0]] + left;
    }
  }

  /** Trimming takes whitespace off both ends, all of it and nothing else. */
  lemma TrimIs(s: string) returns (left: string, right: string)
    ensures s == left + Trim(s) + right && Blank(left) && Blank(right)
    ensures Trim(s) != "" ==> !IsWhitespace(Trim(s)[0]) && !IsWhitespace(Trim(s)[|Trim(s)| - 1])
  {
    hide IsWhitespace;
    right := TrimEndIs(s);
    left := TrimStartIs(TrimEnd(s));
  }

  /** `split_whitespace().collect()`: what is left when whitespace is taken out. */
  function WithoutWhitespace(s: string): string {
    if s == "" then ""
    else
      var last := s[|s| - 1];
      WithoutWhitespace(s[..|s| - 1]) + if IsWhitespace(last) then "" else [last]
  }

  predicate AllWhitespace(s: string) {
    forall c | c in s :: IsWhitespace(c)
  }

  lemma {:induction false} GapDropped(text: string, gap: string)
    requires AllWhitespace(gap)
    ensures WithoutWhitespace(text + gap) == WithoutWhitespace(text)
  {
    if gap == "" {
      assert text + gap == text;
    } else {
      var last := |gap| - 1;
      assert gap[last] in gap;
      assert (text + gap)[..|text + gap| - 1] == text + gap[..last];
      GapDropped(text, gap[..last]);
    }
  }

  /** Taking the whitespace out leaves exactly what was spread, in its order. */
  lemma {:induction false} SpreadDropped(text: string, gaps: seq<string>)
    requires |gaps| == |text| + 1 && (forall c | c in text :: !IsWhitespace(c))
    requires forall i | 0 <= i < |gaps| :: AllWhitespace(gaps[i])
    ensures WithoutWhitespace(Spread(text, gaps)) == text
  {
    hide IsWhitespace, WithoutWhitespace;
    if text == "" {
      GapDropped("", gaps[0]);
      assert "" + gaps[0] == gaps[0] && text == WithoutWhitespace("") by {
        NothingDropped();
      }
    } else {
      var last := |text| - 1;
      assert text[last] in text && forall c | c in text[..last] :: c in text;
      SpreadDropped(text[..last], gaps[..|text|]);
      ItemStays(Spread(text[..last], gaps[..|text|]), text[last], gaps[|text|]);
      assert text == text[..last] + [text[last]];
    }
  }

  lemma NothingDropped()
    ensures WithoutWhitespace("") == ""
  {
  }

  lemma ItemStays(front: string, c: char, gap: string)
    requires !IsWhitespace(c) && AllWhitespace(gap)
    ensures WithoutWhitespace(front + [c] + gap) == WithoutWhitespace(front) + [c]
  {
    GapDropped(front + [c], gap);
    assert (front + [c])[..|front|] == front;
  }

  /** The string is this text, spread by gaps of whitespace. */
  ghost predicate IsSpread(s: string, text: string, gaps: seq<string>) {
    && |gaps| == |text| + 1
    && (forall i | 0 <= i < |gaps| :: AllWhitespace(gaps[i]))
    && s == Spread(text, gaps)
  }

  /** Every string is its visible characters, spread by whitespace. */
  lemma {:induction false} GapsOf(s: string) returns (gaps: seq<string>)
    ensures IsSpread(s, WithoutWhitespace(s), gaps)
  {
    if s == "" {
      gaps := [""];
    } else {
      gaps := GapsOf(s[..|s| - 1]);
      gaps := OneMoreChar(s, gaps);
    }
  }

  lemma OneMoreChar(s: string, before: seq<string>) returns (gaps: seq<string>)
    requires s != "" && IsSpread(s[..|s| - 1], WithoutWhitespace(s[..|s| - 1]), before)
    ensures IsSpread(s, WithoutWhitespace(s), gaps)
  {
    hide Spread;
    var rest, last := s[..|s| - 1], s[|s| - 1];
    var text := WithoutWhitespace(rest);
    assert s == rest + [last];
    if IsWhitespace(last) {
      gaps := before[|text| := before[|text|] + [last]];
      SpreadMore(text, before, [last]);
      assert WithoutWhitespace(s) == text;
    } else {
      gaps := before + [""];
      SpreadItem(text, before, last);
    }
  }

  lemma {:induction false} WithoutWhitespaceIsVisible(s: string)
    ensures forall c | c in WithoutWhitespace(s) :: !IsWhitespace(c)
  {
    hide IsWhitespace;
    if s != "" {
      WithoutWhitespaceIsVisible(s[..|s| - 1]);
    }
  }

  /** A character for each byte; ASCII text is its own encoding. */
  function Chars(bytes: seq<byte>): string {
    seq(|bytes|, i requires 0 <= i < |bytes| => bytes[i] as int as char)
  }

  lemma {:induction false} AsciiIsItself(bytes: seq<byte>)
    requires forall b | b in bytes :: b < 0x80
    ensures Utf8(Chars(bytes)) == bytes
  {
    hide Utf8Char;
    if bytes != [] {
      var last := |bytes| - 1;
      assert bytes[last] in bytes && forall b | b in bytes[..last] :: b in bytes;
      AsciiIsItself(bytes[..last]);
      assert Chars(bytes)[..last] == Chars(bytes[..last]);
      assert bytes == bytes[..last] + [bytes[last]];
      AsciiChar(bytes[last]);
    }
  }

  lemma AsciiChar(b: byte)
    requires b < 0x80
    ensures Utf8Char(b as int as char) == [b]
  {
  }

  lemma {:induction false} WithoutWhitespaceKeeps(s: string, c: char)
    requires c in s && !IsWhitespace(c)
    ensures c in WithoutWhitespace(s)
  {
    var last := |s| - 1;
    assert s == s[..last] + [s[last]];
    if c in s[..last] {
      WithoutWhitespaceKeeps(s[..last], c);
    } else {
      assert c == s[last];
    }
  }
}
