/** What base64 promises: encoding is undone, decoding accepts one language, and re-encoding it. */
module Base64Laws {
  import opened Prelude
  import opened Arithmetic
  import opened Gaps
  import opened Ascii
  import opened Base64

  // ---- One chunk ----

  /** The four digits to the base 64 of a number below 2^24. */
  lemma SextetsAre(n: int, a: int, b: int, c: int, d: int)
    requires 0 <= a < 64 && 0 <= b < 64 && 0 <= c < 64 && 0 <= d < 64
    requires n == a * 262_144 + b * 4096 + c * 64 + d
    ensures n / 262_144 % 64 == a && n / 4096 % 64 == b && n / 64 % 64 == c && n % 64 == d
  {
    DivMod(n, 64, a * 4096 + b * 64 + c, d);
    DivMod(n, 4096, a * 64 + b, c * 64 + d);
    DivMod(n, 262_144, a, b * 4096 + c * 64 + d);
    DivMod(a * 4096 + b * 64 + c, 64, a * 64 + b, c);
    DivMod(a * 64 + b, 64, a, b);
    DivMod(a, 64, 0, a);
  }

  /** The three digits to the base 256 of a number below 2^24. */
  lemma OctetsAre(n: int, a: int, b: int, c: int)
    requires 0 <= a < 256 && 0 <= b < 256 && 0 <= c < 256
    requires n == a * 65_536 + b * 256 + c
    ensures n / 65_536 % 256 == a && n / 256 % 256 == b && n % 256 == c
  {
    DivMod(n, 256, a * 256 + b, c);
    DivMod(n, 65_536, a, b * 256 + c);
    DivMod(a * 256 + b, 256, a, b);
    DivMod(a, 256, 0, a);
  }

  /** A number below 2^24 is made of those digits. */
  lemma Sextets(n: int)
    requires 0 <= n < 0x100_0000
    ensures n == n / 262_144 % 64 * 262_144 + n / 4096 % 64 * 4096 + n / 64 % 64 * 64 + n % 64
  {
    var high, low := n / 4096, n % 4096;
    assert n == high * 4096 + low;
    SextetsAre(n, high / 64, high % 64, low / 64, low % 64);
  }

  lemma WholeOctets(n: int)
    requires 0 <= n < 0x100_0000
    ensures n == n / 65_536 % 256 * 65_536 + n / 256 % 256 * 256 + n % 256
  {
    var high := n / 256;
    assert n == high * 256 + n % 256;
    OctetsAre(n, high / 256, high % 256, n % 256);
  }

  lemma PadIsNoSymbol()
    ensures !InAlphabet(PAD)
  {
  }

  /** The sextets of a chunk below its last used symbol are zero. */
  lemma ShortBits(chunk: seq<byte>)
    requires 1 <= |chunk| <= 3
    ensures 0 <= Bits(chunk) < 0x100_0000
    ensures |chunk| < 3 ==> Bits(chunk) % 64 == 0
    ensures |chunk| < 2 ==> Bits(chunk) / 64 % 64 == 0
  {
    if |chunk| == 1 {
      DivMod(Bits(chunk), 64, chunk[0] as int * 1024, 0);
      DivMod(chunk[0] as int * 1024, 64, chunk[0] as int * 16, 0);
    } else if |chunk| == 2 {
      DivMod(Bits(chunk), 64, chunk[0] as int * 1024 + chunk[1] as int * 4, 0);
    }
  }

  lemma ValuesOfSymbols(a: int, b: int, c: int, d: int)
    requires 0 <= a < 64 && 0 <= b < 64 && 0 <= c < 64 && 0 <= d < 64
    ensures Clean([Symbol(a), Symbol(b), Symbol(c), Symbol(d)])
    ensures SymbolBits([Symbol(a), Symbol(b), Symbol(c), Symbol(d)]) == a * 262_144 + b * 4096 + c * 64 + d
    ensures Clean([Symbol(a), Symbol(b), Symbol(c)])
    ensures SymbolBits([Symbol(a), Symbol(b), Symbol(c)]) == a * 262_144 + b * 4096 + c * 64
    ensures Clean([Symbol(a), Symbol(b)])
    ensures SymbolBits([Symbol(a), Symbol(b)]) == a * 262_144 + b * 4096
  {
    SymbolsAndValues(a, PAD);
    SymbolsAndValues(b, PAD);
    SymbolsAndValues(c, PAD);
    SymbolsAndValues(d, PAD);
  }

  /** The significant symbols of an encoded chunk. */
  function Significant(chunk: seq<byte>): seq<byte>
    requires 1 <= |chunk| <= 3
  {
    EncodedChunk(chunk)[..|chunk| + 1]
  }

  lemma SignificantIs(chunk: seq<byte>, a: int, b: int, c: int, d: int)
    requires 1 <= |chunk| <= 3
    requires var n := Bits(chunk); a == n / 262_144 % 64 && b == n / 4096 % 64 && c == n / 64 % 64 && d == n % 64
    ensures Significant(chunk) == [Symbol(a), Symbol(b), Symbol(c), Symbol(d)][..|chunk| + 1]
  {
  }

  /** The bits an encoded chunk carries are the chunk's own. */
  lemma EncodedBits(chunk: seq<byte>)
    requires 1 <= |chunk| <= 3
    ensures Clean(Significant(chunk)) && SymbolBits(Significant(chunk)) == Bits(chunk)
  {
    var n := Bits(chunk);
    var a, b, c, d := n / 262_144 % 64, n / 4096 % 64, n / 64 % 64, n % 64;
    ShortBits(chunk);
    Sextets(n);
    SignificantIs(chunk, a, b, c, d);
    SignificantBits(|chunk|, a, b, c, d);
  }

  lemma SignificantBits(length: nat, a: int, b: int, c: int, d: int)
    requires 1 <= length <= 3
    requires 0 <= a < 64 && 0 <= b < 64 && 0 <= c < 64 && 0 <= d < 64
    requires (length < 3 ==> d == 0) && (length < 2 ==> c == 0)
    ensures var symbols := [Symbol(a), Symbol(b), Symbol(c), Symbol(d)][..length + 1];
            Clean(symbols) && SymbolBits(symbols) == a * 262_144 + b * 4096 + c * 64 + d
  {
    ValuesOfSymbols(a, b, c, d);
    var all := [Symbol(a), Symbol(b), Symbol(c), Symbol(d)];
    assert all[..4] == all && all[..3] == [Symbol(a), Symbol(b), Symbol(c)] && all[..2] == [Symbol(a), Symbol(b)];
  }

  lemma ChunkRoundTrip(chunk: seq<byte>)
    requires 1 <= |chunk| <= 3
    ensures Clean(Significant(chunk)) && DecodedChunk(Significant(chunk)) == chunk
  {
    EncodedBits(chunk);
    OctetsAre(Bits(chunk), chunk[0] as int,
              if |chunk| > 1 then chunk[1] as int else 0, if |chunk| > 2 then chunk[2] as int else 0);
  }

  // ---- Encode, then decode ----

  /** What follows the padding-free symbols of an encoding. */
  ghost predicate Encodes(input: seq<byte>, symbols: seq<byte>, pads: nat) {
    && Encoded(input) == symbols + Pads(pads) && pads <= 2 && (pads > 0 ==> symbols != [])
    && (|symbols| + pads) % 4 == 0 && Clean(symbols) && DecodedSymbols(symbols) == input
  }

  lemma LastChunkEncodes(chunk: seq<byte>)
    requires 1 <= |chunk| <= 3
    ensures Encodes(chunk, Significant(chunk), 3 - |chunk|)
  {
    ChunkRoundTrip(chunk);
    assert EncodedChunk(chunk) == Significant(chunk) + Pads(3 - |chunk|);
  }

  lemma ChunkInFrontEncodes(chunk: seq<byte>, rest: seq<byte>, symbols: seq<byte>, pads: nat)
    requires |chunk| == 3 && rest != [] && Encodes(rest, symbols, pads)
    ensures Encodes(chunk + rest, Significant(chunk) + symbols, pads)
  {
    hide EncodedChunk, DecodedChunk, SymbolValue;
    ChunkRoundTrip(chunk);
    Prepended(Significant(chunk), symbols);
    EncodedPrepended(chunk, rest);
    assert EncodedChunk(chunk) == Significant(chunk);
  }

  /** The symbols of an encoding, and its padding. */
  lemma {:induction false} EncodedIsSymbols(input: seq<byte>) returns (symbols: seq<byte>, pads: nat)
    ensures Encodes(input, symbols, pads)
  {
    if input == [] {
      symbols, pads := [], 0;
    } else if |input| <= 3 {
      symbols, pads := Significant(input), 3 - |input|;
      LastChunkEncodes(input);
    } else {
      symbols, pads := EncodedIsSymbols(input[3..]);
      ChunkInFrontEncodes(input[..3], input[3..], symbols, pads);
      assert input == input[..3] + input[3..];
      symbols := Significant(input[..3]) + symbols;
    }
  }

  /** A full chunk in front decodes in front. */
  lemma Prepended(first: seq<byte>, rest: seq<byte>)
    requires |first| == 4 && Clean(first) && Clean(rest)
    ensures Clean(first + rest) && DecodedSymbols(first + rest) == DecodedChunk(first) + DecodedSymbols(rest)
  {
    var all := first + rest;
    assert all[..4] == first && all[4..] == rest;
    if rest == [] {
      assert all == first;
    }
  }

  lemma PaddingOf(symbols: seq<byte>, pads: nat)
    requires pads <= 2 && Clean(symbols) && (pads > 0 ==> symbols != [])
    ensures Padding(symbols + Pads(pads)) == pads
  {
    PadIsNoSymbol();
    var all := symbols + Pads(pads);
    if all != [] {
      assert pads == 0 ==> all[|all| - 1] == symbols[|symbols| - 1];
      assert pads == 1 ==> all[|all| - 2] == symbols[|symbols| - 1];
    }
  }

  /** What `decode` makes of symbols followed by padding. */
  lemma DecodedPadded(input: seq<byte>, symbols: seq<byte>, pads: nat)
    requires Stripped(input) == symbols + Pads(pads) && pads <= 2 && Clean(symbols)
    requires (|symbols| + pads) % 4 == 0
    ensures Decoded(input) == Ok(DecodedSymbols(symbols))
  {
    hide Stripped, DecodedSymbols, SymbolValue, Padding;
    PadIsNoSymbol();
    var all := Stripped(input);
    PaddingOf(symbols, pads);
    assert all[..|symbols|] == symbols;
    assert PAD !in symbols;
  }

  // ---- Whitespace ----

  /** Space, tab, line feed, form feed or carriage return. */
  predicate IsGap(b: byte) {
    b == 0x20 || b == 0x09 || b == 0x0A || b == 0x0C || b == 0x0D
  }

  predicate AllGap(s: seq<byte>) {
    forall b | b in s :: IsGap(b)
  }

  /** The input is this text, spread by gaps of whitespace. */
  ghost predicate IsSpread(input: seq<byte>, text: seq<byte>, gaps: seq<seq<byte>>) {
    && |gaps| == |text| + 1
    && (forall i | 0 <= i < |gaps| :: AllGap(gaps[i]))
    && input == Spread(text, gaps)
  }

  /** Every input is what stripping leaves of it, spread by gaps of whitespace. */
  lemma {:induction false} StrippedIsSpread(input: seq<byte>) returns (gaps: seq<seq<byte>>)
    ensures IsSpread(input, Stripped(input), gaps)
  {
    if input == [] {
      gaps := [[]];
    } else {
      gaps := StrippedIsSpread(input[..|input| - 1]);
      gaps := OneMoreByte(input, gaps);
    }
  }

  lemma OneMoreByte(input: seq<byte>, before: seq<seq<byte>>) returns (gaps: seq<seq<byte>>)
    requires input != [] && IsSpread(input[..|input| - 1], Stripped(input[..|input| - 1]), before)
    ensures IsSpread(input, Stripped(input), gaps)
  {
    hide Spread;
    var rest, last := input[..|input| - 1], input[|input| - 1];
    var text := Stripped(rest);
    assert input == rest + [last];
    if IsAsciiWhitespace(last) {
      gaps := before[|text| := before[|text|] + [last]];
      SpreadMore(text, before, [last]);
      assert Stripped(input) == text;
    } else {
      gaps := before + [[]];
      SpreadItem(text, before, last);
    }
  }

  lemma {:induction false} StrippedHasNoWhitespace(input: seq<byte>)
    ensures forall b | b in Stripped(input) :: !IsGap(b)
  {
    if input != [] {
      StrippedHasNoWhitespace(input[..|input| - 1]);
    }
  }

  lemma {:induction false} GapStripped(text: seq<byte>, gap: seq<byte>)
    requires AllGap(gap)
    ensures Stripped(text + gap) == Stripped(text)
  {
    if gap == [] {
      assert text + gap == text;
    } else {
      var last := |gap| - 1;
      assert gap[last] in gap && forall b | b in gap[..last] :: b in gap;
      assert (text + gap)[..|text + gap| - 1] == text + gap[..last];
      GapStripped(text, gap[..last]);
    }
  }

  /** Gaps of whitespace are stripped, wherever they are. */
  lemma {:induction false} SpreadStripped(text: seq<byte>, gaps: seq<seq<byte>>)
    requires |gaps| == |text| + 1
    requires forall i | 0 <= i < |gaps| :: AllGap(gaps[i])
    ensures Stripped(Spread(text, gaps)) == Stripped(text)
  {
    if text == [] {
      GapStripped([], gaps[0]);
      assert [] + gaps[0] == gaps[0];
    } else {
      var last := |text| - 1;
      var front := Spread(text[..last], gaps[..|text|]);
      SpreadStripped(text[..last], gaps[..|text|]);
      GapStripped(front + [text[last]], gaps[|text|]);
      assert (front + [text[last]])[..|front|] == front;
    }
  }

  lemma EncodedHasNoDash(bytes: seq<byte>)
    ensures forall b | b in Encoded(bytes) :: b != 45 && 0x20 < b < 0x80 && !IsAsciiWhitespace(b)
  {
    hide Encoded, DecodedSymbols;
    var symbols, pads := EncodedIsSymbols(bytes);
  }

  lemma {:induction false} NothingToStrip(text: seq<byte>)
    requires forall b | b in text :: !IsAsciiWhitespace(b)
    ensures Stripped(text) == text
  {
    if text != [] {
      NothingToStrip(text[..|text| - 1]);
      assert text == text[..|text| - 1] + [text[|text| - 1]];
    }
  }

  /** Decoding undoes encoding, also when any amount of ASCII whitespace is put anywhere in the text. */
  lemma DecodeUndoesEncode(bytes: seq<byte>, input: seq<byte>, gaps: seq<seq<byte>>)
    requires IsSpread(input, Encoded(bytes), gaps)
    ensures Decoded(input) == Ok(bytes)
    ensures Decoded(Encoded(bytes)) == Ok(bytes)
  {
    hide Stripped, Encoded, DecodedSymbols, Decoded, Spread;
    EncodedHasNoDash(bytes);
    NothingToStrip(Encoded(bytes));
    SpreadStripped(Encoded(bytes), gaps);
    var symbols, pads := EncodedIsSymbols(bytes);
    DecodedPadded(Encoded(bytes), symbols, pads);
    DecodedPadded(input, symbols, pads);
  }

  lemma PlainRoundTrip(bytes: seq<byte>)
    ensures Decoded(Encoded(bytes)) == Ok(bytes)
  {
    EncodedHasNoDash(bytes);
    NothingToStrip(Encoded(bytes));
    var gaps := StrippedIsSpread(Encoded(bytes));
    DecodeUndoesEncode(bytes, Encoded(bytes), gaps);
  }

  // ---- The accepted language ----

  /** A whole number of quads: alphabet symbols, then at most two `=`. */
  ghost predicate Shape(all: seq<byte>, symbols: seq<byte>, pads: nat) {
    all == symbols + Pads(pads) && pads <= 2 && Clean(symbols) && |all| % 4 == 0
  }

  /** `decode` accepts exactly the texts of that shape, spread by ASCII whitespace or not. */
  lemma DecodeAcceptsExactly(input: seq<byte>)
    ensures Decoded(input).Ok? <==>
            exists symbols, pads, gaps :: IsSpread(input, symbols + Pads(pads), gaps) && Shape(symbols + Pads(pads), symbols, pads)
  {
    hide Stripped, DecodedSymbols, SymbolValue, Spread;
    if Decoded(input).Ok? {
      var symbols, pads, gaps := ShapeOf(input);
    }
    if symbols, pads, gaps :| IsSpread(input, symbols + Pads(pads), gaps) && Shape(symbols + Pads(pads), symbols, pads) {
      ShapeStripped(symbols, pads);
      SpreadStripped(symbols + Pads(pads), gaps);
      DecodedPadded(input, symbols, pads);
    }
  }

  lemma ShapeOf(input: seq<byte>) returns (symbols: seq<byte>, pads: nat, gaps: seq<seq<byte>>)
    requires Decoded(input).Ok?
    ensures IsSpread(input, symbols + Pads(pads), gaps) && Shape(symbols + Pads(pads), symbols, pads)
  {
    hide Stripped, DecodedSymbols, SymbolValue, IsSpread;
    var all := Stripped(input);
    pads := Padding(all);
    symbols := all[..|all| - pads];
    assert all == symbols + Pads(pads);
    gaps := StrippedIsSpread(input);
  }

  /** Text of that shape has no whitespace in it. */
  lemma ShapeStripped(symbols: seq<byte>, pads: nat)
    requires Shape(symbols + Pads(pads), symbols, pads)
    ensures Stripped(symbols + Pads(pads)) == symbols + Pads(pads)
  {
    NothingToStrip(symbols + Pads(pads));
  }

  /** An `=` with something other than padding after it. */
  predicate PaddedEarly(all: seq<byte>) {
    exists i :: 0 <= i < |all| && all[i] == 0x3D && (i + 2 < |all| || (i + 2 == |all| && all[i + 1] != 0x3D))
  }

  /**
   * What is wrong with the rest: the length first, then an early `=`, then a byte outside the
   * alphabet. Every input is some text without whitespace, spread by gaps (`StrippedIsSpread`).
   */
  lemma DecodeRefusesWithReason(input: seq<byte>, all: seq<byte>, gaps: seq<seq<byte>>)
    requires IsSpread(input, all, gaps) && forall b | b in all :: !IsGap(b)
    ensures Decoded(input) == Err(NotMultipleOfFour) <==> |all| % 4 != 0
    ensures Decoded(input) == Err(PaddingBeforeEnd) <==> |all| % 4 == 0 && PaddedEarly(all)
    ensures Decoded(input) == Err(InvalidSymbol) <==>
              |all| % 4 == 0 && !PaddedEarly(all) && exists b :: b in all && b != 0x3D && !InAlphabet(b)
  {
    hide Stripped, DecodedSymbols, SymbolValue, Spread;
    NothingToStrip(all);
    SpreadStripped(all, gaps);
    PadIsNoSymbol();
    EarlyPadding(all);
    var symbols := all[..|all| - Padding(all)];
    assert forall i | |symbols| <= i < |all| :: all[i] == PAD;
    if PAD !in symbols {
      if !Clean(symbols) {
        var i :| 0 <= i < |symbols| && !InAlphabet(symbols[i]);
        assert symbols[i] in symbols && symbols[i] == all[i] && all[i] in all;
      }
      if b :| b in all && b != PAD && !InAlphabet(b) {
        var i :| 0 <= i < |all| && all[i] == b;
        assert i < |symbols| && symbols[i] == b;
      }
    }
  }

  lemma EarlyPadding(all: seq<byte>)
    ensures PaddedEarly(all) <==> PAD in all[..|all| - Padding(all)]
  {
    var symbols := all[..|all| - Padding(all)];
    if PAD in symbols {
      var i :| 0 <= i < |symbols| && symbols[i] == PAD;
      assert all[i] == PAD;
    }
    if PaddedEarly(all) {
      var i :| 0 <= i < |all| && all[i] == 0x3D && (i + 2 < |all| || (i + 2 == |all| && all[i + 1] != 0x3D));
      assert i < |symbols| && symbols[i] == PAD;
    }
  }

  // ---- Decode, then encode ----

  /** The bits of the last symbol that its byte has no room for. */
  predicate DiscardedBitsAreZero(symbols: seq<byte>)
    requires Clean(symbols)
  {
    && (|symbols| % 4 == 2 ==> Value(symbols[|symbols| - 1]) % 16 == 0)
    && (|symbols| % 4 == 3 ==> Value(symbols[|symbols| - 1]) % 4 == 0)
  }

  lemma FullChunkReencodes(chunk: seq<byte>)
    requires |chunk| == 4 && Clean(chunk)
    ensures |DecodedChunk(chunk)| == 3 && EncodedChunk(DecodedChunk(chunk)) == chunk
  {
    var n := SymbolBits(chunk);
    SextetsAre(n, Value(chunk[0]), Value(chunk[1]), Value(chunk[2]), Value(chunk[3]));
    WholeOctets(n);
    assert Bits(DecodedChunk(chunk)) == n;
    SymbolsAndValues(0, chunk[0]);
    SymbolsAndValues(0, chunk[1]);
    SymbolsAndValues(0, chunk[2]);
    SymbolsAndValues(0, chunk[3]);
  }

  /** Three symbols carry two bytes and two bits more. */
  lemma ThreeBits(a: int, b: int, c: int)
    requires 0 <= a < 64 && 0 <= b < 64 && 0 <= c < 64
    ensures var n := a * 262_144 + b * 4096 + c * 64;
            var kept := n / 65_536 % 256 * 65_536 + n / 256 % 256 * 256;
            && kept == a * 262_144 + b * 4096 + c / 4 * 4 * 64
            && kept / 262_144 % 64 == a && kept / 4096 % 64 == b && kept / 64 % 64 == c / 4 * 4
  {
    var n := a * 262_144 + b * 4096 + c * 64;
    OctetsAre(n, 4 * a + b / 16, b % 16 * 16 + c / 4, c % 4 * 64);
    SextetsAre(a * 262_144 + b * 4096 + c / 4 * 4 * 64, a, b, c / 4 * 4, 0);
  }

  /** Two symbols carry one byte and four bits more. */
  lemma TwoBits(a: int, b: int)
    requires 0 <= a < 64 && 0 <= b < 64
    ensures var n := a * 262_144 + b * 4096;
            var kept := n / 65_536 % 256 * 65_536;
            && kept == a * 262_144 + b / 16 * 16 * 4096
            && kept / 262_144 % 64 == a && kept / 4096 % 64 == b / 16 * 16
  {
    var n := a * 262_144 + b * 4096;
    OctetsAre(n, 4 * a + b / 16, b % 16 * 16, 0);
    SextetsAre(a * 262_144 + b / 16 * 16 * 4096, a, b / 16 * 16, 0, 0);
  }

  lemma ThreeReencode(chunk: seq<byte>)
    requires |chunk| == 3 && Clean(chunk)
    ensures |DecodedChunk(chunk)| == 2
    ensures var c := Value(chunk[2]);
            EncodedChunk(DecodedChunk(chunk)) == [chunk[0], chunk[1], Symbol(c / 4 * 4), PAD]
  {
    ThreeBits(Value(chunk[0]), Value(chunk[1]), Value(chunk[2]));
    SymbolsAndValues(0, chunk[0]);
    SymbolsAndValues(0, chunk[1]);
  }

  lemma TwoReencode(chunk: seq<byte>)
    requires |chunk| == 2 && Clean(chunk)
    ensures |DecodedChunk(chunk)| == 1
    ensures var b := Value(chunk[1]);
            EncodedChunk(DecodedChunk(chunk)) == [chunk[0], Symbol(b / 16 * 16), PAD, PAD]
  {
    TwoBits(Value(chunk[0]), Value(chunk[1]));
    SymbolsAndValues(0, chunk[0]);
  }

  lemma OneChunk(chunk: seq<byte>)
    requires 2 <= |chunk| <= 4 && Clean(chunk)
    ensures 1 <= |DecodedChunk(chunk)| <= 3
    ensures Encoded(DecodedSymbols(chunk)) == EncodedChunk(DecodedChunk(chunk))
  {
    hide EncodedChunk, SymbolBits;
  }

  lemma LastChunkReencodes(chunk: seq<byte>, pads: nat)
    requires 2 <= |chunk| <= 4 && Clean(chunk) && |chunk| + pads == 4
    ensures Encoded(DecodedSymbols(chunk)) == chunk + Pads(pads) <==> DiscardedBitsAreZero(chunk)
  {
    hide Encoded, DecodedSymbols, EncodedChunk, DecodedChunk, Symbol, SymbolValue;
    OneChunk(chunk);
    if |chunk| == 2 {
      TwoReencode(chunk);
      var b := Value(chunk[1]);
      SymbolsAndValues(b / 16 * 16, chunk[1]);
      assert (chunk + Pads(2))[1] == chunk[1];
    } else if |chunk| == 3 {
      ThreeReencode(chunk);
      var c := Value(chunk[2]);
      SymbolsAndValues(c / 4 * 4, chunk[2]);
      assert (chunk + Pads(1))[2] == chunk[2];
    } else {
      FullChunkReencodes(chunk);
    }
  }

  lemma ChunkInFrontReencodes(first: seq<byte>, rest: seq<byte>, pads: nat)
    requires |first| == 4 && Clean(first) && Clean(rest) && rest != []
    ensures Encoded(DecodedSymbols(first + rest)) == first + rest + Pads(pads) <==>
            Encoded(DecodedSymbols(rest)) == rest + Pads(pads)
  {
    Prepended(first, rest);
    FullChunkReencodes(first);
    EncodedPrepended(DecodedChunk(first), DecodedSymbols(rest));
    assert first + rest + Pads(pads) == first + (rest + Pads(pads));
    SameTail(first, Encoded(DecodedSymbols(rest)), rest + Pads(pads));
  }

  lemma DiscardedBitsAreLast(first: seq<byte>, rest: seq<byte>)
    requires |first| == 4 && Clean(first) && Clean(rest) && rest != []
    ensures Clean(first + rest) && (DiscardedBitsAreZero(first + rest) <==> DiscardedBitsAreZero(rest))
  {
    var all := first + rest;
    assert all[|all| - 1] == rest[|rest| - 1];
    assert |all| % 4 == |rest| % 4;
  }

  lemma NothingReencodes(pads: nat)
    requires pads <= 2 && pads % 4 == 0
    ensures Clean([]) && DiscardedBitsAreZero([]) && Encoded(DecodedSymbols([])) == [] + Pads(pads)
  {
  }

  lemma {:induction false} Reencodes(symbols: seq<byte>, pads: nat)
    requires Clean(symbols) && pads <= 2 && (|symbols| + pads) % 4 == 0
    ensures Encoded(DecodedSymbols(symbols)) == symbols + Pads(pads) <==> DiscardedBitsAreZero(symbols)
  {
    hide Encoded, DecodedSymbols, DiscardedBitsAreZero;
    if symbols == [] {
      NothingReencodes(pads);
    } else if |symbols| <= 4 {
      LastChunkReencodes(symbols, pads);
    } else {
      var first, rest := symbols[..4], symbols[4..];
      assert symbols == first + rest;
      DiscardedBitsAreLast(first, rest);
      ChunkInFrontReencodes(first, rest, pads);
      Reencodes(rest, pads);
    }
  }

  lemma SameTail(first: seq<byte>, a: seq<byte>, b: seq<byte>)
    ensures first + a == first + b <==> a == b
  {
    assert (first + a)[|first|..] == a && (first + b)[|first|..] == b;
  }

  lemma EncodedPrepended(first: seq<byte>, rest: seq<byte>)
    requires |first| == 3
    ensures Encoded(first + rest) == EncodedChunk(first) + Encoded(rest)
  {
    var all := first + rest;
    assert all[..3] == first && all[3..] == rest;
    if rest == [] {
      assert all == first;
    }
  }

  /**
   * Encoding what was decoded gives the stripped input back exactly when the bits that padding
   * discards were zero.
   */
  lemma EncodeUndoesDecode(input: seq<byte>, symbols: seq<byte>, pads: nat)
    requires Shape(Stripped(input), symbols, pads)
    ensures Decoded(input).Ok?
    ensures Encoded(Decoded(input).value) == Stripped(input) <==> DiscardedBitsAreZero(symbols)
  {
    DecodedPadded(input, symbols, pads);
    Reencodes(symbols, pads);
  }

  // ---- The bits themselves (section 4 of RFC 4648) ----

  /** The alphabet, Table 1 of RFC 4648. */
  const ALPHABET: string := UPPER + LOWER + DIGITS + "+/"

  /** The symbols are the alphabet in its order. */
  lemma SymbolsAreTheAlphabet(n: int)
    requires 0 <= n < 64
    ensures |ALPHABET| == 64 && Symbol(n) as int == ALPHABET[n] as int
  {
    assert |UPPER| == 26 && |LOWER| == 26 && |DIGITS| == 10;
    if n < 26 {
      UpperInOrder(n);
    } else if n < 52 {
      LowerInOrder(n - 26);
    } else if n < 62 {
      DigitsInOrder(n - 52);
    }
  }

  /** The number symbols spell to the base 64, after `high`. */
  function Number64(high: int, symbols: seq<byte>): int
    requires Clean(symbols)
    decreases |symbols|
  {
    if symbols == [] then high else Number64(64 * high + Value(symbols[0]), symbols[1..])
  }

  /** The number bytes spell to the base 256, after `high`. */
  function Number256(high: int, bytes: seq<byte>): int
    decreases |bytes|
  {
    if bytes == [] then high else Number256(256 * high + bytes[0] as int, bytes[1..])
  }

  /** What the bits that padding stands for multiply the number by. */
  function Shift(pads: nat): int {
    if pads == 0 then 1 else if pads == 1 then 4 else 16
  }

  lemma {:induction false} Number64Splits(high: int, a: seq<byte>, b: seq<byte>)
    requires Clean(a) && Clean(b)
    ensures Clean(a + b) && Number64(high, a + b) == Number64(Number64(high, a), b)
    decreases |a|
  {
    if a == [] {
      assert a + b == b;
    } else {
      assert (a + b)[1..] == a[1..] + b;
      Number64Splits(64 * high + Value(a[0]), a[1..], b);
    }
  }

  lemma {:induction false} Number256Splits(high: int, a: seq<byte>, b: seq<byte>)
    ensures Number256(high, a + b) == Number256(Number256(high, a), b)
    decreases |a|
  {
    if a == [] {
      assert a + b == b;
    } else {
      assert (a + b)[1..] == a[1..] + b;
      Number256Splits(256 * high + a[0] as int, a[1..], b);
    }
  }

  lemma ChunkNumbers(high: int, chunk: seq<byte>)
    requires 1 <= |chunk| <= 3
    ensures |chunk| == 3 ==> Number256(high, chunk) == high * 0x100_0000 + Bits(chunk)
    ensures |chunk| == 2 ==> 256 * Number256(high, chunk) == high * 0x100_0000 + Bits(chunk)
    ensures |chunk| == 1 ==> 65_536 * Number256(high, chunk) == high * 0x100_0000 + Bits(chunk)
  {
    var one := Number256(high, chunk);
    assert one == Number256(256 * high + chunk[0] as int, chunk[1..]);
    if |chunk| > 1 {
      assert chunk[1..][1..] == chunk[2..];
      assert one == Number256(256 * (256 * high + chunk[0] as int) + chunk[1] as int, chunk[2..]);
    }
    if |chunk| > 2 {
      assert chunk[2..][1..] == [];
    }
  }

  lemma SymbolNumbers(high: int, symbols: seq<byte>)
    requires Clean(symbols) && 2 <= |symbols| <= 4
    ensures |symbols| == 4 ==> Number64(high, symbols) == high * 0x100_0000 + SymbolBits(symbols)
    ensures |symbols| == 3 ==> 64 * Number64(high, symbols) == high * 0x100_0000 + SymbolBits(symbols)
    ensures |symbols| == 2 ==> 4096 * Number64(high, symbols) == high * 0x100_0000 + SymbolBits(symbols)
  {
    hide Value;
    var two := 64 * (64 * high + Value(symbols[0])) + Value(symbols[1]);
    assert symbols[1..][1..] == symbols[2..];
    assert Number64(high, symbols) == Number64(64 * high + Value(symbols[0]), symbols[1..]) == Number64(two, symbols[2..]);
    if |symbols| > 2 {
      assert Number64(two, symbols[2..]) == Number64(64 * two + Value(symbols[2]), symbols[2..][1..]);
      assert symbols[2..][1..] == symbols[3..];
    }
    if |symbols| > 3 {
      var three := 64 * two + Value(symbols[2]);
      assert Number64(three, symbols[3..]) == Number64(64 * three + Value(symbols[3]), symbols[3..][1..]);
      assert symbols[3..][1..] == [];
    }
  }

  /** One chunk, of which the last may be short. */
  lemma ChunkCarriesTheBits(high: int, chunk: seq<byte>)
    requires 1 <= |chunk| <= 3
    ensures Clean(Significant(chunk))
    ensures Number64(high, Significant(chunk)) == Number256(high, chunk) * Shift(3 - |chunk|)
  {
    hide SymbolBits, Bits, SymbolValue, Number64, Number256;
    EncodedBits(chunk);
    ChunkNumbers(high, chunk);
    SymbolNumbers(high, Significant(chunk));
  }

  /**
   * Encoding writes the bits of the input, first to last, six a symbol, and fills the last symbol up
   * with zeros: the symbols before the padding spell the same number as the bytes.
   */
  lemma {:induction false} EncodedCarriesTheBits(high: int, input: seq<byte>) returns (symbols: seq<byte>, pads: nat)
    ensures Encoded(input) == symbols + Pads(pads) && Clean(symbols)
    ensures pads == (3 - |input| % 3) % 3 && 3 * |Encoded(input)| == 4 * (|input| + pads)
    ensures Number64(high, symbols) == Number256(high, input) * Shift(pads)
    decreases |input|
  {
    hide Number64, Number256, EncodedChunk, SymbolValue;
    if input == [] {
      symbols, pads := [], 0;
      NoNumbers(high);
    } else if |input| <= 3 {
      symbols, pads := Significant(input), 3 - |input|;
      LastChunkEncodes(input);
      ChunkCarriesTheBits(high, input);
    } else {
      var first, rest := input[..3], input[3..];
      var more;
      more, pads := EncodedCarriesTheBits(Number256(high, first), rest);
      symbols := FirstCarriesTheBits(high, first, rest, more, pads);
      assert input == first + rest;
    }
  }

  lemma FirstCarriesTheBits(high: int, first: seq<byte>, rest: seq<byte>, more: seq<byte>, pads: nat)
    returns (symbols: seq<byte>)
    requires |first| == 3 && Clean(more) && Encoded(rest) == more + Pads(pads)
    requires Number64(Number256(high, first), more) == Number256(Number256(high, first), rest) * Shift(pads)
    ensures Encoded(first + rest) == symbols + Pads(pads) && Clean(symbols) && |Encoded(first + rest)| == 4 + |Encoded(rest)|
    ensures Number64(high, symbols) == Number256(high, first + rest) * Shift(pads)
  {
    hide Number64, Number256, EncodedChunk, SymbolValue, Encoded, Shift;
    ChunkCarriesTheBits(high, first);
    FullShift();
    EncodedPrepended(first, rest);
    Number64Splits(high, Significant(first), more);
    Number256Splits(high, first, rest);
    symbols := Significant(first) + more;
    assert EncodedChunk(first) == Significant(first);
  }

  lemma FullShift()
    ensures Shift(0) == 1
  {
  }

  lemma NoNumbers(high: int)
    ensures Clean([]) && Number64(high, []) == high == Number256(high, [])
  {
  }

  /** The last symbols, of which padding drops the lowest bits. */
  lemma LastSymbolsCarryTheBits(high: int, chunk: seq<byte>)
    requires 2 <= |chunk| <= 4 && Clean(chunk)
    ensures |DecodedChunk(chunk)| == |chunk| - 1
    ensures Number256(high, DecodedChunk(chunk)) == Number64(high, chunk) / Shift(4 - |chunk|)
  {
    hide Number64, Number256, SymbolValue;
    var n := SymbolBits(chunk);
    var decoded := DecodedChunk(chunk);
    ChunkNumbers(high, decoded);
    SymbolNumbers(high, chunk);
    var low := LowBits(chunk);
    DivMod(Number64(high, chunk), Shift(4 - |chunk|), Number256(high, decoded), low);
  }

  /** What padding drops. */
  lemma LowBits(chunk: seq<byte>) returns (low: int)
    requires 2 <= |chunk| <= 4 && Clean(chunk)
    ensures 1 <= |DecodedChunk(chunk)| <= 3 && 0 <= low < Shift(4 - |chunk|)
    ensures SymbolBits(chunk) - Bits(DecodedChunk(chunk)) ==
            low * if |chunk| == 4 then 1 else if |chunk| == 3 then 64 else 4096
  {
    var n := SymbolBits(chunk);
    if |chunk| == 4 {
      WholeOctets(n);
      low := 0;
    } else if |chunk| == 3 {
      ThreeBits(Value(chunk[0]), Value(chunk[1]), Value(chunk[2]));
      low := Value(chunk[2]) % 4;
    } else {
      TwoBits(Value(chunk[0]), Value(chunk[1]));
      low := Value(chunk[1]) % 16;
    }
  }

  /** Decoding reads the same number back, less the bits that padding drops, three bytes for four symbols. */
  lemma {:induction false} DecodedCarriesTheBits(high: int, symbols: seq<byte>, pads: nat)
    requires Clean(symbols) && pads <= 2 && (|symbols| + pads) % 4 == 0
    ensures 4 * (|DecodedSymbols(symbols)| + pads) == 3 * (|symbols| + pads)
    ensures Number256(high, DecodedSymbols(symbols)) == Number64(high, symbols) / Shift(pads)
    decreases |symbols|
  {
    hide Number64, Number256, DecodedChunk, SymbolValue;
    if symbols == [] {
      NoNumbers(high);
    } else if |symbols| <= 4 {
      LastSymbolsCarryTheBits(high, symbols);
    } else {
      var first, rest := symbols[..4], symbols[4..];
      assert symbols == first + rest;
      LastSymbolsCarryTheBits(high, first);
      Prepended(first, rest);
      DecodedCarriesTheBits(Number64(high, first), rest, pads);
      Number64Splits(high, first, rest);
      Number256Splits(high, DecodedChunk(first), DecodedSymbols(rest));
    }
  }
}
