/**
 * Standard base64 with padding (`src/util/base64.rs`, sections 4 and 3.5 of RFC 4648). Text is the
 * bytes of the string. The shifts and ors of the source never overlap, so they are sums here.
 */
module Base64 {
  import opened Prelude

  datatype DecodeError = NotMultipleOfFour | PaddingBeforeEnd | InvalidSymbol

  const PAD: byte := 61 // '='

  /** The alphabet: `A`-`Z`, `a`-`z`, `0`-`9`, `+`, `/`. */
  function Symbol(n: int): byte
    requires 0 <= n < 64
  {
    if n < 26 then (65 + n) as byte
    else if n < 52 then (97 + n - 26) as byte
    else if n < 62 then (48 + n - 52) as byte
    else if n == 62 then 43 else 47
  }

  function SymbolValue(b: byte): Result<int, DecodeError> {
    if 65 <= b <= 90 then Ok(b as int - 65)
    else if 97 <= b <= 122 then Ok(b as int - 97 + 26)
    else if 48 <= b <= 57 then Ok(b as int - 48 + 52)
    else if b == 43 then Ok(62)
    else if b == 47 then Ok(63)
    else Err(InvalidSymbol)
  }

  predicate InAlphabet(b: byte) {
    SymbolValue(b).Ok?
  }

  predicate Clean(symbols: seq<byte>) {
    forall i | 0 <= i < |symbols| :: InAlphabet(symbols[i])
  }

  function Value(b: byte): (v: int)
    requires InAlphabet(b)
    ensures 0 <= v < 64
  {
    SymbolValue(b).value
  }

  /** The two tables are each other's inverse. */
  lemma SymbolsAndValues(n: int, b: byte)
    requires 0 <= n < 64
    ensures InAlphabet(Symbol(n)) && Value(Symbol(n)) == n
    ensures InAlphabet(b) ==> Symbol(Value(b)) == b
  {
  }

  // ---- Encoding ----

  /** The 24 bits of a chunk, missing bytes as zero. */
  function Bits(chunk: seq<byte>): int
    requires 1 <= |chunk| <= 3
  {
    chunk[0] as int * 65_536
    + (if |chunk| > 1 then chunk[1] as int * 256 else 0)
    + (if |chunk| > 2 then chunk[2] as int else 0)
  }

  function EncodedChunk(chunk: seq<byte>): (symbols: seq<byte>)
    requires 1 <= |chunk| <= 3
    ensures |symbols| == 4
  {
    var n := Bits(chunk);
    [ Symbol(n / 262_144 % 64),
      Symbol(n / 4096 % 64),
      if |chunk| > 1 then Symbol(n / 64 % 64) else PAD,
      if |chunk| > 2 then Symbol(n % 64) else PAD ]
  }

  function Encoded(input: seq<byte>): seq<byte> {
    if input == [] then []
    else if |input| <= 3 then EncodedChunk(input)
    else EncodedChunk(input[..3]) + Encoded(input[3..])
  }

  method Encode(input: seq<byte>) returns (out: seq<byte>)
    ensures out == Encoded(input)
  {
    hide EncodedChunk;
    out := [];
    var i := 0;
    while i < |input|
      invariant 0 <= i <= |input|
      invariant out + Encoded(input[i..]) == Encoded(input)
    {
      var end := if i + 3 <= |input| then i + 3 else |input|;
      var chunk := input[i..end];
      out := out + EncodedChunk(chunk);
      EncodedFrom(input, i, end);
      i := end;
    }
  }

  lemma EncodedFrom(input: seq<byte>, i: nat, end: nat)
    requires i < |input| && end == if i + 3 <= |input| then i + 3 else |input|
    ensures Encoded(input[i..]) == EncodedChunk(input[i..end]) + Encoded(input[end..])
  {
    var rest := input[i..];
    if |rest| <= 3 {
      assert input[i..end] == rest;
    } else {
      assert rest[..3] == input[i..end] && rest[3..] == input[end..];
    }
  }

  // ---- Decoding ----

  /** `u8::is_ascii_whitespace`. */
  predicate IsAsciiWhitespace(b: byte) {
    b == 32 || b == 9 || b == 10 || b == 12 || b == 13
  }

  function Stripped(input: seq<byte>): seq<byte> {
    if input == [] then []
    else
      var last := input[|input| - 1];
      Stripped(input[..|input| - 1]) + if IsAsciiWhitespace(last) then [] else [last]
  }

  function Pads(n: nat): seq<byte> {
    seq(n, _ => PAD)
  }

  /** How many `=` are popped off the end, two at most. */
  function Padding(symbols: seq<byte>): nat {
    if symbols == [] || symbols[|symbols| - 1] != PAD then 0
    else if |symbols| == 1 || symbols[|symbols| - 2] != PAD then 1
    else 2
  }

  /** The bits of up to four symbols, the first the highest. */
  function SymbolBits(chunk: seq<byte>): int
    requires |chunk| <= 4 && Clean(chunk)
  {
    (if |chunk| > 0 then Value(chunk[0]) * 262_144 else 0)
    + (if |chunk| > 1 then Value(chunk[1]) * 4096 else 0)
    + (if |chunk| > 2 then Value(chunk[2]) * 64 else 0)
    + (if |chunk| > 3 then Value(chunk[3]) else 0)
  }

  function DecodedChunk(chunk: seq<byte>): seq<byte>
    requires 1 <= |chunk| <= 4 && Clean(chunk)
  {
    var n := SymbolBits(chunk);
    [(n / 65_536 % 256) as byte]
    + (if |chunk| > 2 then [(n / 256 % 256) as byte] else [])
    + (if |chunk| > 3 then [(n % 256) as byte] else [])
  }

  function DecodedSymbols(symbols: seq<byte>): seq<byte>
    requires Clean(symbols)
  {
    if symbols == [] then []
    else if |symbols| <= 4 then DecodedChunk(symbols)
    else DecodedChunk(symbols[..4]) + DecodedSymbols(symbols[4..])
  }

  function Decoded(input: seq<byte>): Result<seq<byte>, DecodeError> {
    var all := Stripped(input);
    if |all| % 4 != 0 then Err(NotMultipleOfFour)
    else
      var symbols := all[..|all| - Padding(all)];
      if PAD in symbols then Err(PaddingBeforeEnd)
      else if !Clean(symbols) then Err(InvalidSymbol)
      else Ok(DecodedSymbols(symbols))
  }

  method Decode(input: seq<byte>) returns (result: Result<seq<byte>, DecodeError>)
    ensures result == Decoded(input)
  {
    var symbols := Strip(input);
    if |symbols| % 4 != 0 {
      return Err(NotMultipleOfFour);
    }
    ghost var all := symbols;
    var padding := 0;
    while padding < 2 && symbols != [] && symbols[|symbols| - 1] == PAD
      invariant padding <= 2 && padding <= |all| && symbols == all[..|all| - padding]
      invariant padding <= Padding(all)
      decreases 2 - padding
    {
      symbols := symbols[..|symbols| - 1];
      padding := padding + 1;
    }
    assert padding == Padding(all);
    if PAD in symbols {
      return Err(PaddingBeforeEnd);
    }
    result := DecodeSymbols(symbols);
  }

  method Strip(input: seq<byte>) returns (symbols: seq<byte>)
    ensures symbols == Stripped(input)
  {
    symbols := [];
    for i := 0 to |input|
      invariant symbols == Stripped(input[..i])
    {
      assert input[..i + 1][..i] == input[..i];
      if !IsAsciiWhitespace(input[i]) {
        symbols := symbols + [input[i]];
      }
    }
    assert input[..|input|] == input;
  }

  method DecodeSymbols(symbols: seq<byte>) returns (result: Result<seq<byte>, DecodeError>)
    ensures result == if !Clean(symbols) then Err(InvalidSymbol)
                      else Ok(DecodedSymbols(symbols))
  {
    hide DecodedChunk, SymbolValue;
    var out := [];
    var i := 0;
    while i < |symbols|
      invariant 0 <= i <= |symbols|
      invariant Clean(symbols[..i])
      invariant Clean(symbols) ==>
                  out + DecodedSymbols(symbols[i..]) == DecodedSymbols(symbols)
    {
      var end := if i + 4 <= |symbols| then i + 4 else |symbols|;
      var bytes := DecodeChunk(symbols[i..end]);
      CleanSplits(symbols, i, end);
      if bytes.Err? {
        return Err(InvalidSymbol);
      }
      out := out + bytes.value;
      if Clean(symbols) {
        DecodedFrom(symbols, i, end);
      }
      i := end;
    }
    assert symbols[..i] == symbols && symbols[i..] == [];
    assert Clean(symbols) && out == out + DecodedSymbols([]) == DecodedSymbols(symbols);
    result := Ok(out);
  }

  lemma CleanSplits(symbols: seq<byte>, i: nat, end: nat)
    requires i <= end <= |symbols|
    ensures Clean(symbols) ==> Clean(symbols[i..end])
    ensures Clean(symbols[..end]) <==> Clean(symbols[..i]) && Clean(symbols[i..end])
  {
    assert symbols[..end] == symbols[..i] + symbols[i..end];
  }

  method DecodeChunk(chunk: seq<byte>) returns (result: Result<seq<byte>, DecodeError>)
    requires 1 <= |chunk| <= 4
    ensures result == if !Clean(chunk) then Err(InvalidSymbol) else Ok(DecodedChunk(chunk))
  {
    var n := 0;
    for k := 0 to |chunk|
      invariant Clean(chunk[..k])
      invariant n == SymbolBits(chunk[..k])
    {
      match SymbolValue(chunk[k])
      case Err(_) =>
        return Err(InvalidSymbol);
      case Ok(value) =>
        ShiftIn(chunk, k);
        n := n + value * (if k == 0 then 262_144 else if k == 1 then 4096 else if k == 2 then 64 else 1);
    }
    assert chunk[..|chunk|] == chunk;
    var out := [(n / 65_536 % 256) as byte];
    if |chunk| > 2 {
      out := out + [(n / 256 % 256) as byte];
    }
    if |chunk| > 3 {
      out := out + [(n % 256) as byte];
    }
    assert Clean(chunk) && out == DecodedChunk(chunk);
    result := Ok(out);
  }

  lemma ShiftIn(chunk: seq<byte>, k: nat)
    requires k < |chunk| <= 4 && Clean(chunk[..k + 1])
    ensures Clean(chunk[..k])
    ensures SymbolBits(chunk[..k + 1]) == SymbolBits(chunk[..k]) + Value(chunk[k]) *
              (if k == 0 then 262_144 else if k == 1 then 4096 else if k == 2 then 64 else 1)
  {
    assert chunk[..k + 1][..k] == chunk[..k];
    assert chunk[k] == chunk[..k + 1][k];
  }

  lemma DecodedFrom(symbols: seq<byte>, i: nat, end: nat)
    requires Clean(symbols)
    requires i < |symbols| && end == if i + 4 <= |symbols| then i + 4 else |symbols|
    ensures DecodedSymbols(symbols[i..]) == DecodedChunk(symbols[i..end]) + DecodedSymbols(symbols[end..])
  {
    var rest := symbols[i..];
    if |rest| <= 4 {
      assert symbols[i..end] == rest;
    } else {
      assert rest[..4] == symbols[i..end] && rest[4..] == symbols[end..];
    }
  }
}
