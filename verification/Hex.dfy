/** Uppercase hexadecimal (`src/util/hex.rs`). */
module Hex {
  import opened Prelude

  function HexDigit(n: int): char
    requires 0 <= n < 16
  {
    if n < 10 then '0' + n as char else 'A' + (n - 10) as char
  }

  function UpperHex(bytes: seq<byte>): string {
    if bytes == [] then ""
    else
      var b := bytes[|bytes| - 1] as int;
      UpperHex(bytes[..|bytes| - 1]) + [HexDigit(b / 16), HexDigit(b % 16)]
  }

  method Upper(bytes: seq<byte>) returns (out: string)
    ensures out == UpperHex(bytes)
  {
    out := "";
    for i := 0 to |bytes|
      invariant out == UpperHex(bytes[..i])
    {
      var b := bytes[i] as int;
      assert bytes[..i + 1][..i] == bytes[..i];
      out := out + [HexDigit(b / 16)];
      out := out + [HexDigit(b % 16)];
    }
    assert bytes[..|bytes|] == bytes;
  }

  /** The value of a digit, read on its own terms. */
  function DigitValue(c: char): int {
    if '0' <= c <= '9' then c as int - '0' as int
    else if 'A' <= c <= 'F' then c as int - 'A' as int + 10
    else -1
  }

  lemma DigitsRead(n: int)
    requires 0 <= n < 16
    ensures DigitValue(HexDigit(n)) == n
  {
  }

  lemma {:induction false} HexLength(bytes: seq<byte>)
    ensures |UpperHex(bytes)| == 2 * |bytes|
  {
    if bytes != [] {
      HexLength(bytes[..|bytes| - 1]);
    }
  }

  /** The two characters for byte `i`. */
  lemma {:induction false} HexAt(bytes: seq<byte>, i: nat)
    requires i < |bytes|
    ensures |UpperHex(bytes)| == 2 * |bytes|
    ensures UpperHex(bytes)[2 * i] == HexDigit(bytes[i] as int / 16)
    ensures UpperHex(bytes)[2 * i + 1] == HexDigit(bytes[i] as int % 16)
  {
    hide HexDigit;
    HexLength(bytes);
    var rest := bytes[..|bytes| - 1];
    HexLength(rest);
    if i < |rest| {
      HexAt(rest, i);
      assert rest[i] == bytes[i];
    }
  }

  /** Two uppercase digits a byte and no separators, each pair reading as its byte. */
  lemma HexReadsBack(bytes: seq<byte>)
    ensures |UpperHex(bytes)| == 2 * |bytes|
    ensures forall i | 0 <= i < |bytes| ::
              var high, low := DigitValue(UpperHex(bytes)[2 * i]), DigitValue(UpperHex(bytes)[2 * i + 1]);
              0 <= high < 16 && 0 <= low < 16 && 16 * high + low == bytes[i] as int
  {
    hide HexDigit, DigitValue, UpperHex;
    HexLength(bytes);
    forall i | 0 <= i < |bytes|
      ensures var high, low := DigitValue(UpperHex(bytes)[2 * i]), DigitValue(UpperHex(bytes)[2 * i + 1]);
              0 <= high < 16 && 0 <= low < 16 && 16 * high + low == bytes[i] as int
    {
      HexAt(bytes, i);
      DigitsRead(bytes[i] as int / 16);
      DigitsRead(bytes[i] as int % 16);
    }
  }

  /** Different serials never print alike. */
  lemma HexIsInjective(a: seq<byte>, b: seq<byte>)
    requires UpperHex(a) == UpperHex(b)
    ensures a == b
  {
    hide DigitValue, UpperHex;
    HexReadsBack(a);
    HexReadsBack(b);
    forall i | 0 <= i < |a|
      ensures a[i] == b[i]
    {
      assert UpperHex(a)[2 * i] == UpperHex(b)[2 * i] && UpperHex(a)[2 * i + 1] == UpperHex(b)[2 * i + 1];
    }
  }
}
