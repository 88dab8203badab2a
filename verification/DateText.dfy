/** Dates as text (`date` and `is_valid_date` in `src/util/time.rs`), on the bytes of the string. */
module DateText {
  import opened Prelude
  import opened Arithmetic
  import opened Calendar

  const DASH: byte := 45
  const ZERO: byte := 48

  predicate IsDigit(b: byte) {
    48 <= b <= 57
  }

  predicate AllDigits(s: seq<byte>) {
    forall i | 0 <= i < |s| :: IsDigit(s[i])
  }

  /** `str::parse` on a run of digits. */
  function Number(s: seq<byte>): int {
    if s == [] then 0 else 10 * Number(s[..|s| - 1]) + (s[|s| - 1] as int - 48)
  }

  function Digits(n: nat): seq<byte> {
    if n < 10 then [(48 + n) as byte] else Digits(n / 10) + [(48 + n % 10) as byte]
  }

  function Zeros(n: int): seq<byte> {
    if n <= 0 then [] else Zeros(n - 1) + [ZERO]
  }

  /** `{:0width}`: the sign, if any, counts toward the width. */
  function Padded(n: int, width: nat): seq<byte> {
    if n < 0 then [DASH] + Zeros(width - 1 - |Digits(-n)|) + Digits(-n)
    else Zeros(width - |Digits(n)|) + Digits(n)
  }

  /** `DateTime::date`. */
  function DateString(date: Date): seq<byte> {
    Padded(date.year, 4) + [DASH] + Padded(date.month, 2) + [DASH] + Padded(date.day, 2)
  }

  predicate IsValidDate(text: seq<byte>) {
    if |text| != 10 || text[4] != DASH || text[7] != DASH then false
    else if !(forall i | 0 <= i < |text| :: i == 4 || i == 7 || IsDigit(text[i])) then false
    else
      var year := Number(text[0..4]);
      var month := Number(text[5..7]);
      var day := Number(text[8..10]);
      1 <= month <= 12 && day >= 1 && day <= DaysInMonth(year, month)
  }

  // ---- Digits and numbers ----

  function PowerOfTen(w: nat): nat {
    if w == 0 then 1 else 10 * PowerOfTen(w - 1)
  }

  /** Padding from the right: the last digit, and the rest in one place less. */
  lemma PaddedSplits(n: nat, w: nat)
    requires w > 1
    ensures Padded(n, w) == Padded(n / 10, w - 1) + [(48 + n % 10) as byte]
  {
    if n < 10 {
      assert Digits(0) == [ZERO];
      assert Padded(0, w - 1) == Zeros(w - 2) + [ZERO];
      assert Zeros(w - 1) == Zeros(w - 2) + [ZERO];
    } else {
      assert Padded(n, w) == Zeros(w - |Digits(n)|) + (Digits(n / 10) + [(48 + n % 10) as byte]);
    }
  }

  /** A number that fits its width prints as that many digits, which read as the number. */
  lemma {:induction false} PaddedReads(n: nat, w: nat)
    requires w > 0 && n < PowerOfTen(w)
    ensures |Padded(n, w)| == w && AllDigits(Padded(n, w)) && Number(Padded(n, w)) == n
  {
    var last := [(48 + n % 10) as byte];
    if w == 1 {
      assert PowerOfTen(1) == 10 * PowerOfTen(0);
      assert Padded(n, 1) == last;
      assert Number(last[..0]) == 0;
    } else {
      PaddedReads(n / 10, w - 1);
      PaddedSplits(n, w);
      assert Padded(n, w)[..w - 1] == Padded(n / 10, w - 1);
    }
  }

  /** Digits read as a number print as themselves again. */
  lemma {:induction false} ReadPads(s: seq<byte>)
    requires s != [] && AllDigits(s)
    ensures 0 <= Number(s) < PowerOfTen(|s|) && Padded(Number(s), |s|) == s
  {
    var last := s[|s| - 1];
    var rest := s[..|s| - 1];
    assert s == rest + [last];
    if |s| == 1 {
      assert PowerOfTen(1) == 10 * PowerOfTen(0) && Number(rest) == 0;
      assert Padded(Number(s), 1) == Digits(Number(s));
    } else {
      hide Padded;
      ReadPads(rest);
      DivMod(Number(s), 10, Number(rest), last as int - 48);
      PaddedSplits(Number(s), |s|);
    }
  }

  lemma PowersOfTen()
    ensures PowerOfTen(2) == 100 && PowerOfTen(4) == 10_000
  {
    assert PowerOfTen(1) == 10 && PowerOfTen(2) == 100 && PowerOfTen(3) == 1000;
  }

  /** The ASCII digit for a number below ten. */
  function AsciiDigit(n: int): byte
    requires 0 <= n < 10
  {
    (0x30 + n) as byte
  }

  lemma TwoDigits(n: int)
    requires 0 <= n < 100
    ensures Padded(n, 2) == [AsciiDigit(n / 10), AsciiDigit(n % 10)]
  {
    PaddedSplits(n, 2);
    assert Padded(n / 10, 1) == Zeros(0) + Digits(n / 10);
  }

  lemma FourDigits(n: int)
    requires 0 <= n < 10_000
    ensures Padded(n, 4) ==
            [AsciiDigit(n / 1000), AsciiDigit(n / 100 % 10), AsciiDigit(n / 10 % 10), AsciiDigit(n % 10)]
  {
    hide Padded;
    PaddedSplits(n, 4);
    PaddedSplits(n / 10, 3);
    TwoDigits(n / 100);
  }

  /** `YYYY-MM-DD`, digit by digit. */
  lemma DateStringIs(date: Date)
    requires Valid(date) && 0 <= date.year <= 9999
    ensures var (y, m, d) := (date.year, date.month, date.day);
            DateString(date) ==
            [AsciiDigit(y / 1000), AsciiDigit(y / 100 % 10), AsciiDigit(y / 10 % 10), AsciiDigit(y % 10), 0x2D,
             AsciiDigit(m / 10), AsciiDigit(m % 10), 0x2D, AsciiDigit(d / 10), AsciiDigit(d % 10)]
  {
    hide Padded;
    FourDigits(date.year);
    TwoDigits(date.month);
    TwoDigits(date.day);
  }

  // ---- The language of `is_valid_date` ----

  lemma DateStringIsValid(date: Date)
    requires Valid(date) && 0 <= date.year <= 9999
    ensures IsValidDate(DateString(date))
  {
    hide Padded, Number;
    PowersOfTen();
    PaddedReads(date.year, 4);
    PaddedReads(date.month, 2);
    PaddedReads(date.day, 2);
    var text := DateString(date);
    assert text[0..4] == Padded(date.year, 4);
    assert text[5..7] == Padded(date.month, 2);
    assert text[8..10] == Padded(date.day, 2);
    forall i | 0 <= i < |text|
      ensures i == 4 || i == 7 || IsDigit(text[i])
    {
      if i < 4 {
        assert text[i] == text[0..4][i];
      } else if 5 <= i < 7 {
        assert text[i] == text[5..7][i - 5];
      } else if 8 <= i {
        assert text[i] == text[8..10][i - 8];
      }
    }
  }

  lemma ValidIsDateString(text: seq<byte>) returns (date: Date)
    requires IsValidDate(text)
    ensures Valid(date) && 0 <= date.year <= 9999 && text == DateString(date)
  {
    hide Padded, Number;
    PowersOfTen();
    date := Date(Number(text[0..4]), Number(text[5..7]), Number(text[8..10]));
    ReadPads(text[0..4]);
    ReadPads(text[5..7]);
    ReadPads(text[8..10]);
    assert text == text[0..4] + [text[4]] + text[5..7] + [text[7]] + text[8..10];
  }

  /** A string is a valid date exactly when it is how some day of the years 0 to 9999 prints. */
  lemma ValidDatesArePrintedDays(text: seq<byte>)
    ensures IsValidDate(text) <==>
            exists days :: 0 <= WideCivilFromDays(days).year <= 9999 && text == DateString(CivilFromDays(days))
  {
    if IsValidDate(text) {
      var date := ValidIsDateString(text);
      var days := DayOf(date);
    }
    if days :| 0 <= WideCivilFromDays(days).year <= 9999 && text == DateString(CivilFromDays(days)) {
      WideRoundTrip(days);
      AsI32Identity(WideCivilFromDays(days).year);
      DateStringIsValid(CivilFromDays(days));
    }
  }

  lemma DayOf(date: Date) returns (days: int)
    requires Valid(date) && FitsI32(date.year)
    ensures CivilFromDays(days) == WideCivilFromDays(days) == date
  {
    days := ClosedDays(date);
    WideRoundTrip(days);
    OnlyOneDate(WideCivilFromDays(days), date);
    AsI32Identity(date.year);
  }
}
