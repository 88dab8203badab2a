/** The `KEY=value` configuration file (`src/env.rs`). */
module EnvFile {
  import opened Prelude
  import opened Text

  /** `str::lines`: a line ends at `\n` or `\r\n`; the last one need not. */
  function Lines(contents: string): seq<string>
    decreases |contents|
  {
    if contents == "" then []
    else
      match Find(contents, "\n")
      case None => [contents]
      case Some(end) => [WithoutCr(contents[..end])] + Lines(contents[end + 1..])
  }

  function WithoutCr(line: string): string {
    if line != "" && line[|line| - 1] == '\r' then line[..|line| - 1] else line
  }

  predicate IsKeyStart(c: char) {
    'a' <= c <= 'z' || 'A' <= c <= 'Z' || c == '_'
  }

  predicate IsKeyChar(c: char) {
    IsKeyStart(c) || '0' <= c <= '9'
  }

  predicate IsValidKey(key: string) {
    key != "" && IsKeyStart(key[0]) && forall i | 1 <= i < |key| :: IsKeyChar(key[i])
  }

  predicate Quoted(text: string, quote: char) {
    |text| >= 2 && text[0] == quote && text[|text| - 1] == quote
  }

  function Unquote(value: string): string {
    var trimmed := Trim(value);
    if Quoted(trimmed, '"') then trimmed[1..|trimmed| - 1]
    else if Quoted(trimmed, '\'') then trimmed[1..|trimmed| - 1]
    else
      match Find(value, " #")
      case Some(comment) => Trim(value[..comment])
      case None => trimmed
  }

  /** What a line is, taken by itself. */
  datatype Line = Skipped | NoEquals | BadKey | Setting(key: string, value: string)

  const EXPORT: string := "export "

  function WithoutExport(line: string): string {
    TrimStart(if EXPORT <= line then line[|EXPORT|..] else line)
  }

  function Classify(raw: string): Line {
    var line := Trim(raw);
    if line == "" || line[0] == '#' then Skipped
    else
      var line := WithoutExport(line);
      match Find(line, "=")
      case None => NoEquals
      case Some(equals) =>
        var key := Trim(line[..equals]);
        if !IsValidKey(key) then BadKey else Setting(key, Unquote(line[equals + 1..]))
  }

  datatype Mistake = ExpectedKeyValue | InvalidName | SetMoreThanOnce

  datatype ParseError = ParseError(number: nat, mistake: Mistake)

  type Settings = map<string, string>

  /** The lines one after the other. */
  function ParsedLines(lines: seq<string>): Result<Settings, ParseError> {
    if lines == [] then Ok(map[])
    else
      match ParsedLines(lines[..|lines| - 1])
      case Err(e) => Err(e)
      case Ok(values) =>
        match Classify(lines[|lines| - 1])
        case Skipped => Ok(values)
        case NoEquals => Err(ParseError(|lines|, ExpectedKeyValue))
        case BadKey => Err(ParseError(|lines|, InvalidName))
        case Setting(key, value) =>
          if key in values then Err(ParseError(|lines|, SetMoreThanOnce)) else Ok(values[key := value])
  }

  method Parse(contents: string) returns (result: Result<Settings, ParseError>)
    ensures result == ParsedLines(Lines(contents))
  {
    hide Classify, Lines;
    var values := map[];
    var lines := Lines(contents);
    for index := 0 to |lines|
      invariant ParsedLines(lines[..index]) == Ok(values)
    {
      assert lines[..index + 1][..index] == lines[..index];
      var number := index + 1;
      match Classify(lines[index]) {
        case Skipped =>
        case NoEquals =>
          ErrorStays(lines, number);
          return Err(ParseError(number, ExpectedKeyValue));
        case BadKey =>
          ErrorStays(lines, number);
          return Err(ParseError(number, InvalidName));
        case Setting(key, value) =>
          if key in values {
            ErrorStays(lines, number);
            return Err(ParseError(number, SetMoreThanOnce));
          }
          values := values[key := value];
      }
    }
    assert lines[..|lines|] == lines;
    result := Ok(values);
  }

  lemma {:induction false} ErrorStays(lines: seq<string>, n: nat)
    requires n <= |lines| && ParsedLines(lines[..n]).Err?
    ensures ParsedLines(lines) == ParsedLines(lines[..n])
  {
    if n == |lines| {
      assert lines[..n] == lines;
    } else {
      assert lines[..|lines| - 1][..n] == lines[..n];
      ErrorStays(lines[..|lines| - 1], n);
    }
  }

  // ---- When parsing fails, and where ----

  predicate Sets(lines: seq<string>, i: int, key: string)
    requires 0 <= i < |lines|
  {
    Classify(lines[i]).Setting? && Classify(lines[i]).key == key
  }

  /** A significant line without `=`, with an invalid key, or with a key set before. */
  predicate Offends(lines: seq<string>, i: int)
    requires 0 <= i < |lines|
  {
    var line := Classify(lines[i]);
    || line.NoEquals?
    || line.BadKey?
    || (line.Setting? && exists j | 0 <= j < i :: Sets(lines, j, line.key))
  }

  /** What is wrong with an offending line. */
  function MistakeOf(line: Line): Mistake {
    match line
    case NoEquals => ExpectedKeyValue
    case BadKey => InvalidName
    case _ => SetMoreThanOnce
  }

  /** The settings of the lines, all of them and nothing else. */
  ghost predicate AreSettingsOf(values: Settings, lines: seq<string>) {
    && (forall i | 0 <= i < |lines| && Classify(lines[i]).Setting? ::
          Classify(lines[i]).key in values && values[Classify(lines[i]).key] == Classify(lines[i]).value)
    && (forall key | key in values :: exists i :: 0 <= i < |lines| && Sets(lines, i, key))
  }

  /**
   * Parsing succeeds with exactly the settings of the file when no line offends; otherwise it names
   * the first line that does.
   */
  lemma {:induction false} ParseStopsAtTheFirstOffence(lines: seq<string>)
    ensures ParsedLines(lines).Ok? <==> forall i | 0 <= i < |lines| :: !Offends(lines, i)
    ensures ParsedLines(lines).Ok? ==> AreSettingsOf(ParsedLines(lines).value, lines)
    ensures ParsedLines(lines).Err? ==>
              var n := ParsedLines(lines).error.number;
              && 1 <= n <= |lines| && Offends(lines, n - 1) && (forall i | 0 <= i < n - 1 :: !Offends(lines, i))
              && ParsedLines(lines).error.mistake == MistakeOf(Classify(lines[n - 1]))
  {
    hide Classify, Offends, AreSettingsOf, MistakeOf;
    if lines == [] {
      NothingIsSet();
    } else {
      var last := |lines| - 1;
      var before := lines[..last];
      ParseStopsAtTheFirstOffence(before);
      forall i | 0 <= i < last
        ensures Offends(lines, i) <==> Offends(before, i)
      {
        OffendsAlike(lines, before, i);
      }
      if ParsedLines(before).Ok? {
        LastLine(lines, ParsedLines(before).value);
      }
    }
  }

  lemma NothingIsSet()
    ensures AreSettingsOf(map[], [])
  {
  }

  lemma OffendsAlike(lines: seq<string>, before: seq<string>, i: int)
    requires before <= lines && 0 <= i < |before|
    ensures Offends(lines, i) <==> Offends(before, i)
  {
    hide Classify;
    var line := Classify(lines[i]);
    if line.Setting? {
      forall j | 0 <= j < i
        ensures Sets(lines, j, line.key) <==> Sets(before, j, line.key)
      {
      }
    }
  }

  lemma LastLine(lines: seq<string>, values: Settings)
    requires lines != []
    requires var before := lines[..|lines| - 1]; ParsedLines(before) == Ok(values) && AreSettingsOf(values, before)
    ensures ParsedLines(lines).Ok? <==> !Offends(lines, |lines| - 1)
    ensures ParsedLines(lines).Ok? ==> AreSettingsOf(ParsedLines(lines).value, lines)
    ensures ParsedLines(lines).Err? ==>
              ParsedLines(lines).error == ParseError(|lines|, MistakeOf(Classify(lines[|lines| - 1])))
  {
    hide Classify;
    var last := |lines| - 1;
    var before := lines[..last];
    var line := Classify(lines[last]);
    if line.Setting? {
      if line.key in values {
        var i :| 0 <= i < last && Sets(before, i, line.key);
        assert Sets(lines, i, line.key);
      } else {
        forall j | 0 <= j < last
          ensures !Sets(lines, j, line.key)
        {
          assert before[j] == lines[j];
        }
      }
    }
    if ParsedLines(lines).Ok? {
      SettingsWithLast(lines, values, ParsedLines(lines).value);
    }
  }

  lemma SettingsWithLast(lines: seq<string>, values: Settings, all: Settings)
    requires lines != [] && AreSettingsOf(values, lines[..|lines| - 1])
    requires var line := Classify(lines[|lines| - 1]);
             if line.Setting? then line.key !in values && all == values[line.key := line.value]
             else all == values
    ensures AreSettingsOf(all, lines)
  {
    hide Classify;
    var last := |lines| - 1;
    var before := lines[..last];
    forall key | key in all
      ensures exists i :: 0 <= i < |lines| && Sets(lines, i, key)
    {
      if key in values {
        var i :| 0 <= i < last && Sets(before, i, key);
        assert Sets(lines, i, key);
      } else {
        assert Sets(lines, last, key);
      }
    }
    forall i | 0 <= i < |lines| && Classify(lines[i]).Setting?
      ensures Classify(lines[i]).key in all && all[Classify(lines[i]).key] == Classify(lines[i]).value
    {
      if i < last {
        assert before[i] == lines[i];
      }
    }
  }

  // ---- The last line ----

  /** The line break at the end of the file is optional. */
  lemma {:induction false} FinalNewlineIsOptional(contents: string)
    requires contents != "" && contents[|contents| - 1] != '\n' && contents[|contents| - 1] != '\r'
    ensures Lines(contents + "\n") == Lines(contents)
    decreases |contents|
  {
    hide FindFrom;
    var more := contents + "\n";
    match Find(contents, "\n")
    case None =>
      NoBreakBefore(contents, |contents|);
      assert more[|contents|..|contents| + 1] == "\n";
      FindIs(more, "\n", |contents|);
      assert more[..|contents|] == contents && more[|contents| + 1..] == "";
    case Some(end) =>
      assert contents[end..end + 1] == "\n" && contents[end] == '\n';
      NoBreakBefore(contents, end);
      assert more[end..end + 1] == "\n";
      FindIs(more, "\n", end);
      assert more[..end] == contents[..end] && more[end + 1..] == contents[end + 1..] + "\n";
      FinalNewlineIsOptional(contents[end + 1..]);
  }

  lemma NoBreakBefore(contents: string, end: nat)
    requires end <= |contents| && forall j: nat | j < end :: !OccursAt(contents, "\n", j)
    ensures forall j: nat | j < end :: !OccursAt(contents + "\n", "\n", j)
  {
    forall j: nat | j < end
      ensures !OccursAt(contents + "\n", "\n", j)
    {
      assert !OccursAt(contents, "\n", j);
      assert (contents + "\n")[j..j + 1] == contents[j..j + 1];
    }
  }

  // ---- Print, then parse ----

  /** A line to print: a setting, perhaps exported, in either quotes; or a blank line or comment. */
  datatype Item =
    | Assign(key: string, value: string, quote: char, exported: bool)
    | Filler(text: string)

  predicate Printable(item: Item) {
    match item
    case Assign(key, value, quote, _) => IsValidKey(key) && '\n' !in value && quote in {'"', '\''}
    case Filler(text) => '\n' !in text && (Trim(text) == "" || Trim(text)[0] == '#')
  }

  function ItemText(item: Item): string {
    match item
    case Assign(key, value, quote, exported) =>
      (if exported then EXPORT else "") + key + "=" + [quote] + value + [quote]
    case Filler(text) => text
  }

  /** The file: each item on a line, ended in `\r\n` or `\n`. */
  function Printed(items: seq<Item>, crlf: bool): string {
    if items == [] then ""
    else ItemText(items[0]) + (if crlf then "\r\n" else "\n") + Printed(items[1..], crlf)
  }

  function LineOf(item: Item): Line {
    match item
    case Assign(key, value, _, _) => Setting(key, value)
    case Filler(_) => Skipped
  }

  lemma TrimmedAlready(s: string)
    requires s != "" && !IsWhitespace(s[0]) && !IsWhitespace(s[|s| - 1])
    ensures Trim(s) == s && TrimStart(s) == s
  {
  }

  lemma KeyCharsAreVisible(key: string, i: int)
    requires IsValidKey(key) && 0 <= i < |key|
    ensures !IsWhitespace(key[i]) && key[i] != '=' && key[i] != '#' && key[i] != ' '
  {
  }

  lemma ExportIsNoKey(key: string, rest: string)
    requires IsValidKey(key)
    ensures !(EXPORT <= key + "=" + rest)
  {
    var text := key + "=" + rest;
    if |key| >= 7 {
      KeyCharsAreVisible(key, 6);
      assert text[6] == key[6] && EXPORT[6] == ' ';
    } else {
      assert text[|key|] == '=' && EXPORT[|key|] != '=';
    }
  }

  lemma UnquoteQuoted(value: string, quote: char)
    requires quote in {'"', '\''}
    ensures Unquote([quote] + value + [quote]) == value
  {
    var text := [quote] + value + [quote];
    TrimmedAlready(text);
    assert text[1..|text| - 1] == value;
  }

  lemma AssignmentIsFound(key: string, rest: string)
    requires IsValidKey(key) && rest != "" && !IsWhitespace(rest[|rest| - 1])
    ensures var text := key + "=" + rest;
            && Trim(text) == text && TrimStart(text) == text && text[0] != '#'
            && Find(text, "=") == Some(|key|) && text[..|key|] == key && text[|key| + 1..] == rest
            && Trim(key) == key
  {
    var text := key + "=" + rest;
    KeyCharsAreVisible(key, 0);
    KeyCharsAreVisible(key, |key| - 1);
    assert text[0] == key[0] && text[|text| - 1] == rest[|rest| - 1];
    TrimmedAlready(text);
    TrimmedAlready(key);
    forall j: nat | j < |key|
      ensures !OccursAt(text, "=", j)
    {
      KeyCharsAreVisible(key, j);
      assert j + 1 <= |text| && text[j..j + 1] == [key[j]];
    }
    assert text[|key|..|key| + 1] == "=";
    FindIs(text, "=", |key|);
  }

  lemma ExportIsDropped(key: string, rest: string, exported: bool)
    requires IsValidKey(key) && rest != "" && !IsWhitespace(rest[|rest| - 1])
    ensures var line := key + "=" + rest;
            var text := if exported then EXPORT + line else line;
            text != "" && Trim(text) == text && text[0] != '#' && WithoutExport(text) == line
  {
    hide Find, Trim, TrimStart, IsValidKey, IsWhitespace;
    var line := key + "=" + rest;
    AssignmentIsFound(key, rest);
    if exported {
      ExportedIsTrimmed(line);
      assert (EXPORT + line)[|EXPORT|..] == line;
    } else {
      ExportIsNoKey(key, rest);
    }
  }

  lemma ClassifyAssignment(text: string, key: string, rest: string)
    requires IsValidKey(key) && rest != "" && !IsWhitespace(rest[|rest| - 1])
    requires text != "" && Trim(text) == text && text[0] != '#' && WithoutExport(text) == key + "=" + rest
    ensures Classify(text) == Setting(key, Unquote(rest))
  {
    hide Find, Trim, TrimStart, IsValidKey, IsWhitespace, WithoutExport, Unquote;
    AssignmentIsFound(key, rest);
  }

  lemma AssignIsRead(key: string, value: string, quote: char, exported: bool)
    requires IsValidKey(key) && quote in {'"', '\''}
    ensures Classify(ItemText(Assign(key, value, quote, exported))) == Setting(key, value)
  {
    hide Classify, Trim, IsValidKey, IsWhitespace, WithoutExport, Unquote;
    var rest := [quote] + value + [quote];
    QuotesAreVisible();
    var text := ItemText(Assign(key, value, quote, exported));
    assert text == if exported then EXPORT + (key + "=" + rest) else key + "=" + rest;
    ExportIsDropped(key, rest, exported);
    ClassifyAssignment(text, key, rest);
    UnquoteQuoted(value, quote);
  }

  lemma QuotesAreVisible()
    ensures !IsWhitespace('"') && !IsWhitespace('\'')
  {
  }

  lemma ExportedIsTrimmed(line: string)
    requires line != "" && Trim(line) == line
    ensures Trim(EXPORT + line) == EXPORT + line && (EXPORT + line)[0] != '#'
  {
    TrimEndsVisible(line);
    TrimmedAlready(EXPORT + line);
  }

  lemma {:induction false} TrimEndsVisible(line: string)
    ensures Trim(line) == line && line != "" ==> !IsWhitespace(line[|line| - 1])
  {
    if line != "" && IsWhitespace(line[|line| - 1]) {
      TrimGrowsNothing(line[..|line| - 1]);
    }
  }

  lemma {:induction false} TrimGrowsNothing(s: string)
    ensures |Trim(s)| <= |s|
  {
    TrimEndGrowsNothing(s);
    TrimStartGrowsNothing(TrimEnd(s));
  }

  lemma TrimEndGrowsNothing(s: string)
    ensures |TrimEnd(s)| <= |s|
  {
  }

  lemma TrimStartGrowsNothing(s: string)
    ensures |TrimStart(s)| <= |s|
  {
  }

  /** A carriage return at the end of a line changes nothing about it. */
  lemma CrIsTrimmed(line: string)
    ensures Trim(WithoutCr(line)) == Trim(line)
    ensures Classify(WithoutCr(line)) == Classify(line)
    ensures WithoutCr(line + "\r") == line
  {
    assert (line + "\r")[..|line|] == line;
  }

  lemma ItemIsRead(item: Item, crlf: bool)
    requires Printable(item)
    ensures Classify(WithoutCr(ItemText(item) + if crlf then "\r" else "")) == LineOf(item)
  {
    var text := ItemText(item);
    assert text + "" == text;
    CrIsTrimmed(text);
    match item
    case Assign(key, value, quote, exported) => AssignIsRead(key, value, quote, exported);
    case Filler(_) =>
  }

  lemma ItemIsOneLine(item: Item)
    requires Printable(item)
    ensures '\n' !in ItemText(item)
  {
    if item.Assign? {
      forall i | 0 <= i < |item.key|
        ensures item.key[i] != '\n'
      {
        KeyCharsAreVisible(item.key, i);
      }
      assert '\n' !in EXPORT;
    }
  }

  lemma FirstLine(line: string, rest: string)
    requires '\n' !in line
    ensures Lines(line + "\n" + rest) == [WithoutCr(line)] + Lines(rest)
  {
    var contents := line + "\n" + rest;
    forall j: nat | j < |line|
      ensures !OccursAt(contents, "\n", j)
    {
      assert contents[j..j + 1] == [line[j]];
    }
    assert contents[|line|..|line| + 1] == "\n";
    FindIs(contents, "\n", |line|);
    assert contents[..|line|] == line && contents[|line| + 1..] == rest;
  }

  lemma {:induction false} PrintedLines(items: seq<Item>, crlf: bool)
    requires forall i | 0 <= i < |items| :: Printable(items[i])
    ensures var lines := Lines(Printed(items, crlf));
            && |lines| == |items|
            && forall i | 0 <= i < |items| :: Classify(lines[i]) == LineOf(items[i])
  {
    hide Classify, ItemText, LineOf, Printable, Lines;
    if items == [] {
      NoLines();
    } else {
      var first := ItemText(items[0]) + if crlf then "\r" else "";
      ItemIsRead(items[0], crlf);
      ItemIsOneLine(items[0]);
      FirstLine(first, Printed(items[1..], crlf));
      assert Printed(items, crlf) == first + "\n" + Printed(items[1..], crlf);
      PrintedLines(items[1..], crlf);
    }
  }

  lemma NoLines()
    ensures Lines("") == []
  {
  }

  /** The items assign each key of `values` its value, once, and nothing else. */
  ghost predicate Assigns(items: seq<Item>, values: Settings) {
    && (forall i | 0 <= i < |items| && items[i].Assign? ::
          items[i].key in values && values[items[i].key] == items[i].value)
    && (forall i, j | 0 <= i < j < |items| && items[i].Assign? && items[j].Assign? :: items[i].key != items[j].key)
    && (forall key | key in values :: exists i :: 0 <= i < |items| && items[i].Assign? && items[i].key == key)
  }

  /**
   * Printing settings as quoted lines, in any order, with or without `export`, among blank lines and
   * comments, and parsing the file again gives back exactly those settings.
   */
  lemma ParseUndoesPrint(items: seq<Item>, values: Settings, crlf: bool)
    requires forall i | 0 <= i < |items| :: Printable(items[i])
    requires Assigns(items, values)
    ensures ParsedLines(Lines(Printed(items, crlf))) == Ok(values)
  {
    hide Classify, Printed, Lines;
    PrintedLines(items, crlf);
    var lines := Lines(Printed(items, crlf));
    ParseStopsAtTheFirstOffence(lines);
    forall i | 0 <= i < |lines|
      ensures !Offends(lines, i)
    {
      assert Classify(lines[i]) == LineOf(items[i]);
      forall j | 0 <= j < i && items[i].Assign?
        ensures !Sets(lines, j, items[i].key)
      {
        assert Classify(lines[j]) == LineOf(items[j]);
      }
    }
    var parsed := ParsedLines(lines).value;
    SameSettings(items, lines, values, parsed);
  }

  lemma SameSettings(items: seq<Item>, lines: seq<string>, values: Settings, parsed: Settings)
    requires |lines| == |items| && forall i | 0 <= i < |items| :: Classify(lines[i]) == LineOf(items[i])
    requires Assigns(items, values) && AreSettingsOf(parsed, lines)
    ensures parsed == values
  {
    hide Classify;
    forall key | key in values
      ensures key in parsed && parsed[key] == values[key]
    {
      var i :| 0 <= i < |items| && items[i].Assign? && items[i].key == key;
      assert Classify(lines[i]) == LineOf(items[i]);
    }
    forall key | key in parsed
      ensures key in values
    {
      var i :| 0 <= i < |lines| && Sets(lines, i, key);
      assert Classify(lines[i]) == LineOf(items[i]);
    }
    assert parsed.Keys == values.Keys;
  }
}
