/**
 * What a line of the configuration file says, read off its text alone: which lines offend, which key
 * and value a line sets. Parsing is measured against this.
 */
module EnvText {
  import opened Prelude
  import opened Ascii
  import opened Text
  import opened EnvFile

  // ---- Reading a line ----

  /** Anything but a blank line or a comment. */
  predicate Significant(raw: string) {
    Trim(raw) != "" && Trim(raw)[0] != '#'
  }

  function Before(s: string, c: char): string {
    if s == "" || s[0] == c then "" else [s[0]] + Before(s[1..], c)
  }

  function After(s: string, c: char): string {
    if s == "" then "" else if s[0] == c then s[1..] else After(s[1..], c)
  }

  /** The line without whitespace around it and without `export `. */
  function Body(raw: string): string {
    if "export " <= Trim(raw) then Trim(raw)[7..] else Trim(raw)
  }

  function KeyText(raw: string): string {
    Trim(Before(Body(raw), '='))
  }

  /** A letter or underscore, then letters, digits and underscores. */
  predicate ValidName(key: string) {
    && key != ""
    && key[0] !in DIGITS
    && forall c | c in key :: c in UPPER || c in LOWER || c in DIGITS || c == '_'
  }

  /** The text before the first ` #`, all of it when there is none. */
  function BeforeComment(s: string): string {
    if s == "" || " #" <= s then "" else [s[0]] + BeforeComment(s[1..])
  }

  /** What stands between matching quotes, or else the text up to a comment, without whitespace around it. */
  function ValueText(raw: string): string {
    var text := After(Body(raw), '=');
    var trimmed := Trim(text);
    if |trimmed| >= 2 && trimmed[0] == trimmed[|trimmed| - 1] && (trimmed[0] == '"' || trimmed[0] == '\'')
    then trimmed[1..|trimmed| - 1]
    else Trim(BeforeComment(text))
  }

  /** The line sets this key. */
  predicate SetsKey(raw: string, key: string) {
    Significant(raw) && '=' in raw && KeyText(raw) == key
  }

  /** A significant line without `=`, without a valid key before it, or with a key set on a line before. */
  predicate IsOffence(lines: seq<string>, i: int)
    requires 0 <= i < |lines|
  {
    && Significant(lines[i])
    && (|| '=' !in lines[i]
        || !ValidName(KeyText(lines[i]))
        || exists j | 0 <= j < i :: SetsKey(lines[j], KeyText(lines[i])))
  }

  function Offence(raw: string): Mistake {
    if '=' !in raw then ExpectedKeyValue
    else if !ValidName(KeyText(raw)) then InvalidName
    else SetMoreThanOnce
  }

  /** These keys have these values by the lines, and no others have any. */
  ghost predicate SetBy(values: Settings, lines: seq<string>) {
    && (forall i | 0 <= i < |lines| && Significant(lines[i]) ::
          KeyText(lines[i]) in values && values[KeyText(lines[i])] == ValueText(lines[i]))
    && (forall key | key in values :: exists i :: 0 <= i < |lines| && SetsKey(lines[i], key))
  }

  // ---- The first `=` ----

  lemma {:induction false} Splits(s: string, c: char)
    ensures c !in Before(s, c)
    ensures c in s ==> s == Before(s, c) + [c] + After(s, c)
    ensures c !in s ==> Before(s, c) == s
  {
    if s != "" && s[0] != c {
      Splits(s[1..], c);
      SplitsLater(s, c, Before(s[1..], c), After(s[1..], c));
    }
  }

  lemma SplitsLater(s: string, c: char, before: string, after: string)
    requires s != "" && s[0] != c && c !in before
    requires if c in s[1..] then s[1..] == before + [c] + after else before == s[1..]
    ensures c !in [s[0]] + before
    ensures if c in s then s == ([s[0]] + before) + [c] + after else [s[0]] + before == s
  {
    assert s == [s[0]] + s[1..];
    assert c in s ==> s == [s[0]] + (before + [c] + after);
  }

  lemma FirstEquals(s: string)
    ensures Find(s, "=").Some? <==> '=' in s
    ensures '=' in s ==>
              var equals := Find(s, "=").value;
              s[..equals] == Before(s, '=') && s[equals + 1..] == After(s, '=')
  {
    hide Before, After, Find;
    Splits(s, '=');
    var n := |Before(s, '=')|;
    assert Before(s, '=') <= s;
    forall j: nat | j < n
      ensures !OccursAt(s, "=", j)
    {
      assert s[j..j + 1] == [Before(s, '=')[j]] && Before(s, '=')[j] in Before(s, '=');
    }
    if '=' in s {
      assert s[n..n + 1] == "=";
      FindIs(s, "=", n);
    }
  }

  // ---- Whitespace around the key ----

  lemma {:induction false} TrimEndCons(c: char, s: string)
    ensures TrimEnd([c] + s) == if TrimEnd(s) == "" then TrimEnd([c]) else [c] + TrimEnd(s)
  {
    if s == "" {
      assert [c] + s == [c];
    } else {
      var last := |s| - 1;
      assert ([c] + s)[..|s|] == [c] + s[..last];
      if IsWhitespace(s[last]) {
        TrimEndCons(c, s[..last]);
      }
    }
  }

  lemma TrimCons(c: char, s: string)
    requires IsWhitespace(c)
    ensures Trim([c] + s) == Trim(s)
  {
    TrimEndCons(c, s);
    assert ([c] + TrimEnd(s))[1..] == TrimEnd(s);
    assert TrimEnd([c]) == TrimEnd("") == "";
  }

  /** Whitespace in front moves neither the key nor the value. */
  lemma {:induction false} TrimStartKeeps(s: string)
    ensures Trim(Before(TrimStart(s), '=')) == Trim(Before(s, '='))
    ensures After(TrimStart(s), '=') == After(s, '=')
    ensures '=' in TrimStart(s) <==> '=' in s
  {
    hide IsWhitespace;
    if s != "" && IsWhitespace(s[0]) {
      EqualsIsVisible();
      TrimStartKeeps(s[1..]);
      TrimCons(s[0], Before(s[1..], '='));
      assert s == [s[0]] + s[1..];
    }
  }

  lemma EqualsIsVisible()
    ensures !IsWhitespace('=')
  {
  }

  lemma BodyHasEquals(raw: string)
    ensures '=' in Body(raw) <==> '=' in raw
  {
    hide IsWhitespace;
    EqualsIsVisible();
    var left, right := TrimIs(raw);
    var line := Trim(raw);
    if "export " <= line {
      assert line == "export " + line[7..];
    }
  }

  // ---- Names ----

  lemma NamesAreKeys(key: string)
    ensures IsValidKey(key) <==> ValidName(key)
  {
    hide UPPER, LOWER, DIGITS;
    forall c: char
      ensures IsKeyStart(c) <==> c in UPPER || c in LOWER || c == '_'
      ensures c in DIGITS <==> '0' <= c <= '9'
    {
      InOrder(c);
    }
    if ValidName(key) {
      forall i | 0 <= i < |key|
        ensures IsKeyChar(key[i])
      {
        assert key[i] in key;
      }
    }
  }

  // ---- Values ----

  lemma {:induction false} CommentBefore(s: string, k: nat)
    requires k <= |s| && (forall j: nat | j < k :: !OccursAt(s, " #", j)) && (k < |s| ==> OccursAt(s, " #", k))
    ensures BeforeComment(s) == s[..k]
  {
    if k == 0 {
      assert s != "" ==> s[..2] == " #";
    } else {
      assert !OccursAt(s, " #", 0);
      var rest := s[1..];
      forall j: nat | j <= |rest|
        ensures OccursAt(rest, " #", j) <==> OccursAt(s, " #", j + 1)
      {
        assert j + 2 <= |rest| ==> rest[j..j + 2] == s[j + 1..j + 3];
      }
      CommentBefore(rest, k - 1);
      assert s[..k] == [s[0]] + rest[..k - 1];
    }
  }

  lemma UnquoteIs(value: string)
    ensures var trimmed := Trim(value);
            Unquote(value) ==
            if |trimmed| >= 2 && trimmed[0] == trimmed[|trimmed| - 1] && (trimmed[0] == '"' || trimmed[0] == '\'')
            then trimmed[1..|trimmed| - 1]
            else Trim(BeforeComment(value))
  {
    hide OccursAt, Trim;
    match Find(value, " #")
    case Some(k) =>
      OccursWithin(value, k);
      CommentBefore(value, k);
    case None =>
      CommentBefore(value, |value|);
      assert value[..|value|] == value;
  }

  lemma OccursWithin(s: string, k: nat)
    requires OccursAt(s, " #", k)
    ensures k < |s|
  {
  }

  // ---- A line by its text ----

  /** What `Classify` makes of a line is what its text says. */
  lemma ClassifyIsTheText(raw: string)
    ensures Classify(raw) ==
            if !Significant(raw) then Skipped
            else if '=' !in raw then NoEquals
            else if !ValidName(KeyText(raw)) then BadKey
            else Setting(KeyText(raw), ValueText(raw))
  {
    hide Find, Trim, TrimStart, Unquote, IsValidKey, ValidName, Before, After, BeforeComment;
    var body := Body(raw);
    BodyHasEquals(raw);
    TrimStartKeeps(body);
    FirstEquals(TrimStart(body));
    NamesAreKeys(KeyText(raw));
    UnquoteIs(After(body, '='));
    assert WithoutExport(Trim(raw)) == TrimStart(body);
  }

  lemma OffencesAgree(lines: seq<string>, i: int)
    requires 0 <= i < |lines|
    ensures Offends(lines, i) <==> IsOffence(lines, i)
    ensures Offends(lines, i) ==> MistakeOf(Classify(lines[i])) == Offence(lines[i])
  {
    hide Classify, Significant, KeyText, ValueText, ValidName;
    ClassifyIsTheText(lines[i]);
    if Classify(lines[i]).Setting? {
      var key := KeyText(lines[i]);
      forall j | 0 <= j < i
        ensures Sets(lines, j, key) <==> SetsKey(lines[j], key)
      {
        ClassifyIsTheText(lines[j]);
      }
    }
  }

  lemma SettingsAgree(values: Settings, lines: seq<string>)
    requires AreSettingsOf(values, lines) && forall i | 0 <= i < |lines| :: !IsOffence(lines, i)
    ensures SetBy(values, lines)
  {
    hide Classify, Significant, KeyText, ValueText, ValidName;
    forall i | 0 <= i < |lines| && Significant(lines[i])
      ensures KeyText(lines[i]) in values && values[KeyText(lines[i])] == ValueText(lines[i])
    {
      assert !IsOffence(lines, i);
      ClassifyIsTheText(lines[i]);
    }
    forall key | key in values
      ensures exists i :: 0 <= i < |lines| && SetsKey(lines[i], key)
    {
      var i :| 0 <= i < |lines| && Sets(lines, i, key);
      ClassifyIsTheText(lines[i]);
      assert SetsKey(lines[i], key);
    }
  }

  /**
   * Parsing succeeds with exactly what the lines set when no line offends; otherwise it names the
   * first line that does and what is wrong with it.
   */
  lemma ParseFailsAtTheFirstOffence(lines: seq<string>)
    ensures ParsedLines(lines).Ok? <==> forall i | 0 <= i < |lines| :: !IsOffence(lines, i)
    ensures ParsedLines(lines).Ok? ==> SetBy(ParsedLines(lines).value, lines)
    ensures ParsedLines(lines).Err? ==>
              var n := ParsedLines(lines).error.number;
              && 1 <= n <= |lines| && IsOffence(lines, n - 1) && (forall i | 0 <= i < n - 1 :: !IsOffence(lines, i))
              && ParsedLines(lines).error.mistake == Offence(lines[n - 1])
  {
    hide ParsedLines, Classify, Offends, IsOffence, AreSettingsOf, SetBy, MistakeOf, Offence;
    ParseStopsAtTheFirstOffence(lines);
    forall i | 0 <= i < |lines|
      ensures Offends(lines, i) <==> IsOffence(lines, i)
      ensures Offends(lines, i) ==> MistakeOf(Classify(lines[i])) == Offence(lines[i])
    {
      OffencesAgree(lines, i);
    }
    if ParsedLines(lines).Ok? {
      SettingsAgree(ParsedLines(lines).value, lines);
    }
  }
}
