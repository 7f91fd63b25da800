/** The installer's `.env` file: quoting, printing and parsing.  The file holds a header and, for each setting, an
    empty line, a comment and an assignment; what is read back depends on how values are quoted. */
module EnvFile {
  import opened Basics
  import opened Text

  /** The characters at which Python's `str.splitlines` breaks a line. */
  predicate IsLineBreak(c: char) {
    || '\n' <= c <= '\r' || '\U{1C}' <= c <= '\U{1E}' || c == '\U{85}' || c == '\U{2028}' || c == '\U{2029}'
  }

  predicate OneLine(s: string) {
    forall i :: 0 <= i < |s| ==> !IsLineBreak(s[i])
  }

  // ---------------------------------------------------------------------------------------------
  // Quoting
  // ---------------------------------------------------------------------------------------------

  /** Line feeds, carriage returns and null characters are dropped from values. */
  function Sanitize(value: string): string {
    if value == "" then ""
    else (if value[0] in ['\n', '\r', '\0'] then "" else [value[0]]) + Sanitize(value[1..])
  }

  /** `s.replace(c, "\\" + c)` for a single character. */
  function Prefixed(s: string, c: char): string {
    if s == "" then "" else (if s[0] == c then ['\\', c] else [s[0]]) + Prefixed(s[1..], c)
  }

  /** `s.replace("\\" + c, c)`: left to right, without overlaps. */
  function Unprefixed(s: string, c: char): string
    decreases |s|
  {
    if s == "" then ""
    else if |s| >= 2 && s[0] == '\\' && s[1] == c then [c] + Unprefixed(s[2..], c)
    else [s[0]] + Unprefixed(s[1..], c)
  }

  function Escape(s: string): string {
    Prefixed(Prefixed(s, '\\'), '"')
  }

  function Unescape(s: string): string {
    Unprefixed(Unprefixed(s, '"'), '\\')
  }

  predicate NeedsQuotes(s: string) {
    (exists i :: 0 <= i < |s| && IsSpace(s[i])) || '#' in s
  }

  function QuoteEnvValue(value: string): string {
    var s := Sanitize(value);
    if NeedsQuotes(s) then "\"" + Escape(s) + "\"" else s
  }

  /** First and last character are the same quotation mark. */
  predicate Wrapped(s: string) {
    |s| >= 2 && s[0] == s[|s| - 1] && s[0] in ['"', '\'']
  }

  function UnquoteEnvValue(value: string): string {
    if Wrapped(value) then
      var inner := value[1..|value| - 1];
      if value[0] == '"' then Unescape(inner) else inner
    else value
  }

  lemma {:induction false} UnprefixedUndoesPrefixed(s: string, c: char)
    ensures Unprefixed(Prefixed(s, c), c) == s
  {
    if s != "" {
      var rest := Prefixed(s[1..], c);
      UnprefixedUndoesPrefixed(s[1..], c);
      if s[0] == c {
        assert Prefixed(s, c)[2..] == rest;
      } else {
        assert Prefixed(s, c)[1..] == rest;
        if rest != "" && s[0] == '\\' {
          assert c != '\\';
          assert rest[0] != c;
        }
      }
    }
  }

  /** Escaping is undone by unescaping, backslashes before quotation marks included. */
  lemma UnescapeUndoesEscape(s: string)
    ensures Unescape(Escape(s)) == s
  {
    UnprefixedUndoesPrefixed(Prefixed(s, '\\'), '"');
    UnprefixedUndoesPrefixed(s, '\\');
  }

  lemma {:induction false} UnprefixedNotLonger(s: string, c: char)
    ensures |Unprefixed(s, c)| <= |s|
    decreases |s|
  {
    if s != "" {
      UnprefixedNotLonger(s[if |s| >= 2 && s[0] == '\\' && s[1] == c then 2 else 1..], c);
    }
  }

  /** One value survives quoting and unquoting, up to the dropped characters, exactly when it is
      quoted or does not look quoted already. */
  lemma QuoteRoundTripsExactlyWhen(value: string)
    ensures UnquoteEnvValue(QuoteEnvValue(value)) == Sanitize(value)
       <==> NeedsQuotes(Sanitize(value)) || !Wrapped(Sanitize(value))
  {
    var s := Sanitize(value);
    if NeedsQuotes(s) {
      var q := "\"" + Escape(s) + "\"";
      assert q[1..|q| - 1] == Escape(s);
      UnescapeUndoesEscape(s);
    } else if Wrapped(s) {
      var inner := s[1..|s| - 1];
      UnprefixedNotLonger(inner, '"');
      UnprefixedNotLonger(Unprefixed(inner, '"'), '\\');
      assert |UnquoteEnvValue(s)| < |s|;
    }
  }

  // ---------------------------------------------------------------------------------------------
  // Printing and parsing
  // ---------------------------------------------------------------------------------------------

  datatype Setting = Setting(key: string, comment: string)

  function LineLength(s: string): (k: nat)
    ensures k <= |s| && OneLine(s[..k]) && (k < |s| ==> IsLineBreak(s[k]))
  {
    if s == "" || IsLineBreak(s[0]) then 0 else 1 + LineLength(s[1..])
  }

  /** `text.splitlines()` */
  function SplitLines(s: string): seq<string>
    decreases |s|
  {
    if s == "" then []
    else
      var k := LineLength(s);
      if k == |s| then [s]
      else
        var width := if s[k] == '\r' && k + 1 < |s| && s[k + 1] == '\n' then 2 else 1;
        [s[..k]] + SplitLines(s[k + width..])
  }

  /** `"\n".join(lines)` */
  function JoinLines(lines: seq<string>): string {
    if |lines| == 0 then "" else if |lines| == 1 then lines[0] else lines[0] + "\n" + JoinLines(lines[1..])
  }

  function ReadValue(raw: string): string {
    UnquoteEnvValue(Strip(raw))
  }

  function ParseLine(line: string): Option<(string, string)> {
    var stripped := Strip(line);
    var k := IndexOf(line, '=');
    if stripped == "" || stripped[0] == '#' || k == |line| then None
    else Some((Strip(line[..k]), ReadValue(line[k + 1..])))
  }

  type Parser = string -> Option<(string, string)>

  /** The assignments of the lines, later ones winning. */
  function LoadWith(parse: Parser, lines: seq<string>): map<string, string> {
    if |lines| == 0 then map[]
    else
      var m := LoadWith(parse, lines[..|lines| - 1]);
      match parse(lines[|lines| - 1])
      case None => m
      case Some((k, v)) => m[k := v]
  }

  function Load(text: string): map<string, string> {
    LoadWith(ParseLine, SplitLines(text))
  }

  function Lines(header: string, settings: seq<Setting>, values: map<string, string>): seq<string> {
    if |settings| == 0 then [header, ""]
    else
      var before := Lines(header, settings[..|settings| - 1], values);
      var s := settings[|settings| - 1];
      if s.key !in values then before
      else before + ["# " + s.comment, s.key + "=" + QuoteEnvValue(values[s.key]), ""]
  }

  function Write(header: string, settings: seq<Setting>, values: map<string, string>): string {
    StripRight(JoinLines(Lines(header, settings, values))) + "\n"
  }

  lemma LoadNext(parse: Parser, lines: seq<string>, i: nat)
    requires i < |lines|
    ensures parse(lines[i]).None? ==> LoadWith(parse, lines[..i + 1]) == LoadWith(parse, lines[..i])
    ensures parse(lines[i]).Some? ==>
              var (key, value) := parse(lines[i]).value;
              LoadWith(parse, lines[..i + 1]) == LoadWith(parse, lines[..i])[key := value]
  {
    assert lines[..i + 1][..i] == lines[..i];
  }

  method LoadEnvFile(file: Option<string>) returns (m: map<string, string>)
    ensures m == if file.None? then map[] else Load(file.value)
  {
    if file.None? {
      return map[];
    }
    var lines := SplitLines(file.value);
    m := map[];
    for i := 0 to |lines|
      invariant m == LoadWith(ParseLine, lines[..i])
    {
      var rawLine := lines[i];
      LoadNext(ParseLine, lines, i);
      var stripped := Strip(rawLine);
      if stripped == "" || stripped[0] == '#' || IndexOf(rawLine, '=') == |rawLine| {
        continue;
      }
      var k := IndexOf(rawLine, '=');
      m := m[Strip(rawLine[..k]) := UnquoteEnvValue(Strip(rawLine[k + 1..]))];
    }
    assert lines[..|lines|] == lines;
  }

  method WriteEnvFile(header: string, settings: seq<Setting>, values: map<string, string>) returns (text: string)
    ensures text == Write(header, settings, values)
  {
    var lines := [header, ""];
    for i := 0 to |settings|
      invariant lines == Lines(header, settings[..i], values)
    {
      assert settings[..i + 1][..i] == settings[..i];
      var key := settings[i].key;
      if key !in values {
        continue;
      }
      lines := lines + ["# " + settings[i].comment];
      lines := lines + [key + "=" + QuoteEnvValue(values[key])];
      lines := lines + [""];
    }
    assert settings[..|settings|] == settings;
    text := StripRight(JoinLines(lines)) + "\n";
  }

  // ---------------------------------------------------------------------------------------------
  // The round trip
  // ---------------------------------------------------------------------------------------------

  predicate KeyCharacters(s: string) {
    forall i :: 0 <= i < |s| ==> 'A' <= s[i] <= 'Z' || s[i] == '_'
  }

  /** What the fixed list of settings and the header line satisfy. */
  predicate Printable(header: string, settings: seq<Setting>) {
    && |header| > 0 && header[0] == '#' && OneLine(header) && !IsSpace(header[|header| - 1])
    && (forall i :: 0 <= i < |settings| ==>
          |settings[i].key| > 0 && KeyCharacters(settings[i].key) && OneLine(settings[i].comment))
  }

  predicate Listed(settings: seq<Setting>, key: string) {
    exists i :: 0 <= i < |settings| && settings[i].key == key
  }

  /** No written value contains an exotic line separator; ordinary ones are dropped anyway. */
  predicate AllOneLine(settings: seq<Setting>, values: map<string, string>) {
    forall key :: key in values && Listed(settings, key) ==> OneLine(Sanitize(values[key]))
  }

  lemma {:induction false} PrefixedOneLine(s: string, c: char)
    requires OneLine(s) && !IsLineBreak(c)
    ensures OneLine(Prefixed(s, c))
  {
    if s != "" {
      PrefixedOneLine(s[1..], c);
    }
  }

  lemma QuotedShape(value: string)
    ensures var q := QuoteEnvValue(value);
            && Strip(q) == q
            && (OneLine(Sanitize(value)) ==> OneLine(q))
            && (q == "" || LineEnd(q))
  {
    var s, q := Sanitize(value), QuoteEnvValue(value);
    if q != "" {
      assert !IsSpace(q[0]) && !IsSpace(q[|q| - 1]);
    }
    if OneLine(s) && NeedsQuotes(s) {
      PrefixedOneLine(s, '\\');
      PrefixedOneLine(Prefixed(s, '\\'), '"');
    }
  }

  lemma {:induction false} LineLengthIs(line: string, rest: string)
    requires OneLine(line) && (rest == "" || IsLineBreak(rest[0]))
    ensures LineLength(line + rest) == |line|
  {
    if line == "" {
      assert line + rest == rest;
    } else {
      assert (line + rest)[1..] == line[1..] + rest;
      LineLengthIs(line[1..], rest);
    }
  }

  lemma SplitFirstLine(line: string, rest: string)
    requires OneLine(line)
    ensures SplitLines(line + ("\n" + rest)) == [line] + SplitLines(rest)
  {
    var text := line + ("\n" + rest);
    LineLengthIs(line, "\n" + rest);
    assert text[|line|] == '\n' && text[..|line|] == line && text[|line| + 1..] == rest;
  }

  /** Lines without line breaks come back from the joined text. */
  lemma {:induction false} SplitLinesUndoesJoin(lines: seq<string>)
    requires |lines| > 0 && forall i :: 0 <= i < |lines| ==> OneLine(lines[i])
    ensures SplitLines(JoinLines(lines) + "\n") == lines
  {
    if |lines| == 1 {
      SplitFirstLine(lines[0], "");
      assert "\n" + "" == "\n";
    } else {
      SplitLinesUndoesJoin(lines[1..]);
      SplitFirstLine(lines[0], JoinLines(lines[1..]) + "\n");
      JoinFirst(lines);
      assert lines == [lines[0]] + lines[1..];
    }
  }

  lemma JoinFirst(lines: seq<string>)
    requires |lines| > 1
    ensures JoinLines(lines) + "\n" == lines[0] + ("\n" + (JoinLines(lines[1..]) + "\n"))
  { }

  lemma {:induction false} JoinEndsWithLast(lines: seq<string>)
    requires |lines| > 0
    ensures var last, text := lines[|lines| - 1], JoinLines(lines);
            |last| > 0 ==> |text| > 0 && text[|text| - 1] == last[|last| - 1]
    ensures JoinLines(lines + [""]) == JoinLines(lines) + "\n"
  {
    if |lines| == 1 {
      assert (lines + [""])[1..] == [""];
    } else {
      JoinEndsWithLast(lines[1..]);
      assert (lines + [""])[1..] == lines[1..] + [""];
    }
  }

  /** The written text is the lines without the final blank one, each ended by a line feed. */
  lemma WrittenText(lines: seq<string>)
    requires |lines| > 0 && LineEnd(lines[|lines| - 1])
    ensures StripRight(JoinLines(lines + [""])) == JoinLines(lines)
  {
    JoinEndsWithLast(lines);
    var text := JoinLines(lines);
    assert (text + "\n")[..|text|] == text;
  }

  /** What reloading yields when every line is read as it was written. */
  function Reloaded(settings: seq<Setting>, values: map<string, string>): map<string, string> {
    map key | key in values && Listed(settings, key) :: UnquoteEnvValue(QuoteEnvValue(values[key]))
  }

  lemma CommentIsSkipped(s: string)
    requires |s| > 0 && s[0] == '#'
    ensures ParseLine(s) == None
  {
    assert StripLeft(s) == s;
    StripRightKeepsStart(s);
  }

  lemma {:induction false} StripRightKeepsStart(s: string)
    requires |s| > 0 && !IsSpace(s[0])
    ensures |StripRight(s)| > 0 && StripRight(s)[0] == s[0]
  {
    if IsSpace(s[|s| - 1]) {
      StripRightKeepsStart(s[..|s| - 1]);
    }
  }

  lemma AssignmentIsParsed(key: string, value: string)
    requires |key| > 0 && KeyCharacters(key)
    ensures ParseLine(key + "=" + QuoteEnvValue(value)) == Some((key, UnquoteEnvValue(QuoteEnvValue(value))))
  {
    var q := QuoteEnvValue(value);
    var line := key + "=" + q;
    assert line[0] == key[0] && StripLeft(line) == line;
    StripRightKeepsStart(line);
    assert Strip(line)[0] == key[0] != '#';
    IndexOfIs(key, "=" + q, '=');
    assert line == key + ("=" + q);
    assert line[..|key|] == key && line[|key| + 1..] == q;
    assert Strip(key) == key;
    QuotedShape(value);
  }

  lemma LoadSnoc(parse: Parser, lines: seq<string>, line: string)
    ensures LoadWith(parse, lines + [line])
         == match parse(line)
            case None => LoadWith(parse, lines)
            case Some((k, v)) => LoadWith(parse, lines)[k := v]
  {
    assert (lines + [line])[..|lines|] == lines;
  }

  /** All lines but the final blank one, and what they are. */
  lemma {:induction false} LinesAreWellFormed(header: string, settings: seq<Setting>, values: map<string, string>)
    returns (body: seq<string>)
    requires Printable(header, settings) && AllOneLine(settings, values)
    ensures Lines(header, settings, values) == body + [""] && WellFormedBody(body)
    ensures LoadWith(ParseLine, body) == Reloaded(settings, values)
  {
    if |settings| == 0 {
      body := HeaderIsWellFormed(header, values);
    } else {
      var front, s := settings[..|settings| - 1], settings[|settings| - 1];
      assert settings == front + [s];
      ListedMore(front, s);
      var before := LinesAreWellFormed(header, front, values);
      ReloadedMore(front, s, values);
      if s.key !in values {
        body := before;
      } else {
        body := AddBlock(before, s, values[s.key]);
        LinesSnoc(header, front, s, values);
      }
    }
  }

  lemma HeaderIsWellFormed(header: string, values: map<string, string>) returns (body: seq<string>)
    requires Printable(header, [])
    ensures Lines(header, [], values) == body + [""] && WellFormedBody(body)
    ensures LoadWith(ParseLine, body) == Reloaded([], values)
  {
    body := [header];
    CommentIsSkipped(header);
    LoadSnoc(ParseLine, [], header);
    assert [] + [header] == body;
  }

  lemma ReloadedMore(front: seq<Setting>, s: Setting, values: map<string, string>)
    ensures Reloaded(front + [s], values)
         == if s.key !in values then Reloaded(front, values)
            else Reloaded(front, values)[s.key := UnquoteEnvValue(QuoteEnvValue(values[s.key]))]
  {
    ListedMore(front, s);
  }

  lemma LinesSnoc(header: string, front: seq<Setting>, s: Setting, values: map<string, string>)
    requires s.key in values
    ensures Lines(header, front + [s], values)
         == Lines(header, front, values) + ["# " + s.comment, s.key + "=" + QuoteEnvValue(values[s.key]), ""]
  {
    assert (front + [s])[..|front|] == front;
  }

  predicate WellFormedBody(body: seq<string>) {
    && |body| > 0 && (forall i :: 0 <= i < |body| ==> OneLine(body[i]))
    && LineEnd(body[|body| - 1])
  }

  lemma BlockLoads(parse: Parser, before: seq<string>, b: string, c: string, a: string, key: string, value: string)
    requires parse(b) == None && parse(c) == None && parse(a) == Some((key, value))
    ensures LoadWith(parse, before + [b] + [c] + [a]) == LoadWith(parse, before)[key := value]
  {
    LoadSnoc(parse, before, b);
    LoadSnoc(parse, before + [b], c);
    LoadSnoc(parse, before + [b] + [c], a);
  }

  lemma AddLines(parse: Parser, before: seq<string>, b: string, c: string, a: string, key: string, value: string)
    returns (body: seq<string>)
    requires parse(b) == None && parse(c) == None && parse(a) == Some((key, value))
    requires WellFormedBody(before) && OneLine(b) && OneLine(c) && OneLine(a) && LineEnd(a)
    ensures body + [""] == before + [b] + [c, a, ""] && WellFormedBody(body)
    ensures LoadWith(parse, body) == LoadWith(parse, before)[key := value]
  {
    body := before + [b] + [c] + [a];
    BlockLoads(parse, before, b, c, a, key, value);
    WellFormedMore(before, b, c, a);
  }

  lemma AddBlock(before: seq<string>, s: Setting, value: string) returns (body: seq<string>)
    requires WellFormedBody(before)
    requires |s.key| > 0 && KeyCharacters(s.key) && OneLine(s.comment) && OneLine(Sanitize(value))
    ensures body + [""] == before + [""] + ["# " + s.comment, s.key + "=" + QuoteEnvValue(value), ""]
    ensures WellFormedBody(body)
    ensures LoadWith(ParseLine, body) == LoadWith(ParseLine, before)[s.key := UnquoteEnvValue(QuoteEnvValue(value))]
  {
    BlankIsSkipped();
    CommentIsSkipped("# " + s.comment);
    AssignmentIsParsed(s.key, value);
    AssignmentShape(s.key, value);
    body := AddLines(ParseLine, before, "", "# " + s.comment, s.key + "=" + QuoteEnvValue(value),
                     s.key, UnquoteEnvValue(QuoteEnvValue(value)));
  }

  lemma WellFormedMore(before: seq<string>, b: string, c: string, a: string)
    requires WellFormedBody(before) && OneLine(b) && OneLine(c) && OneLine(a) && LineEnd(a)
    ensures WellFormedBody(before + [b] + [c] + [a])
  { }

  lemma BlankIsSkipped()
    ensures ParseLine("") == None
  { }

  predicate LineEnd(a: string) {
    |a| > 0 && !IsSpace(a[|a| - 1])
  }

  lemma AppendedShape(start: string, q: string)
    requires OneLine(start) && OneLine(q) && LineEnd(start) && (q == "" || LineEnd(q))
    ensures OneLine(start + q) && LineEnd(start + q)
  {
    assert (start + q)[|start + q| - 1] == if q == "" then start[|start| - 1] else q[|q| - 1];
  }

  lemma KeyShape(key: string)
    requires KeyCharacters(key)
    ensures OneLine(key + "=") && LineEnd(key + "=")
  { }

  lemma AssignmentShape(key: string, value: string)
    requires KeyCharacters(key) && OneLine(Sanitize(value))
    ensures OneLine(key + "=" + QuoteEnvValue(value)) && LineEnd(key + "=" + QuoteEnvValue(value))
  {
    QuotedShape(value);
    KeyShape(key);
    AppendedShape(key + "=", QuoteEnvValue(value));
  }

  lemma ListedMore(front: seq<Setting>, s: Setting)
    ensures forall key :: Listed(front + [s], key) <==> Listed(front, key) || key == s.key
  {
    forall key ensures Listed(front + [s], key) <==> Listed(front, key) || key == s.key {
      if Listed(front, key) {
        var i :| 0 <= i < |front| && front[i].key == key;
        assert (front + [s])[i].key == key;
      }
      if key == s.key {
        assert (front + [s])[|front|].key == key;
      }
    }
  }

  /** With no exotic line separators every line is read as it was written. */
  lemma LoadOfWritten(header: string, settings: seq<Setting>, values: map<string, string>)
    requires Printable(header, settings) && AllOneLine(settings, values)
    ensures Load(Write(header, settings, values)) == Reloaded(settings, values)
  {
    var body := LinesAreWellFormed(header, settings, values);
    WrittenText(body);
    SplitLinesUndoesJoin(body);
  }

  /** What the file is meant to hold: every listed key with its value, unwanted characters dropped. */
  function Intended(settings: seq<Setting>, values: map<string, string>): map<string, string> {
    map key | key in values && Listed(settings, key) :: Sanitize(values[key])
  }

  predicate Survives(value: string) {
    var s := Sanitize(value);
    OneLine(s) && (NeedsQuotes(s) || !Wrapped(s))
  }

  lemma {:induction false} UnprefixedOneLine(s: string, c: char)
    requires OneLine(s)
    ensures OneLine(Unprefixed(s, c))
    decreases |s|
  {
    if s != "" {
      if |s| >= 2 && s[0] == '\\' && s[1] == c { UnprefixedOneLine(s[2..], c); } else { UnprefixedOneLine(s[1..], c); }
    }
  }

  lemma {:induction false} SplitLinesAreOneLine(s: string)
    ensures forall i :: 0 <= i < |SplitLines(s)| ==> OneLine(SplitLines(s)[i])
    decreases |s|
  {
    if s != "" && LineLength(s) < |s| {
      var k := LineLength(s);
      SplitLinesAreOneLine(s[k + (if s[k] == '\r' && k + 1 < |s| && s[k + 1] == '\n' then 2 else 1)..]);
    }
  }

  lemma {:induction false} StripRightIsPrefix(s: string)
    ensures StripRight(s) <= s
  {
    if s != "" && IsSpace(s[|s| - 1]) {
      StripRightIsPrefix(s[..|s| - 1]);
    }
  }

  lemma StrippedIsOneLine(s: string)
    requires OneLine(s)
    ensures OneLine(Strip(s))
  {
    StripRightIsPrefix(StripLeft(s));
  }

  lemma UnquotedIsOneLine(value: string)
    requires OneLine(value)
    ensures OneLine(UnquoteEnvValue(value))
  {
    if Wrapped(value) {
      var inner := value[1..|value| - 1];
      UnprefixedOneLine(inner, '"');
      UnprefixedOneLine(Unprefixed(inner, '"'), '\\');
    }
  }

  lemma TailIsOneLine(line: string, k: nat)
    requires OneLine(line) && k <= |line|
    ensures OneLine(line[k..])
  { }

  lemma ReadValueIsOneLine(raw: string)
    requires OneLine(raw)
    ensures OneLine(ReadValue(raw))
  {
    StrippedIsOneLine(raw);
    UnquotedIsOneLine(Strip(raw));
  }

  lemma ParsedValueIs(line: string)
    ensures ParseLine(line).Some? ==>
              IndexOf(line, '=') < |line| && ParseLine(line).value.1 == ReadValue(line[IndexOf(line, '=') + 1..])
  { }

  lemma ParsedValueIsOneLine(line: string)
    requires OneLine(line) && ParseLine(line).Some?
    ensures OneLine(ParseLine(line).value.1)
  {
    ParsedValueIs(line);
    TailIsOneLine(line, IndexOf(line, '=') + 1);
    ReadValueIsOneLine(line[IndexOf(line, '=') + 1..]);
  }

  ghost predicate KeepsLines(parse: Parser) {
    forall line :: OneLine(line) && parse(line).Some? ==> OneLine(parse(line).value.1)
  }

  lemma ParseLineKeepsLines()
    ensures KeepsLines(ParseLine)
  {
    forall line | OneLine(line) && ParseLine(line).Some? ensures OneLine(ParseLine(line).value.1) {
      ParsedValueIsOneLine(line);
    }
  }

  lemma {:induction false} LoadedValuesAreOneLine(parse: Parser, lines: seq<string>, key: string)
    requires KeepsLines(parse) && forall i :: 0 <= i < |lines| ==> OneLine(lines[i])
    requires key in LoadWith(parse, lines)
    ensures OneLine(LoadWith(parse, lines)[key])
  {
    var n := |lines| - 1;
    assert OneLine(lines[n]);
    if key in LoadWith(parse, lines[..n]) {
      LoadedValuesAreOneLine(parse, lines[..n], key);
    }
  }

  /** The round trip of the whole file.  Loading what was written gives back every listed key with its
      value exactly when each value is free of exotic line separators and does not look quoted without
      being quoted. */
  lemma RoundTripExactlyWhen(header: string, settings: seq<Setting>, values: map<string, string>)
    requires Printable(header, settings)
    ensures Load(Write(header, settings, values)) == Intended(settings, values)
       <==> forall key :: key in values && Listed(settings, key) ==> Survives(values[key])
  {
    var loaded := Load(Write(header, settings, values));
    if AllOneLine(settings, values) {
      LoadOfWritten(header, settings, values);
      forall key | key in values && Listed(settings, key)
        ensures loaded[key] == Intended(settings, values)[key] <==> Survives(values[key])
      {
        QuoteRoundTripsExactlyWhen(values[key]);
      }
    } else {
      var key :| key in values && Listed(settings, key) && !OneLine(Sanitize(values[key]));
      if key in loaded {
        var lines := SplitLines(Write(header, settings, values));
        SplitLinesAreOneLine(Write(header, settings, values));
        ParseLineKeepsLines();
        LoadedValuesAreOneLine(ParseLine, lines, key);
      }
      assert key in Intended(settings, values);
    }
  }

  // ---------------------------------------------------------------------------------------------
  // Values, lines and the file, character by character
  // ---------------------------------------------------------------------------------------------

  /** Sanitizing drops line feeds, carriage returns and null characters, and keeps every other character. */
  lemma {:induction false} SanitizeIs(a: string, b: string, c: char)
    ensures Sanitize(a + b) == Sanitize(a) + Sanitize(b)
    ensures Sanitize([c]) == if c == '\n' || c == '\r' || c == '\0' then "" else [c]
  {
    if a == "" {
      assert a + b == b;
    } else {
      assert (a + b)[1..] == a[1..] + b;
      SanitizeIs(a[1..], b, c);
    }
  }

  lemma {:induction false} PrefixedConcat(a: string, b: string, c: char)
    ensures Prefixed(a + b, c) == Prefixed(a, c) + Prefixed(b, c)
  {
    if a == "" {
      assert a + b == b;
    } else {
      assert (a + b)[1..] == a[1..] + b;
      PrefixedConcat(a[1..], b, c);
    }
  }

  /** Escaping puts a backslash before every backslash and quotation mark, and keeps every other character. */
  lemma EscapeIs(a: string, b: string, c: char)
    ensures Escape(a + b) == Escape(a) + Escape(b)
    ensures Escape("") == ""
    ensures Escape([c]) == if c == '\\' || c == '"' then ['\\', c] else [c]
  {
    PrefixedConcat(a, b, '\\');
    PrefixedConcat(Prefixed(a, '\\'), Prefixed(b, '\\'), '"');
    EscapeOne(c);
  }

  lemma PrefixedOne(c: char, d: char)
    ensures Prefixed([c], d) == if c == d then ['\\', c] else [c]
  {
    assert [c][1..] == "" && Prefixed("", d) == "";
  }

  lemma EscapeOne(c: char)
    ensures Escape([c]) == if c == '\\' || c == '"' then ['\\', c] else [c]
  {
    PrefixedOne(c, '\\');
    PrefixedOne(c, '"');
    if c == '\\' {
      PrefixedConcat([c], [c], '"');
      assert ['\\', c] == [c] + [c];
    }
  }

  /** A value is written in quotation marks exactly when it holds whitespace or a hash. */
  lemma WrittenForm(value: string)
    requires '\n' !in value && '\r' !in value && '\0' !in value
    ensures (exists i :: 0 <= i < |value| && (IsSpace(value[i]) || value[i] == '#')) ==>
              QuoteEnvValue(value) == "\"" + Escape(value) + "\""
    ensures (forall i :: 0 <= i < |value| ==> !IsSpace(value[i]) && value[i] != '#') ==> QuoteEnvValue(value) == value
  {
    CleanIsKept(value);
  }

  lemma {:induction false} CleanIsKept(value: string)
    requires '\n' !in value && '\r' !in value && '\0' !in value
    ensures Sanitize(value) == value
  {
    if value != "" {
      assert value[0] in value && forall c :: c in value[1..] ==> c in value;
      CleanIsKept(value[1..]);
    }
  }

  /** Reading takes off quotation marks of either kind, and escapes only inside double ones. */
  lemma ReadForm(v: string)
    ensures UnquoteEnvValue("'" + v + "'") == v
    ensures UnquoteEnvValue("\"" + Escape(v) + "\"") == v
    ensures v == "" || v[0] !in ['"', '\''] ==> UnquoteEnvValue(v) == v
  {
    var single, double := "'" + v + "'", "\"" + Escape(v) + "\"";
    assert single[1..|single| - 1] == v;
    assert double[1..|double| - 1] == Escape(v);
    UnescapeUndoesEscape(v);
  }

  predicate AllSpaces(s: string) {
    forall i :: 0 <= i < |s| ==> IsSpace(s[i])
  }

  /** No whitespace at either end. */
  predicate Trimmed(s: string) {
    s == "" || (!IsSpace(s[0]) && !IsSpace(s[|s| - 1]))
  }

  lemma {:induction false} StripOfSpaces(s: string)
    requires AllSpaces(s)
    ensures StripLeft(s) == "" && Strip(s) == ""
  {
    if s != "" {
      StripOfSpaces(s[1..]);
    }
  }

  lemma StripAround(left: string, s: string, right: string)
    requires AllSpaces(left) && AllSpaces(right) && Trimmed(s)
    ensures Strip(left + s + right) == s
  {
    if s == "" {
      StripOfSpaces(left + s + right);
    } else {
      StripTakesSpacesOff(left, s, right);
    }
  }

  lemma ParsedParts(line: string, before: string, after: string)
    requires line == before + ("=" + after) && '=' !in before
    requires Strip(line) != "" && Strip(line)[0] != '#'
    ensures ParseLine(line) == Some((Strip(before), UnquoteEnvValue(Strip(after))))
  {
    IndexOfIs(before, "=" + after, '=');
    assert line[..|before|] == before && line[|before| + 1..] == after;
  }

  lemma FirstVisible(l: string, rest: string)
    requires AllSpaces(l) && rest != "" && !IsSpace(rest[0])
    ensures Strip(l + rest) != "" && Strip(l + rest)[0] == rest[0]
  {
    StripLeftTakesSpacesOff(l, rest);
    StripRightKeepsStart(rest);
  }

  /** An assignment may have whitespace around key and value; the value may hold further equals signs. */
  lemma AssignmentWithSpaces(l: string, key: string, m: string, n: string, value: string, r: string)
    requires AllSpaces(l) && AllSpaces(m) && AllSpaces(n) && AllSpaces(r) && Trimmed(key) && Trimmed(value)
    requires key != "" && key[0] != '#' && '=' !in key && '=' !in l && '=' !in m
    ensures ParseLine((l + key + m) + ("=" + (n + value + r))) == Some((key, UnquoteEnvValue(value)))
  {
    var before, after := l + key + m, n + value + r;
    var line := before + ("=" + after);
    assert Strip(line) != "" && Strip(line)[0] != '#' by {
      var rest := key + m + ("=" + after);
      assert line == l + rest && rest[0] == key[0];
      FirstVisible(l, rest);
    }
    assert Strip(before) == key by { StripAround(l, key, m); }
    assert Strip(after) == value by { StripAround(n, value, r); }
    ParsedParts(line, before, after);
  }

  /** Blank lines, comments and lines without an equals sign are skipped. */
  lemma SkippedLines(line: string)
    requires AllSpaces(line) || '=' !in line
          || exists l, c :: AllSpaces(l) && line == l + ("#" + c)
    ensures ParseLine(line) == None
  {
    if AllSpaces(line) {
      StripOfSpaces(line);
    } else if '=' !in line {
      IndexOfIs(line, "", '=');
      assert line + "" == line;
    } else {
      var l, c :| AllSpaces(l) && line == l + ("#" + c);
      StripLeftTakesSpacesOff(l, "#" + c);
      StripRightKeepsStart("#" + c);
    }
  }

  /** Lines count from the first to the last: a later assignment to the same key wins. */
  lemma LaterLinesWin(lines: seq<string>, line: string)
    ensures LoadWith(ParseLine, []) == map[]
    ensures ParseLine(line) == None ==> LoadWith(ParseLine, lines + [line]) == LoadWith(ParseLine, lines)
    ensures forall key, v :: ParseLine(line) == Some((key, v)) ==>
              LoadWith(ParseLine, lines + [line]) == LoadWith(ParseLine, lines)[key := v]
  {
    LoadSnoc(ParseLine, lines, line);
  }

  lemma {:induction false} JoinLinesSnoc(lines: seq<string>, line: string)
    requires |lines| > 0
    ensures JoinLines(lines + [line]) == JoinLines(lines) + "\n" + line
  {
    if |lines| == 1 {
      assert (lines + [line])[1..] == [line];
    } else {
      assert (lines + [line])[1..] == lines[1..] + [line];
      JoinLinesSnoc(lines[1..], line);
    }
  }

  predicate EndsInBlank(lines: seq<string>) {
    |lines| > 1 && lines[|lines| - 1] == "" && LineEnd(lines[|lines| - 2])
  }

  lemma {:induction false} LinesEndInBlank(header: string, settings: seq<Setting>, values: map<string, string>)
    requires Printable(header, settings)
    ensures EndsInBlank(Lines(header, settings, values))
  {
    if |settings| > 0 {
      var front, s := settings[..|settings| - 1], settings[|settings| - 1];
      assert settings == front + [s];
      LinesEndInBlank(header, front, values);
      if s.key in values {
        AssignmentEnds(s.key, values[s.key]);
        LinesSnoc(header, front, s, values);
      }
    }
  }

  lemma AssignmentEnds(key: string, value: string)
    requires KeyCharacters(key)
    ensures LineEnd(key + "=" + QuoteEnvValue(value))
  {
    QuotedShape(value);
    KeyShape(key);
    var start, q := key + "=", QuoteEnvValue(value);
    assert (start + q)[|start + q| - 1] == if q == "" then start[|start| - 1] else q[|q| - 1];
  }

  lemma WriteOf(header: string, settings: seq<Setting>, values: map<string, string>)
    requires Printable(header, settings)
    ensures var lines := Lines(header, settings, values);
            |lines| > 0 && Write(header, settings, values) == JoinLines(lines[..|lines| - 1]) + "\n"
  {
    var lines := Lines(header, settings, values);
    LinesEndInBlank(header, settings, values);
    assert lines == lines[..|lines| - 1] + [""];
    WrittenText(lines[..|lines| - 1]);
  }

  /** The text of the file: the header, and for each setting that has a value, in order, an empty line, the
      comment and the assignment. */
  lemma FileTextIs(header: string, front: seq<Setting>, s: Setting, values: map<string, string>)
    requires Printable(header, front + [s])
    ensures Write(header, [], values) == header + "\n"
    ensures Write(header, front + [s], values)
         == if s.key !in values then Write(header, front, values)
            else Write(header, front, values)
                 + "\n# " + s.comment + "\n" + s.key + "=" + QuoteEnvValue(values[s.key]) + "\n"
  {
    PrintableFront(header, front, s);
    HeaderText(header, values);
    if s.key in values {
      SettingText(header, front, s, values);
    } else {
      assert (front + [s])[..|front|] == front;
    }
  }

  lemma HeaderText(header: string, values: map<string, string>)
    requires Printable(header, [])
    ensures Write(header, [], values) == header + "\n"
  {
    WriteOf(header, [], values);
    assert [header, ""][..1] == [header];
  }

  lemma SettingText(header: string, front: seq<Setting>, s: Setting, values: map<string, string>)
    requires Printable(header, front + [s]) && Printable(header, front) && s.key in values
    ensures Write(header, front + [s], values)
         == Write(header, front, values)
            + "\n# " + s.comment + "\n" + s.key + "=" + QuoteEnvValue(values[s.key]) + "\n"
  {
    var lines, assignment := Lines(header, front, values), s.key + "=" + QuoteEnvValue(values[s.key]);
    WriteOf(header, front, values);
    WriteOf(header, front + [s], values);
    LinesSnoc(header, front, s, values);
    LinesEndInBlank(header, front, values);
    BlockText(lines, "# " + s.comment, assignment);
    BlockEnds(JoinLines(lines[..|lines| - 1]), s.comment, s.key, QuoteEnvValue(values[s.key]));
  }

  lemma BlockEnds(start: string, comment: string, key: string, quoted: string)
    ensures start + "\n" + "\n" + ("# " + comment) + "\n" + (key + "=" + quoted) + "\n"
         == (start + "\n") + "\n# " + comment + "\n" + key + "=" + quoted + "\n"
  { }

  lemma PrintableFront(header: string, front: seq<Setting>, s: Setting)
    requires Printable(header, front + [s])
    ensures Printable(header, front) && Printable(header, [])
  {
    assert forall i :: 0 <= i < |front| ==> front[i] == (front + [s])[i];
  }

  lemma BlockText(lines: seq<string>, comment: string, assignment: string)
    requires |lines| > 1 && lines[|lines| - 1] == ""
    ensures JoinLines((lines + [comment, assignment, ""])[..|lines| + 2])
         == JoinLines(lines[..|lines| - 1]) + "\n" + "\n" + comment + "\n" + assignment
  {
    var body := lines[..|lines| - 1];
    assert (lines + [comment, assignment, ""])[..|lines| + 2] == body + [""] + [comment] + [assignment];
    JoinLinesSnoc(body, "");
    JoinLinesSnoc(body + [""], comment);
    JoinLinesSnoc(body + [""] + [comment], assignment);
    assert JoinLines(body) + "\n" + "" == JoinLines(body) + "\n";
  }
}
