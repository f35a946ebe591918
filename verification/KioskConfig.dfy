/** The kiosk's shell-style configuration file: the writer, the reader, and exactly which
    configurations survive the trip. */
module KioskConfig {
  import opened Prelude
  import opened Assoc
  import opened Text

  type Config = seq<Entry<string>>

  // ----- JavaScript text -----

  /** What `String.prototype.trim` removes. */
  predicate JsSpace(c: char) {
    var n := c as int;
    || 9 <= n <= 13 || n == 32 || n == 0xA0 || n == 0x1680 || 0x2000 <= n <= 0x200A
    || n == 0x2028 || n == 0x2029 || n == 0x202F || n == 0x205F || n == 0x3000 || n == 0xFEFF
  }

  /** JavaScript's blanks are Python's without the separator controls and the next-line character, and with the
      byte-order mark. */
  lemma JsSpaceExactly(c: char)
    ensures JsSpace(c) <==> c as int == 0xFEFF || (IsSpace(c) && c as int != 0x85 && !(28 <= c as int <= 31))
  {
  }

  /** What `.` does not match. */
  predicate Terminator(c: char) {
    c == '\n' || c == '\r' || c as int == 0x2028 || c as int == 0x2029
  }

  function TrimStart(s: string): string {
    if s != [] && JsSpace(s[0]) then TrimStart(s[1..]) else s
  }

  function TrimEnd(s: string): string {
    if s != [] && JsSpace(Last(s)) then TrimEnd(s[..|s| - 1]) else s
  }

  function Trim(s: string): string {
    TrimEnd(TrimStart(s))
  }

  function WithoutCr(s: string): string {
    if s != [] && Last(s) == '\r' then s[..|s| - 1] else s
  }

  /** `split(/\r?\n/)`. */
  function SplitAtNewlines(s: string): seq<string>
    decreases |s|
  {
    var i := IndexOf(s, '\n');
    if i == |s| then [s] else [WithoutCr(s[..i])] + SplitAtNewlines(s[i + 1..])
  }

  predicate Identifier(k: string) {
    k != [] && IdentStart(k[0]) && forall c :: c in k ==> IdentChar(c)
  }

  // ----- writing -----

  predicate BareChar(c: char) {
    IdentChar(c) || c == '.' || c == '/' || c == ':' || c == '-'
  }

  function EscapeChar(c: char): string {
    if c == '\\' then ['\\', '\\'] else if c == '"' then ['\\', '"'] else [c]
  }

  /** Backslashes and double quotes are doubled or preceded by a backslash. */
  function Escaped(s: string): string {
    if s == [] then [] else EscapeChar(s[0]) + Escaped(s[1..])
  }

  predicate Bare(v: string) {
    forall c :: c in v ==> BareChar(c)
  }

  function ShellQuote(v: string): string {
    if v == [] then "\"\""
    else if Bare(v) then v
    else "\"" + Escaped(v) + "\""
  }

  function ConfigLine(e: Entry<string>): string {
    e.key + "=" + ShellQuote(e.value)
  }

  function ConfigLines(m: Config): seq<string> {
    if m == [] then []
    else if Identifier(m[0].key) then [ConfigLine(m[0])] + ConfigLines(m[1..])
    else ConfigLines(m[1..])
  }

  method SerializeShellConfig(payload: Config) returns (text: string)
    ensures text == Join(ConfigLines(payload)) + "\n"
  {
    var lines: seq<string> := [];
    var i := 0;
    while i < |payload|
      invariant i <= |payload|
      invariant lines + ConfigLines(payload[i..]) == ConfigLines(payload)
    {
      assert payload[i..][0] == payload[i] && payload[i..][1..] == payload[i + 1..];
      if Identifier(payload[i].key) {
        lines := lines + [payload[i].key + "=" + ShellQuote(payload[i].value)];
      }
      i := i + 1;
    }
    assert lines + [] == lines;
    text := Join(lines) + "\n";
  }

  // ----- reading -----

  function Unquoted(v: string): string {
    if Quoted(v, '"') || Quoted(v, '\'') then
      if |v| < 2 then [] else v[1..|v| - 1]
    else v
  }

  /** The assignment a line makes, if it makes one. */
  function ReadLine(raw: string): Option<Entry<string>> {
    var line := Trim(raw);
    var n := IdentLength(line);
    if line == [] || line[0] == '#' || n == 0 || !IdentStart(line[0]) || n == |line| || line[n] != '='
       || exists c :: c in line[n + 1..] && Terminator(c)
    then None
    else Some(Entry(line[..n], Unquoted(Trim(line[n + 1..]))))
  }

  predicate IsProto(k: string) {
    k == "__proto__"
  }

  /** Assigning a string to `__proto__` of a plain object does nothing. */
  function Assign(m: Config, e: Entry<string>): Config {
    if IsProto(e.key) then m else Put(m, e.key, e.value)
  }

  function ReadLines(m: Config, lines: seq<string>): Config
    decreases |lines|
  {
    if lines == [] then m
    else
      var e := ReadLine(lines[0]);
      ReadLines(if e.None? then m else Assign(m, e.value), lines[1..])
  }

  method ParseShellConfig(contents: string) returns (parsed: Config)
    ensures parsed == ReadLines([], SplitAtNewlines(contents))
  {
    hide ReadLine, SplitAtNewlines;
    parsed := [];
    var lines := SplitAtNewlines(contents);
    var i := 0;
    while i < |lines|
      invariant i <= |lines|
      invariant ReadLines(parsed, lines[i..]) == ReadLines([], lines)
    {
      assert lines[i..][0] == lines[i] && lines[i..][1..] == lines[i + 1..];
      var e := ReadLine(lines[i]);
      i := i + 1;
      if e.None? {
        continue;
      }
      parsed := Assign(parsed, e.value);
    }
  }

  /** Reading back what was written. */
  function Trip(m: Config): Config {
    ReadLines([], SplitAtNewlines(Join(ConfigLines(m)) + "\n"))
  }

  // ----- one line -----

  lemma {:induction false} TrimIdle(s: string)
    requires s == [] || (!JsSpace(s[0]) && !JsSpace(Last(s)))
    ensures Trim(s) == s
  {
  }

  predicate NoTerminator(s: string) {
    forall c :: c in s ==> !Terminator(c)
  }

  lemma QuotesAreNoTerminators()
    ensures !Terminator('"') && !Terminator('\\')
  {
  }

  lemma {:induction false} EscapedOneLine(s: string)
    requires NoTerminator(s)
    ensures NoTerminator(Escaped(s))
  {
    if s != [] {
      hide Terminator;
      assert s[0] in s && forall c :: c in s[1..] ==> c in s;
      QuotesAreNoTerminators();
      EscapedOneLine(s[1..]);
    }
  }

  lemma {:induction false} EscapedLength(s: string)
    ensures |Escaped(s)| >= |s|
    ensures ('"' in s || '\\' in s) ==> |Escaped(s)| > |s|
  {
    if s != [] {
      assert s == [s[0]] + s[1..];
      EscapedLength(s[1..]);
    }
  }

  lemma {:induction false} EscapedPlain(s: string)
    requires '"' !in s && '\\' !in s
    ensures Escaped(s) == s
  {
    if s != [] {
      assert s == [s[0]] + s[1..];
      EscapedPlain(s[1..]);
    }
  }

  lemma EscapedProperties(s: string)
    requires NoTerminator(s)
    ensures NoTerminator(Escaped(s))
    ensures Escaped(s) == s <==> '"' !in s && '\\' !in s
  {
    hide Escaped, Terminator;
    EscapedOneLine(s);
    EscapedLength(s);
    if '"' !in s && '\\' !in s { EscapedPlain(s); }
  }

  lemma BareReadsBack(v: string)
    requires v != [] && Bare(v)
    ensures !JsSpace(Last(v)) && !JsSpace(v[0]) && NoTerminator(v) && Unquoted(v) == v && '"' !in v && '\\' !in v
  {
    assert v[0] in v && Last(v) in v;
  }

  lemma QuotedReadsBack(inner: string)
    requires NoTerminator(inner)
    ensures var q := "\"" + inner + "\"";
            !JsSpace(Last(q)) && !JsSpace(q[0]) && NoTerminator(q) && Unquoted(q) == inner
  {
    var q := "\"" + inner + "\"";
    assert q[1..|q| - 1] == inner;
  }

  lemma QuoteReadsBack(v: string)
    requires NoTerminator(v)
    ensures var q := ShellQuote(v);
            && q != [] && !JsSpace(Last(q)) && !JsSpace(q[0]) && NoTerminator(q)
            && Unquoted(q) == Escaped(v)
  {
    hide BareChar, Terminator, JsSpace, Unquoted, Escaped, NoTerminator;
    EscapedOneLine(v);
    if v == [] {
      QuotedReadsBack([]);
      assert "\"" + [] + "\"" == "\"\"";
      EscapedPlain([]);
    } else if Bare(v) {
      BareReadsBack(v);
      EscapedPlain(v);
    } else {
      QuotedReadsBack(Escaped(v));
    }
  }

  lemma IdentLengthOf(k: string, rest: string)
    requires Identifier(k) && (rest == [] || !IdentChar(rest[0]))
    ensures IdentLength(k + rest) == |k|
  {
    var s := k + rest;
    var n := IdentLength(s);
    assert forall i :: 0 <= i < |k| ==> s[i] == k[i] && k[i] in k;
    assert rest != [] ==> s[|k|] == rest[0];
  }

  lemma LineReadsBack(e: Entry<string>)
    requires Identifier(e.key) && NoTerminator(e.value)
    ensures ReadLine(ConfigLine(e)) == Some(Entry(e.key, Escaped(e.value)))
    ensures '\n' !in ConfigLine(e)
  {
    hide ShellQuote, Unquoted, Escaped, Identifier, Trim;
    QuoteReadsBack(e.value);
    var q := ShellQuote(e.value);
    var line := ConfigLine(e);
    IdentifierFacts(e.key);
    assert line == e.key + ("=" + q);
    assert Last(line) == Last(q) && line[0] == e.key[0];
    TrimIdle(line);
    IdentLengthOf(e.key, "=" + q);
    assert line[..|e.key|] == e.key && line[|e.key| + 1..] == q;
    TrimIdle(q);
    assert '\n' !in q by { assert Terminator('\n'); }
  }

  lemma IdentifierFacts(k: string)
    requires Identifier(k)
    ensures k != [] && IdentStart(k[0]) && !JsSpace(k[0]) && k[0] != '#' && '\n' !in k
  {
  }

  /** What a shell makes of the text between double quotes: a backslash stands for the character after it. */
  function Unescaped(s: string): string {
    if s == [] then []
    else if s[0] == '\\' && |s| > 1 then [s[1]] + Unescaped(s[2..])
    else [s[0]] + Unescaped(s[1..])
  }

  /** A shell that reads the written value gets the value, and no quote ends it early. */
  lemma {:induction false} ShellReadsValue(v: string)
    ensures Unescaped(Escaped(v)) == v
    ensures forall i :: 0 <= i < |Escaped(v)| && Escaped(v)[i] == '"' ==> i > 0 && Escaped(v)[i - 1] == '\\'
  {
    if v != [] {
      var rest := Escaped(v[1..]);
      ShellReadsValue(v[1..]);
      assert v == [v[0]] + v[1..];
      var e := Escaped(v);
      if v[0] == '\\' || v[0] == '"' {
        assert e[0] == '\\' && e[1] == v[0] && e[2..] == rest;
        assert forall i :: 2 <= i < |e| ==> e[i] == rest[i - 2];
      } else {
        assert e[0] == v[0] && e[1..] == rest;
        assert forall i :: 1 <= i < |e| ==> e[i] == rest[i - 1];
      }
    }
  }

  /** A value is written without quotes exactly if it is not empty and made of identifier characters and four
      signs. */
  lemma BareExactly(v: string)
    ensures ShellQuote(v) == v <==> v != [] && forall c :: c in v ==> IdentChar(c) || c in "./:-"
  {
    hide Escaped;
    if v != [] && !Bare(v) {
      EscapedLength(v);
      assert |ShellQuote(v)| > |v|;
    }
  }

  // ----- lines written by others -----

  predicate JsBlank(s: string) {
    forall c :: c in s ==> JsSpace(c)
  }

  /** No blanks around the text. */
  predicate Solid(s: string) {
    s == [] || (!JsSpace(s[0]) && !JsSpace(Last(s)))
  }

  lemma {:induction false} TrimStartShape(s: string) returns (n: nat)
    ensures n <= |s| && TrimStart(s) == s[n..] && JsBlank(s[..n]) && (n < |s| ==> !JsSpace(s[n]))
  {
    hide JsSpace;
    if s != [] && JsSpace(s[0]) {
      var m := TrimStartShape(s[1..]);
      n := m + 1;
      assert s[..n] == [s[0]] + s[1..][..m] && s[n..] == s[1..][m..];
    } else {
      n := 0;
    }
  }

  lemma {:induction false} TrimEndShape(s: string) returns (n: nat)
    ensures n <= |s| && TrimEnd(s) == s[..n] && JsBlank(s[n..]) && (n > 0 ==> !JsSpace(s[n - 1]))
  {
    hide JsSpace;
    if s != [] && JsSpace(Last(s)) {
      n := TrimEndShape(s[..|s| - 1]);
      assert s[n..] == s[..|s| - 1][n..] + [Last(s)] && s[..n] == s[..|s| - 1][..n];
    } else {
      n := |s|;
      assert s[..n] == s;
    }
  }

  /** `trim` takes off exactly the blanks around a text. */
  lemma TrimExactly(s: string, core: string)
    ensures Trim(s) == core <==> Solid(core) && exists left, right :: JsAround(s, left, core, right)
  {
    hide JsSpace, TrimStart, TrimEnd;
    var a := TrimStartShape(s);
    var b := TrimEndShape(s[a..]);
    assert s == s[..a] + s[a..][..b] + s[a..][b..];
    assert JsAround(s, s[..a], Trim(s), s[a..][b..]);
    if Solid(core) && exists left, right :: JsAround(s, left, core, right) {
      var left, right :| JsAround(s, left, core, right);
      OneCore(s, left, core, right, s[..a], Trim(s), s[a..][b..]);
    }
  }

  predicate JsAround(s: string, left: string, core: string, right: string) {
    s == left + core + right && JsBlank(left) && JsBlank(right)
  }

  lemma OneCore(s: string, left: string, core: string, right: string, left': string, core': string, right': string)
    requires JsAround(s, left, core, right) && JsAround(s, left', core', right') && Solid(core) && Solid(core')
    ensures core == core'
  {
    hide JsSpace;
    if core != [] && core' != [] {
      Starts(s, left, core, right);
      Starts(s, left', core', right');
      assert |left| == |left'| && |left| + |core| == |left'| + |core'|;
      assert core == s[|left|..|left| + |core|] == core';
    } else if core != [] {
      Starts(s, left, core, right);
    } else if core' != [] {
      Starts(s, left', core', right');
    }
  }

  lemma Starts(s: string, left: string, core: string, right: string)
    requires JsAround(s, left, core, right) && Solid(core) && core != []
    ensures !JsSpace(s[|left|]) && !JsSpace(s[|left| + |core| - 1])
    ensures forall i :: 0 <= i < |left| || |left| + |core| <= i < |s| ==> JsSpace(s[i])
  {
    hide JsSpace;
    assert forall i :: 0 <= i < |left| ==> s[i] == left[i] && left[i] in left;
    var from := |left| + |core|;
    assert forall i :: from <= i < |s| ==> s[i] == right[i - from] && right[i - from] in right;
  }

  /** The text stands for the value: in quotes of either kind, or as it is when it has none. */
  predicate Denotes(written: string, v: string) {
    Quotes(written, v) || (written == v && !Quoted(v, '"') && !Quoted(v, '\''))
  }

  /** The parts of a line that assigns: blanks around the whole, and after the equals sign. */
  predicate Assigns(raw: string, left: string, k: string, gap: string, written: string, right: string) {
    && JsBlank(left) && JsBlank(gap) && JsBlank(right)
    && raw == left + (k + "=" + gap + written) + right
  }

  lemma DenotesExactly(written: string, v: string)
    ensures Denotes(written, v) <==> Unquoted(written) == v
  {
    QuotedExactly(written);
  }

  /** The text of an assigning line, from its parts. */
  lemma LineOfParts(raw: string, left: string, k: string, gap: string, written: string, right: string)
    requires Assigns(raw, left, k, gap, written, right) && Identifier(k) && Solid(written)
    ensures var rest := if written == [] then [] else gap + written;
            Trim(raw) == k + "=" + rest && Trim(rest) == written
  {
    hide JsSpace, Trim, Identifier;
    IdentifierFacts(k);
    EqualsIsNoBlank();
    var rest := if written == [] then [] else gap + written;
    var core, end := k + "=" + rest, if written == [] then gap + right else right;
    assert core[0] == k[0] && Last(core) == if written == [] then '=' else Last(written);
    assert raw == left + core + end;
    assert JsAround(raw, left, core, end);
    TrimExactly(raw, core);
    assert JsAround(rest, if written == [] then [] else gap, written, []);
    TrimExactly(rest, written);
  }

  lemma EqualsIsNoBlank()
    ensures !JsSpace('=')
  {
  }

  lemma PartsOfLine(raw: string, line: string, k: string, rest: string) returns (left: string, gap: string, right: string)
    requires Trim(raw) == line == k + "=" + rest
    ensures Assigns(raw, left, k, gap, Trim(rest), right) && Solid(Trim(rest))
    ensures forall c :: c in gap + Trim(rest) ==> c in rest
  {
    hide JsSpace, Trim;
    TrimExactly(raw, line);
    TrimExactly(rest, Trim(rest));
    var end, more;
    left, end :| JsAround(raw, left, line, end);
    gap, more :| JsAround(rest, gap, Trim(rest), more);
    right := more + end;
    assert raw == left + (k + "=" + gap + Trim(rest)) + right;
  }

  /** A line assigns a value to a key exactly if, blanks aside, it is the key, an equals sign, and the value in
      quotes of either kind or bare, all before any line terminator. */
  lemma ReadLineExactly(raw: string, k: string, v: string)
    ensures ReadLine(raw) == Some(Entry(k, v)) <==>
              && Identifier(k)
              && exists left, gap, written, right ::
                   Assigns(raw, left, k, gap, written, right) && Solid(written) && NoTerminator(gap + written) && Denotes(written, v)
  {
    hide JsSpace, Trim, Terminator, Unquoted, Denotes, Solid, Assigns, IdentStart, IdentChar;
    if ReadLine(raw) == Some(Entry(k, v)) {
      var line := Trim(raw);
      var rest := line[IdentLength(line) + 1..];
      assert line == k + "=" + rest;
      DenotesExactly(Trim(rest), v);
      var left, gap, right := PartsOfLine(raw, line, k, rest);
      assert Assigns(raw, left, k, gap, Trim(rest), right);
    }
    if Identifier(k) && exists left, gap, written, right ::
         Assigns(raw, left, k, gap, written, right) && Solid(written) && NoTerminator(gap + written) && Denotes(written, v)
    {
      var left, gap, written, right :|
        Assigns(raw, left, k, gap, written, right) && Solid(written) && NoTerminator(gap + written) && Denotes(written, v);
      LineOfParts(raw, left, k, gap, written, right);
      DenotesExactly(written, v);
      PartsRead(raw, k, if written == [] then [] else gap + written);
    }
  }

  lemma PartsRead(raw: string, k: string, rest: string)
    requires Identifier(k) && Trim(raw) == k + "=" + rest && NoTerminator(rest)
    ensures ReadLine(raw) == Some(Entry(k, Unquoted(Trim(rest))))
  {
    hide Trim, Terminator, Unquoted;
    var line := k + "=" + rest;
    IdentifierFacts(k);
    assert line == k + ("=" + rest);
    IdentLengthOf(k, "=" + rest);
    assert line[..|k|] == k && line[|k|] == '=' && line[|k| + 1..] == rest;
  }

  // ----- the whole file -----

  lemma SplitFirst(line: string, rest: string)
    requires '\n' !in line && (line == [] || Last(line) != '\r')
    ensures SplitAtNewlines(line + "\n" + rest) == [line] + SplitAtNewlines(rest)
  {
    var s := line + "\n" + rest;
    IndexOfAfter(line, '\n', rest);
    assert s == line + ['\n'] + rest;
    assert s[..|line|] == line && s[|line| + 1..] == rest;
  }

  predicate PlainLine(l: string) {
    '\n' !in l && l != [] && Last(l) != '\r'
  }

  lemma SplitFirstPlain(line: string, rest: string)
    requires PlainLine(line)
    ensures SplitAtNewlines(line + "\n" + rest) == [line] + SplitAtNewlines(rest)
  {
    hide SplitAtNewlines;
    SplitFirst(line, rest);
  }

  lemma {:induction false} SplitJoined(lines: seq<string>)
    requires forall l :: l in lines ==> PlainLine(l)
    ensures SplitAtNewlines(Unlines(lines)) == lines + [[]]
  {
    hide PlainLine, SplitAtNewlines;
    if lines == [] {
      SplitNothing();
      assert lines + [[]] == [[]];
    } else {
      var line, rest := lines[0], lines[1..];
      assert lines == [line] + rest && line in lines;
      assert forall l :: l in rest ==> l in lines;
      SplitJoined(rest);
      SplitFirstPlain(line, Unlines(rest));
      assert [line] + (rest + [[]]) == lines + [[]];
    }
  }

  lemma SplitNothing()
    ensures SplitAtNewlines([]) == [[]]
  {
  }

  lemma {:induction false} ReadLinesAppend(m: Config, a: seq<string>, b: seq<string>)
    ensures ReadLines(m, a + b) == ReadLines(ReadLines(m, a), b)
    decreases |a|
  {
    hide ReadLine;
    if a == [] {
      assert a + b == b;
    } else {
      assert (a + b)[0] == a[0] && (a + b)[1..] == a[1..] + b;
      var e := ReadLine(a[0]);
      ReadLinesAppend(if e.None? then m else Assign(m, e.value), a[1..], b);
    }
  }

  /** What comes back when no value holds a line terminator: escapes are not undone, and `__proto__` is lost. */
  function Echo(m: Config): Config {
    if m == [] then []
    else if IsProto(m[0].key) then Echo(m[1..])
    else [Entry(m[0].key, Escaped(m[0].value))] + Echo(m[1..])
  }

  ghost predicate WritableKeys(m: Config) {
    DistinctKeys(m) && forall i :: 0 <= i < |m| ==> Identifier(m[i].key)
  }

  ghost predicate Lacks(m: Config, k: string) {
    forall i :: 0 <= i < |m| ==> m[i].key != k
  }

  lemma AssignNew(had: Config, e: Entry<string>)
    requires Lacks(had, e.key)
    ensures Assign(had, e) == if IsProto(e.key) then had else had + [e]
    ensures forall k :: Lacks(had, k) && k != e.key ==> Lacks(Assign(had, e), k)
  {
    IndexIs(had, e.key, |had|);
  }

  lemma FirstLine(m: Config, had: Config)
    requires m != [] && Identifier(m[0].key) && NoTerminator(m[0].value)
    ensures ReadLines(had, ConfigLines(m)) ==
            ReadLines(Assign(had, Entry(m[0].key, Escaped(m[0].value))), ConfigLines(m[1..]))
  {
    hide ReadLine, ConfigLine, Identifier, NoTerminator, Escaped, Assign;
    LineReadsBack(m[0]);
    assert ConfigLines(m)[0] == ConfigLine(m[0]) && ConfigLines(m)[1..] == ConfigLines(m[1..]);
  }

  /** What `ReadsEcho` needs of the keys and values still to be read. */
  ghost predicate Unread(m: Config, had: Config) {
    && WritableKeys(m) && ValuesOneLine(m)
    && forall j :: 0 <= j < |m| ==> Lacks(had, m[j].key)
  }

  lemma UnreadStep(m: Config, had: Config, value: string)
    requires m != [] && Unread(m, had)
    ensures Unread(m[1..], Assign(had, Entry(m[0].key, value)))
    ensures Identifier(m[0].key) && NoTerminator(m[0].value) && Lacks(had, m[0].key)
  {
    hide Assign, Identifier, NoTerminator, Lacks, IsProto;
    AssignNew(had, Entry(m[0].key, value));
    forall j | 0 <= j < |m[1..]|
      ensures m[1..][j] == m[j + 1] && Lacks(Assign(had, Entry(m[0].key, value)), m[1..][j].key)
    {
      assert m[j + 1].key != m[0].key && Lacks(had, m[j + 1].key);
    }
  }

  lemma NoLines(had: Config)
    ensures ReadLines(had, ConfigLines([])) == had
  {
  }

  lemma {:induction false} ReadsEcho(m: Config, had: Config)
    requires Unread(m, had)
    ensures ReadLines(had, ConfigLines(m)) == had + Echo(m)
    decreases |m|
  {
    hide Assign, ReadLines, ReadLine, ConfigLines, Identifier, NoTerminator, Escaped, Lacks, IsProto, Unread;
    if m == [] {
      NoLines(had);
      assert had + [] == had;
    } else {
      var e := Entry(m[0].key, Escaped(m[0].value));
      UnreadStep(m, had, Escaped(m[0].value));
      FirstLine(m, had);
      AssignNew(had, e);
      ReadsEcho(m[1..], Assign(had, e));
      assert had + [e] + Echo(m[1..]) == had + ([e] + Echo(m[1..]));
    }
  }

  lemma {:induction false} PlainLines(m: Config)
    requires WritableKeys(m) && forall i :: 0 <= i < |m| ==> NoTerminator(m[i].value)
    ensures forall l :: l in ConfigLines(m) ==> PlainLine(l)
    ensures |ConfigLines(m)| == |m|
  {
    if m != [] {
      hide Identifier, NoTerminator, ConfigLine, PlainLine;
      PlainLines(m[1..]);
      OnePlainLine(m[0]);
    }
  }

  lemma OnePlainLine(e: Entry<string>)
    requires Identifier(e.key) && NoTerminator(e.value)
    ensures PlainLine(ConfigLine(e))
  {
    hide ShellQuote, Identifier, NoTerminator, ReadLine;
    LineReadsBack(e);
    QuoteReadsBack(e.value);
    assert Last(ConfigLine(e)) == Last(ShellQuote(e.value));
    assert JsSpace('\r');
  }

  lemma BlankLineIgnored(m: Config)
    ensures ReadLines(m, [[]]) == m && ReadLines(m, [[], []]) == m
  {
    assert ReadLine([]) == None;
    var one: seq<string> := [[]];
    var two: seq<string> := [[], []];
    assert one[1..] == [] && two[1..] == one;
    assert ReadLines(m, one) == ReadLines(m, one[1..]) == m;
  }

  lemma TripEchoes(m: Config)
    requires WritableKeys(m) && forall i :: 0 <= i < |m| ==> NoTerminator(m[i].value)
    ensures Trip(m) == Echo(m)
  {
    hide ReadLine, PlainLine, Identifier, NoTerminator, ReadLines, SplitAtNewlines, ConfigLines, Unlines, Join, Lacks,
         DistinctKeys;
    if m == [] {
      EmptyTrip();
    } else {
      var lines := ConfigLines(m);
      PlainLines(m);
      JoinIsUnlines(lines);
      SplitJoined(lines);
      ReadLinesAppend([], lines, [[]]);
      NothingLacks();
      ReadsEcho(m, []);
      assert [] + Echo(m) == Echo(m);
      BlankLineIgnored(Echo(m));
    }
  }

  lemma EmptyTrip()
    ensures Trip([]) == []
  {
    hide ReadLine, ReadLines, SplitAtNewlines, Join;
    EmptyFile();
    SplitFirst([], []);
    assert [] + "\n" + [] == "\n" && [] + "\n" == "\n";
    SplitEmpty();
    BlankLineIgnored([]);
    var blank: seq<string> := [[]];
    assert blank + blank == [[], []];
  }

  lemma NothingLacks()
    ensures forall k :: Lacks([], k)
  {
  }

  lemma EmptyFile()
    ensures ConfigLines([]) == [] && Join([]) == []
  {
  }

  lemma SplitEmpty()
    ensures SplitAtNewlines([]) == [[]]
  {
  }

  // ----- exactly which configurations survive -----

  /** A value the file format can carry. */
  predicate Carried(v: string) {
    NoTerminator(v) && '"' !in v && '\\' !in v
  }

  lemma {:induction false} EchoIsIdentity(m: Config)
    requires forall i :: 0 <= i < |m| ==> NoTerminator(m[i].value)
    ensures |Echo(m)| <= |m|
    ensures Echo(m) == m <==> forall i :: 0 <= i < |m| ==> Carried(m[i].value) && !IsProto(m[i].key)
  {
    if m != [] {
      hide NoTerminator, Escaped;
      EchoIsIdentity(m[1..]);
      EscapedProperties(m[0].value);
      assert m == [m[0]] + m[1..];
      if !IsProto(m[0].key) {
        assert Echo(m)[1..] == Echo(m[1..]);
        assert Echo(m) == m <==> Entry(m[0].key, Escaped(m[0].value)) == m[0] && Echo(m[1..]) == m[1..];
      } else {
        assert |Echo(m)| < |m|;
      }
      if forall i :: 0 <= i < |m[1..]| ==> Carried(m[1..][i].value) && !IsProto(m[1..][i].key) {
        forall i | 1 <= i < |m|
          ensures Carried(m[i].value) && !IsProto(m[i].key)
        {
          assert m[i] == m[1..][i - 1];
        }
      }
    }
  }

  ghost predicate ValuesOneLine(m: Config) {
    forall i :: 0 <= i < |m| ==> NoTerminator(m[i].value)
  }

  lemma {:induction false} TrimMembers(s: string)
    ensures forall c :: c in Trim(s) ==> c in s
  {
    TrimEndMembers(TrimStart(s));
    TrimStartMembers(s);
  }

  lemma {:induction false} TrimStartMembers(s: string)
    ensures forall c :: c in TrimStart(s) ==> c in s
  {
    if s != [] && JsSpace(s[0]) { TrimStartMembers(s[1..]); }
  }

  lemma {:induction false} TrimEndMembers(s: string)
    ensures forall c :: c in TrimEnd(s) ==> c in s
  {
    if s != [] && JsSpace(Last(s)) { TrimEndMembers(s[..|s| - 1]); }
  }

  /** What a reading yields: identifier keys and one-line values. */
  ghost predicate Readable(e: Entry<string>) {
    Identifier(e.key) && NoTerminator(e.value)
  }

  ghost predicate AllReadable(m: Config) {
    forall i :: 0 <= i < |m| ==> Readable(m[i])
  }

  lemma ReadLineReadable(raw: string)
    ensures ReadLine(raw).Some? ==> Readable(ReadLine(raw).value)
  {
    hide Trim, Unquoted;
    var line := Trim(raw);
    var n := IdentLength(line);
    if ReadLine(raw).Some? {
      var rest := line[n + 1..];
      TrimMembers(rest);
      UnquotedMembers(Trim(rest));
      assert NoTerminator(rest);
      assert line[..n][0] == line[0];
    }
  }

  lemma UnquotedMembers(v: string)
    ensures forall c :: c in Unquoted(v) ==> c in v
  {
  }

  lemma AssignReadable(m: Config, e: Entry<string>)
    requires AllReadable(m) && Readable(e)
    ensures AllReadable(Assign(m, e))
  {
    hide Readable;
    assert Entry(e.key, e.value) == e;
  }

  /** Every file reads as a map of identifier keys to one-line values. */
  lemma {:induction false} ReadLinesReadable(m: Config, lines: seq<string>)
    requires AllReadable(m)
    ensures AllReadable(ReadLines(m, lines))
    decreases |lines|
  {
    hide ReadLine, AllReadable, Assign;
    if lines != [] {
      ReadLineReadable(lines[0]);
      var e := ReadLine(lines[0]);
      if e.Some? { AssignReadable(m, e.value); }
      ReadLinesReadable(if e.None? then m else Assign(m, e.value), lines[1..]);
    }
  }

  /** A configuration comes back unchanged, order included, if and only if every key is an identifier other
      than `__proto__` and every value is free of double quotes, backslashes and line terminators. */
  lemma RoundTripExactly(m: Config)
    requires DistinctKeys(m)
    ensures Trip(m) == m <==>
              forall i :: 0 <= i < |m| ==> Identifier(m[i].key) && !IsProto(m[i].key) && Carried(m[i].value)
  {
    hide ReadLines, SplitAtNewlines, ConfigLines, Join, NoTerminator, Identifier;
    ReadLinesReadable([], SplitAtNewlines(Join(ConfigLines(m)) + "\n"));
    if AllReadable(m) {
      assert forall i :: 0 <= i < |m| ==> Readable(m[i]);
      TripEchoes(m);
      EchoIsIdentity(m);
    } else {
      var i :| 0 <= i < |m| && !Readable(m[i]);
      assert Trip(m) != m;
    }
  }

  // ----- two configurations that do not survive -----

  /** One double quote comes back with a backslash in front. */
  lemma QuoteComesBackEscaped()
    ensures Trip([Entry("k", "\"")]) == [Entry("k", "\\\"")]
  {
    var m: Config := [Entry("k", "\"")];
    TripEchoes(m);
    assert m[1..] == [] && !IsProto("k") && Echo([]) == [];
    assert "\""[0] == '"' && "\""[1..] == "" && Escaped("") == "";
    assert Escaped("\"") == ['\\', '"'] + "";
    assert ['\\', '"'] + "" == "\\\"";
    assert Echo(m) == [Entry("k", Escaped("\""))] + Echo([]);
  }

  /** The key `__proto__` is written and lost on reading. */
  lemma ProtoKeyIsLost()
    ensures Trip([Entry("__proto__", "x")]) == []
  {
    var m: Config := [Entry("__proto__", "x")];
    TripEchoes(m);
    assert m[1..] == [];
  }
}
