/** The declarative HTTP router: pattern compilation, the backtracking match that Python's `re` performs
    on a compiled pattern, and dispatch in registration order. */
module Router {
  import opened Prelude
  import opened Text

  datatype Token = Lit(c: char) | Param(name: string)

  datatype CompileError = BrokenRegex | DuplicateName

  // ----- compilation -----

  /** Characters a captured value may contain; the slash is one of them. */
  predicate SegmentChar(c: char) {
    || 'A' <= c <= 'Z' || 'a' <= c <= 'z' || '0' <= c <= '9'
    || c == '.' || c == '_' || c == '@' || c == '~' || c == '%' || c == ':' || c == '+' || c == '=' || c == '/' || c == '-'
  }

  /** Escaping leaves a colon bare, so a backslash in front of one ends up escaping it: the pair is a
      literal colon, or a broken group when a name follows. */
  function Tokenize(p: string): Result<seq<Token>, CompileError>
    decreases |p|
  {
    if p == [] then Ok([])
    else if p[0] == '\\' && |p| > 1 && p[1] == ':' then
      if |p| > 2 && IdentStart(p[2]) then Err(BrokenRegex) else Prepend(Lit(':'), Tokenize(p[2..]))
    else if p[0] == ':' && |p| > 1 && IdentStart(p[1]) then
      var n := IdentLength(p[1..]);
      Prepend(Param(p[1..n + 1]), Tokenize(p[n + 1..]))
    else Prepend(Lit(p[0]), Tokenize(p[1..]))
  }

  function Prepend(t: Token, r: Result<seq<Token>, CompileError>): Result<seq<Token>, CompileError> {
    match r
    case Ok(ts) => Ok([t] + ts)
    case Err(e) => r
  }

  function Names(ts: seq<Token>): seq<string> {
    if ts == [] then [] else (if ts[0].Param? then [ts[0].name] else []) + Names(ts[1..])
  }

  function Compile(p: string): Result<seq<Token>, CompileError> {
    var r := Tokenize(p);
    if r.Ok? && !Distinct(Names(r.value)) then Err(DuplicateName) else r
  }

  // ----- matching -----

  function SegmentRun(s: string): (n: nat)
    ensures n <= |s|
    ensures forall i :: 0 <= i < n ==> SegmentChar(s[i])
    ensures n < |s| ==> !SegmentChar(s[n])
  {
    if s == [] || !SegmentChar(s[0]) then 0 else 1 + SegmentRun(s[1..])
  }

  /** The captured values of the first match the engine finds: each capture takes as much as it can and
      gives back one character at a time. `$` also matches before a final line feed. */
  function MatchTokens(ts: seq<Token>, s: string): Option<seq<string>>
    decreases |ts|, 0
  {
    if ts == [] then if s == [] || s == "\n" then Some([]) else None
    else match ts[0]
      case Lit(c) => if s != [] && s[0] == c then MatchTokens(ts[1..], s[1..]) else None
      case Param(_) =>
        assert |ts[1..]| < |ts|;
        MatchCapture(ts[1..], s, SegmentRun(s))
  }

  function MatchCapture(rest: seq<Token>, s: string, n: nat): Option<seq<string>>
    requires n <= |s|
    decreases |rest|, 1 + n
  {
    if n == 0 then None
    else
      var r := MatchTokens(rest, s[n..]);
      if r.Some? then Some([s[..n]] + r.value) else MatchCapture(rest, s, n - 1)
  }

  /** `groupdict`: each name with its value. */
  function Dict(names: seq<string>, values: seq<string>): map<string, string>
    requires |names| == |values|
  {
    map i | 0 <= i < |names| && Distinct(names) :: names[i] := values[i]
  }

  // ----- what a match is -----

  /** The pattern with its parameters replaced by `values`, in order. */
  function Fill(ts: seq<Token>, values: seq<string>): string
    requires |values| == |Names(ts)|
  {
    if ts == [] then []
    else match ts[0]
      case Lit(c) => [c] + Fill(ts[1..], values)
      case Param(_) => values[0] + Fill(ts[1..], values[1..])
  }

  predicate Segment(v: string) {
    v != [] && forall c :: c in v ==> SegmentChar(c)
  }

  /** `path` is the pattern with nonempty runs of segment characters for its parameters. */
  predicate Fits(ts: seq<Token>, path: string, values: seq<string>) {
    && |values| == |Names(ts)|
    && (forall v :: v in values ==> Segment(v))
    && (Fill(ts, values) == path || Fill(ts, values) + "\n" == path)
  }

  /** At the first capture where they differ, `a` took more than `b`. */
  predicate Greedier(a: seq<string>, b: seq<string>)
    requires |a| == |b|
  {
    a == b || (a != [] && (|a[0]| > |b[0]| || (a[0] == b[0] && Greedier(a[1..], b[1..]))))
  }

  lemma {:induction false} MatchSound(ts: seq<Token>, s: string)
    ensures MatchTokens(ts, s).Some? ==> Fits(ts, s, MatchTokens(ts, s).value)
    decreases |ts|, 0
  {
    if ts != [] {
      match ts[0] {
        case Lit(c) =>
          if s != [] && s[0] == c {
            MatchSound(ts[1..], s[1..]);
            assert s == [c] + s[1..];
            var r := MatchTokens(ts, s);
            if r.Some? { assert Fill(ts, r.value) + "\n" == [c] + (Fill(ts[1..], r.value) + "\n"); }
          }
        case Param(_) =>
          CaptureSound(ts, s, SegmentRun(s));
      }
    }
  }

  lemma {:induction false} CaptureSound(ts: seq<Token>, s: string, n: nat)
    requires ts != [] && ts[0].Param? && n <= SegmentRun(s)
    ensures MatchCapture(ts[1..], s, n).Some? ==> Fits(ts, s, MatchCapture(ts[1..], s, n).value)
    decreases |ts| - 1, 1 + n
  {
    if n > 0 {
      hide Fits, MatchTokens;
      var r := MatchTokens(ts[1..], s[n..]);
      if r.Some? {
        MatchSound(ts[1..], s[n..]);
        CaptureFits(ts, s, n, r.value);
      } else {
        CaptureSound(ts, s, n - 1);
      }
    }
  }

  lemma CaptureFits(ts: seq<Token>, s: string, n: nat, rest: seq<string>)
    requires ts != [] && ts[0].Param? && 0 < n <= SegmentRun(s) && Fits(ts[1..], s[n..], rest)
    ensures Fits(ts, s, [s[..n]] + rest)
  {
    hide SegmentChar, SegmentRun, Segment, Fill, Names;
    var values := [s[..n]] + rest;
    RunIsSegment(s, n);
    FillFirst(ts, s[..n], rest);
    assert s == s[..n] + s[n..];
    assert Fill(ts, values) + "\n" == s[..n] + (Fill(ts[1..], rest) + "\n");
  }

  lemma RunIsSegment(s: string, n: nat)
    requires 0 < n <= SegmentRun(s)
    ensures Segment(s[..n])
  {
    hide SegmentChar;
  }

  lemma FillFirst(ts: seq<Token>, v: string, rest: seq<string>)
    requires ts != [] && ts[0].Param? && |rest| == |Names(ts[1..])|
    ensures |[v] + rest| == |Names(ts)| && Fill(ts, [v] + rest) == v + Fill(ts[1..], rest)
  {
    assert ([v] + rest)[1..] == rest;
  }

  lemma {:induction false} MatchComplete(ts: seq<Token>, s: string, values: seq<string>)
    requires Fits(ts, s, values)
    ensures MatchTokens(ts, s).Some? && |MatchTokens(ts, s).value| == |values|
    ensures Greedier(MatchTokens(ts, s).value, values)
    decreases |ts|, 0
  {
    if ts != [] {
      match ts[0] {
        case Lit(c) =>
          assert s[1..] == Fill(ts[1..], values) || s[1..] == Fill(ts[1..], values) + "\n";
          MatchComplete(ts[1..], s[1..], values);
        case Param(_) =>
          var v, rest := values[0], values[1..];
          assert v in values && forall w :: w in rest ==> w in values;
          assert s == v + Fill(ts[1..], rest) || s == v + (Fill(ts[1..], rest) + "\n");
          assert s[..|v|] == v;
          assert forall i :: 0 <= i < |v| ==> s[i] in v;
          assert s[|v|..] == Fill(ts[1..], rest) || s[|v|..] == Fill(ts[1..], rest) + "\n";
          MatchSound(ts, s);
          CaptureComplete(ts[1..], s, SegmentRun(s), v, rest);
      }
    }
  }

  lemma {:induction false} CaptureComplete(ts: seq<Token>, s: string, n: nat, v: string, rest: seq<string>)
    requires 0 < |v| <= n <= |s| && s[..|v|] == v && Fits(ts, s[|v|..], rest)
    ensures var r := MatchCapture(ts, s, n);
            r.Some? && |r.value| == 1 + |rest| && Greedier(r.value, [v] + rest)
    decreases |ts|, 1 + n
  {
    var r := MatchTokens(ts, s[n..]);
    MatchSound(ts, s[n..]);
    assert ([v] + rest)[1..] == rest;
    if n == |v| {
      MatchComplete(ts, s[n..], rest);
      assert ([s[..n]] + r.value)[1..] == r.value;
    } else if r.None? {
      CaptureComplete(ts, s, n - 1, v, rest);
    }
  }

  /** A path matches exactly when it is an instance of the pattern, and among all the ways it can be one
      the engine reports the greediest from the left. */
  lemma MatchExactly(ts: seq<Token>, path: string)
    ensures MatchTokens(ts, path).Some? <==> exists values :: Fits(ts, path, values)
    ensures MatchTokens(ts, path).Some? ==> Fits(ts, path, MatchTokens(ts, path).value)
    ensures forall values :: Fits(ts, path, values) ==>
              |MatchTokens(ts, path).value| == |values| && Greedier(MatchTokens(ts, path).value, values)
  {
    MatchSound(ts, path);
    forall values | Fits(ts, path, values)
      ensures MatchTokens(ts, path).Some? && |MatchTokens(ts, path).value| == |values|
              && Greedier(MatchTokens(ts, path).value, values)
    {
      MatchComplete(ts, path, values);
    }
  }

  /** No two different answers are each the greedier. */
  lemma {:induction false} GreediestIsUnique(a: seq<string>, b: seq<string>)
    requires |a| == |b| && Greedier(a, b) && Greedier(b, a)
    ensures a == b
  {
    if a != [] {
      GreediestIsUnique(a[1..], b[1..]);
      assert a == [a[0]] + a[1..] && b == [b[0]] + b[1..];
    }
  }

  /** A captured value may hold letters, digits, underscores and nine other characters. */
  lemma SegmentAlphabet(c: char)
    ensures SegmentChar(c) <==> IdentChar(c) || c in ".@~%:+=/-"
  {
  }

  // ----- substituting the returned parameters rebuilds the path -----

  function Substitute(ts: seq<Token>, params: map<string, string>): string {
    if ts == [] then []
    else (match ts[0]
          case Lit(c) => [c]
          case Param(name) => if name in params then params[name] else [])
         + Substitute(ts[1..], params)
  }

  lemma {:induction false} SubstituteFills(ts: seq<Token>, values: seq<string>, params: map<string, string>)
    requires |values| == |Names(ts)|
    requires forall i :: 0 <= i < |values| ==> Names(ts)[i] in params && params[Names(ts)[i]] == values[i]
    ensures Substitute(ts, params) == Fill(ts, values)
  {
    if ts != [] {
      if ts[0].Param? {
        assert Names(ts)[0] == ts[0].name && Names(ts)[1..] == Names(ts[1..]);
        assert forall i :: 0 <= i < |values[1..]| ==> values[1..][i] == values[i + 1] && Names(ts[1..])[i] == Names(ts)[i + 1];
        SubstituteFills(ts[1..], values[1..], params);
      } else {
        assert Names(ts[1..]) == Names(ts);
        SubstituteFills(ts[1..], values, params);
      }
    }
  }

  /** A path without line feeds is rebuilt exactly by the parameters its match returns. */
  lemma ParamsRebuildPath(pattern: string, path: string)
    requires Compile(pattern).Ok? && '\n' !in path
    requires MatchTokens(Compile(pattern).value, path).Some?
    ensures var ts := Compile(pattern).value;
            var values := MatchTokens(ts, path).value;
            |Names(ts)| == |values| && Substitute(ts, Dict(Names(ts), values)) == path
  {
    var ts := Compile(pattern).value;
    var values := MatchTokens(ts, path).value;
    MatchSound(ts, path);
    SubstituteFills(ts, values, Dict(Names(ts), values));
    var filled := Fill(ts, values);
    assert (filled + "\n")[|filled|] == '\n';
  }

  // ----- tokens say what the pattern says -----

  function Spell(t: Token): string {
    match t
    case Lit(c) => [c]
    case Param(name) => ":" + name
  }

  function Render(ts: seq<Token>): string {
    if ts == [] then [] else Spell(ts[0]) + Render(ts[1..])
  }

  predicate EscapedColon(p: string) {
    exists i :: 0 <= i < |p| - 1 && p[i] == '\\' && p[i + 1] == ':'
  }

  /** A pattern splits into tokens that spell it out again exactly when no backslash stands before a colon:
      such a pair breaks the expression or loses its backslash. */
  lemma {:induction false} TokensSpellPattern(p: string)
    ensures Tokenize(p).Ok? && Render(Tokenize(p).value) == p <==> !EscapedColon(p)
    ensures Tokenize(p).Ok? ==> |Render(Tokenize(p).value)| <= |p|
    ensures Tokenize(p).Ok? && EscapedColon(p) ==> |Render(Tokenize(p).value)| < |p|
    decreases |p|
  {
    hide EscapedColon, IdentStart, IdentChar, Tokenize, Render, Spell;
    if p == [] {
      NothingEscaped();
    } else if p[0] == '\\' && |p| > 1 && p[1] == ':' {
      EscapedAtOnce(p);
      TokensSpellPattern(p[2..]);
      EscapedStep(p);
    } else {
      var t, n := FirstToken(p);
      EscapedLater(p, n);
      TokensSpellPattern(p[n..]);
      assert p == Spell(t) + p[n..];
      if Tokenize(p).Ok? { RenderStep(t, Tokenize(p[n..]).value); }
    }
  }

  /** The token a pattern begins with and its length, where no colon is escaped. */
  lemma FirstToken(p: string) returns (t: Token, n: nat)
    requires p != [] && !(p[0] == '\\' && |p| > 1 && p[1] == ':')
    ensures 0 < n <= |p| && p[..n] == Spell(t) && Tokenize(p) == Prepend(t, Tokenize(p[n..]))
    ensures n == 1 || (p[0] == ':' && n <= IdentLength(p[1..]) + 1)
  {
    hide IdentStart, IdentChar;
    if p[0] == ':' && |p| > 1 && IdentStart(p[1]) {
      n := IdentLength(p[1..]) + 1;
      t := Param(p[1..n]);
      assert p[..n] == ":" + p[1..n];
    } else {
      t, n := Lit(p[0]), 1;
    }
  }

  lemma EscapedStep(p: string)
    requires |p| > 1 && p[0] == '\\' && p[1] == ':'
    ensures Tokenize(p).Ok? ==>
              Tokenize(p[2..]).Ok? && |Render(Tokenize(p).value)| == 1 + |Render(Tokenize(p[2..]).value)|
  {
    hide Render;
    if Tokenize(p).Ok? { RenderStep(Lit(':'), Tokenize(p[2..]).value); }
  }

  lemma RenderStep(t: Token, ts: seq<Token>)
    ensures Render([t] + ts) == Spell(t) + Render(ts)
  {
    assert ([t] + ts)[1..] == ts;
  }

  lemma NothingEscaped()
    ensures !EscapedColon([]) && Tokenize([]) == Ok([]) && Render([]) == []
  {
  }

  lemma EscapedAtOnce(p: string)
    requires |p| > 1 && p[0] == '\\' && p[1] == ':'
    ensures EscapedColon(p)
  {
    assert p[0 + 1] == ':';
  }

  /** The first token of a pattern holds no escaped colon, unless it is one. */
  lemma EscapedLater(p: string, n: nat)
    requires 0 < n <= |p| && !(p[0] == '\\' && |p| > 1 && p[1] == ':')
    requires n == 1 || (p[0] == ':' && n <= IdentLength(p[1..]) + 1)
    ensures EscapedColon(p) <==> EscapedColon(p[n..])
  {
    var rest := p[n..];
    if EscapedColon(p) {
      var i :| 0 <= i < |p| - 1 && p[i] == '\\' && p[i + 1] == ':';
      assert n > 1 ==> forall k :: 0 < k < n ==> IdentChar(p[1..][k - 1]) && p[1..][k - 1] == p[k];
      assert rest[i - n] == p[i] && rest[(i - n) + 1] == p[i + 1];
    }
    if EscapedColon(rest) {
      var i :| 0 <= i < |rest| - 1 && rest[i] == '\\' && rest[i + 1] == ':';
      assert p[i + n] == rest[i] && p[(i + n) + 1] == rest[i + 1];
    }
  }

  predicate BrokenAt(p: string, i: nat) {
    i + 2 < |p| && p[i] == '\\' && p[i + 1] == ':' && IdentStart(p[i + 2])
  }

  lemma BrokenLater(p: string, n: nat)
    requires 0 < n <= |p| && forall k :: 0 < k < n ==> p[k] != '\\'
    ensures (exists i :: BrokenAt(p, i)) <==> BrokenAt(p, 0) || exists i :: BrokenAt(p[n..], i)
  {
    hide IdentStart;
    var rest := p[n..];
    forall i: nat | BrokenAt(p, i)
      ensures i == 0 || (i >= n && BrokenAt(rest, i - n))
    {
    }
    forall i: nat | BrokenAt(rest, i)
      ensures BrokenAt(p, i + n)
    {
    }
  }

  /** A pattern is refused exactly when a name follows a backslash and colon, or a name is used twice. */
  lemma {:induction false} RefusedExactly(p: string)
    ensures Tokenize(p).Err? <==> exists i :: BrokenAt(p, i)
    ensures Compile(p).Err? <==> (exists i :: BrokenAt(p, i)) || !Distinct(Names(Tokenize(p).value))
    decreases |p|
  {
    hide IdentStart, Names;
    if p != [] {
      var escaped := p[0] == '\\' && |p| > 1 && p[1] == ':';
      var n := if escaped then 2 else if p[0] == ':' && |p| > 1 && IdentStart(p[1]) then IdentLength(p[1..]) + 1 else 1;
      forall k | 0 < k < n
        ensures p[k] != '\\'
      {
        if !escaped { assert IdentChar(p[1..][k - 1]); BackslashNamesNothing(); }
      }
      BrokenLater(p, n);
      RefusedExactly(p[n..]);
    }
  }

  lemma BackslashNamesNothing()
    ensures !IdentChar('\\')
  {
  }

  predicate Identifier(name: string) {
    name != [] && IdentStart(name[0]) && forall c :: c in name ==> IdentChar(c)
  }

  /** What may follow a token for the two to be told apart again: a name ends before the next character, a
      colon before a letter would begin a name, and a backslash before a colon would escape it. */
  predicate Separate(t: Token, next: Token) {
    match t
    case Param(_) => next.Param? || !IdentChar(next.c)
    case Lit(':') => next.Param? || !IdentStart(next.c)
    case Lit('\\') => next.Lit? && next.c != ':'
    case _ => true
  }

  ghost predicate Canonical(ts: seq<Token>) {
    && (forall i :: 0 <= i < |ts| && ts[i].Param? ==> Identifier(ts[i].name))
    && (forall i :: 0 <= i < |ts| - 1 ==> Separate(ts[i], ts[i + 1]))
  }

  lemma {:induction false} IdentLengthIs(name: string, rest: string)
    requires forall c :: c in name ==> IdentChar(c)
    requires rest == [] || !IdentChar(rest[0])
    ensures IdentLength(name + rest) == |name|
  {
    if name == [] {
      assert name + rest == rest;
    } else {
      assert (name + rest)[1..] == name[1..] + rest;
      IdentLengthIs(name[1..], rest);
    }
  }

  lemma RenderStart(ts: seq<Token>)
    ensures ts == [] ==> Render(ts) == []
    ensures ts != [] ==> Render(ts) != [] && Render(ts)[0] == if ts[0].Param? then ':' else ts[0].c
  {
  }

  lemma CanonicalTail(ts: seq<Token>)
    requires Canonical(ts) && ts != []
    ensures Canonical(ts[1..]) && (ts[0].Param? ==> Identifier(ts[0].name))
    ensures |ts| > 1 ==> Separate(ts[0], ts[1..][0])
  {
    var rest := ts[1..];
    forall i | 0 <= i < |rest| - 1
      ensures Separate(rest[i], rest[i + 1])
    {
      var j := i + 1;
      assert Separate(ts[j], ts[j + 1]);
    }
    if |ts| > 1 { assert Separate(ts[0], ts[0 + 1]); }
  }

  lemma TokenizeName(name: string, rest: string)
    requires Identifier(name) && (rest == [] || !IdentChar(rest[0]))
    ensures Tokenize(":" + name + rest) == Prepend(Param(name), Tokenize(rest))
  {
    hide IdentLength, IdentChar, IdentStart;
    var p := ":" + name + rest;
    IdentLengthIs(name, rest);
    assert p[0] == ':' && p[1] == name[0];
    assert p[1..] == name + rest && p[1..|name| + 1] == name && p[|name| + 1..] == rest;
  }

  lemma TokenizeChar(c: char, rest: string)
    requires c == '\\' && rest != [] ==> rest[0] != ':'
    requires c == ':' && rest != [] ==> !IdentStart(rest[0])
    ensures Tokenize([c] + rest) == Prepend(Lit(c), Tokenize(rest))
  {
    hide IdentLength, IdentChar, IdentStart;
    assert ([c] + rest)[1..] == rest;
  }

  /** Every canonical token list is read back from the pattern it spells. */
  lemma {:induction false} TokenizeUndoesRender(ts: seq<Token>)
    requires Canonical(ts)
    ensures Tokenize(Render(ts)) == Ok(ts)
  {
    hide Tokenize, Canonical, IdentChar, IdentStart;
    if ts == [] {
      assert Tokenize([]) == Ok([]) by { EmptyPattern(); }
    } else {
      var rest := Render(ts[1..]);
      CanonicalTail(ts);
      TokenizeUndoesRender(ts[1..]);
      assert [ts[0]] + ts[1..] == ts;
      RenderStart(ts[1..]);
      ColonStartsNothing();
      match ts[0] {
        case Lit(c) => TokenizeChar(c, rest);
        case Param(name) => TokenizeName(name, rest);
      }
    }
  }

  /** A pattern without an escaped colon splits in exactly one way: into the canonical tokens that spell it. */
  lemma TokensExactly(p: string, ts: seq<Token>)
    ensures Canonical(ts) && Render(ts) == p <==> !EscapedColon(p) && Tokenize(p) == Ok(ts)
  {
    hide Tokenize, Canonical, Render, EscapedColon;
    TokensSpellPattern(p);
    if Canonical(ts) {
      TokenizeUndoesRender(ts);
    }
    if !EscapedColon(p) {
      TokensAreCanonical(p);
    }
  }

  lemma {:induction false} TokensAreCanonical(p: string)
    requires !EscapedColon(p)
    ensures Tokenize(p).Ok? && Canonical(Tokenize(p).value)
    decreases |p|
  {
    hide Canonical, EscapedColon, Separate, IdentChar, IdentStart;
    if p == [] {
      NothingIsCanonical();
    } else {
      NoEscape(p);
      var n := if p[0] == ':' && |p| > 1 && IdentStart(p[1]) then IdentLength(p[1..]) + 1 else 1;
      EscapedLater(p, n);
      TokensAreCanonical(p[n..]);
      TokensSpellPattern(p[n..]);
      var t, rest := Tokenize(p).value[0], Tokenize(p[n..]).value;
      assert Tokenize(p) == Ok([t] + rest);
      RenderStart(rest);
      MayFollowFirst(p, n, t, if rest == [] then t else rest[0]);
      CanonicalCons(t, rest);
    }
  }

  lemma NothingIsCanonical()
    ensures Tokenize([]) == Ok([]) && Canonical([])
  {
  }

  lemma NoEscape(p: string)
    requires !EscapedColon(p) && p != []
    ensures !(p[0] == '\\' && |p| > 1 && p[1] == ':')
  {
    assert |p| > 1 ==> p[0 + 1] == p[1];
  }

  /** The first token and what may come after it. */
  lemma MayFollowFirst(p: string, n: nat, t: Token, next: Token)
    requires p != [] && !(p[0] == '\\' && |p| > 1 && p[1] == ':')
    requires var named := p[0] == ':' && |p| > 1 && IdentStart(p[1]);
             && n == (if named then IdentLength(p[1..]) + 1 else 1)
             && t == if named then Param(p[1..n]) else Lit(p[0])
    ensures n <= |p| && (t.Param? ==> Identifier(t.name))
    ensures n < |p| && p[n] == (if next.Param? then ':' else next.c) ==> Separate(t, next)
  {
  }

  lemma CanonicalCons(t: Token, rest: seq<Token>)
    requires Canonical(rest) && (t.Param? ==> Identifier(t.name))
    requires rest != [] ==> Separate(t, rest[0])
    ensures Canonical([t] + rest)
  {
    hide Separate, Identifier;
  }

  lemma EmptyPattern()
    ensures Tokenize([]) == Ok([])
  {
  }

  lemma ColonStartsNothing()
    ensures !IdentStart(':') && !IdentChar(':')
  {
  }

  // ----- when captures stay within one path segment -----

  function Slashes(s: string): nat {
    if s == [] then 0 else (if s[0] == '/' then 1 else 0) + Slashes(s[1..])
  }

  /** The slashes the pattern itself demands. */
  function LitSlashes(ts: seq<Token>): nat {
    if ts == [] then 0 else (if ts[0] == Lit('/') then 1 else 0) + LitSlashes(ts[1..])
  }

  lemma {:induction false} SlashesAppend(a: string, b: string)
    ensures Slashes(a + b) == Slashes(a) + Slashes(b)
    decreases |a|
  {
    if a == [] {
      assert a + b == b;
    } else {
      assert (a + b)[1..] == a[1..] + b;
      SlashesAppend(a[1..], b);
    }
  }

  lemma {:induction false} NoSlashes(s: string)
    ensures Slashes(s) == 0 <==> '/' !in s
  {
    if s != [] {
      NoSlashes(s[1..]);
      assert s == [s[0]] + s[1..];
    }
  }

  lemma {:induction false} SlashesOfFill(ts: seq<Token>, values: seq<string>)
    requires |values| == |Names(ts)|
    ensures LitSlashes(ts) <= Slashes(Fill(ts, values))
    ensures Slashes(Fill(ts, values)) == LitSlashes(ts) <==> forall v :: v in values ==> '/' !in v
  {
    if ts != [] {
      match ts[0] {
        case Lit(c) =>
          SlashesOfFill(ts[1..], values);
          assert Fill(ts, values)[1..] == Fill(ts[1..], values);
        case Param(_) =>
          SlashesOfFill(ts[1..], values[1..]);
          SlashesAppend(values[0], Fill(ts[1..], values[1..]));
          NoSlashes(values[0]);
          assert values == [values[0]] + values[1..];
      }
    }
  }

  /** The captures of a match stay within one path segment each exactly when the path has no more slashes
      than the pattern. */
  lemma CapturesWithinSegments(ts: seq<Token>, path: string)
    requires MatchTokens(ts, path).Some?
    ensures (forall v :: v in MatchTokens(ts, path).value ==> '/' !in v) <==> Slashes(path) == LitSlashes(ts)
  {
    var values := MatchTokens(ts, path).value;
    MatchSound(ts, path);
    SlashesOfFill(ts, values);
    SlashesAppend(Fill(ts, values), "\n");
    NoSlashes("\n");
  }

  const ID_PATTERN := [Lit('/'), Param("v")]

  lemma IdPattern()
    ensures Compile("/:v") == Ok(ID_PATTERN) && Names(ID_PATTERN) == ["v"]
  {
    var p, q := ":v", "/:v";
    assert p[1..] == "v" && "v"[1..] == "" && IdentLength("v") == 1;
    assert p[0] == ':' && p[1] == 'v' && p[1..2] == "v" && p[2..] == "";
    assert Tokenize(p[2..]) == Ok([]);
    assert Tokenize(p) == Prepend(Param("v"), Ok([]));
    assert [Param("v")] + [] == [Param("v")];
    assert q[1..] == p && q[0] == '/';
    assert Tokenize(q) == Prepend(Lit('/'), Tokenize(q[1..]));
    assert [Lit('/')] + [Param("v")] == ID_PATTERN && ID_PATTERN[1..] == [Param("v")];
    assert [Param("v")][1..] == [] && Names([Param("v")]) == ["v"] + [];
    assert Names(ID_PATTERN) == [] + ["v"];
  }

  lemma IdFill(v: string)
    ensures Names(ID_PATTERN) == ["v"] && Fill(ID_PATTERN, [v]) == "/" + v
  {
    assert ID_PATTERN[1..] == [Param("v")];
    assert Fill([Param("v")], [v]) == v;
  }

  /** `/:v` matches `/a/b`, with a capture of two segments. */
  lemma CaptureSpansSegments()
    ensures Compile("/:v") == Ok(ID_PATTERN)
    ensures MatchTokens(ID_PATTERN, "/a/b") == Some(["a/b"])
  {
    hide MatchTokens, Compile, Fill, Names;
    IdPattern();
    var path := "/a/b";
    IdFill("a/b");
    MatchComplete(ID_PATTERN, path, ["a/b"]);
    MatchSound(ID_PATTERN, path);
    var values := MatchTokens(ID_PATTERN, path).value;
    assert values == [values[0]];
    IdFill(values[0]);
    assert Last(path) == 'b' && Last("/" + values[0] + "\n") == '\n';
    assert path == "/" + values[0];
    assert ("/" + values[0])[1..] == values[0] && path[1..] == "a/b";
  }

  // ----- the router object -----

  function UpperChar(c: char): char {
    if 'a' <= c <= 'z' then (c as int - 32) as char else c
  }

  function Upper(s: string): string {
    seq(|s|, i requires 0 <= i < |s| => UpperChar(s[i]))
  }

  datatype Route<H> = Route(httpMethod: string, pattern: string, handler: H, tokens: seq<Token>)

  datatype Response<H, B> =
    | Called(handler: H, params: map<string, string>, body: B, headers: map<string, string>)
    | MethodNotAllowed
    | NotFound

  predicate PathMatches<H>(r: Route<H>, path: string) {
    MatchTokens(r.tokens, path).Some?
  }

  predicate Serves<H>(r: Route<H>, httpMethod: string, path: string) {
    r.httpMethod == Upper(httpMethod) && PathMatches(r, path)
  }

  predicate Handles<H>(routes: seq<Route<H>>, httpMethod: string, path: string) {
    exists i :: 0 <= i < |routes| && Serves(routes[i], httpMethod, path)
  }

  predicate HandlesAny<H>(routes: seq<Route<H>>, path: string) {
    exists i :: 0 <= i < |routes| && PathMatches(routes[i], path)
  }

  /** Route `i` is the earliest registered one that serves the request. */
  predicate IsFirst<H>(routes: seq<Route<H>>, i: int, httpMethod: string, path: string) {
    && 0 <= i < |routes| && Serves(routes[i], httpMethod, path)
    && forall j :: 0 <= j < i ==> !Serves(routes[j], httpMethod, path)
  }

  function ParamsOf<H>(r: Route<H>, path: string): map<string, string> {
    var values := MatchTokens(r.tokens, path).GetOr([]);
    if |values| == |Names(r.tokens)| then Dict(Names(r.tokens), values) else map[]
  }

  class ApiRouterService<H> {
    var routes: seq<Route<H>>

    ghost predicate Valid()
      reads this
    {
      forall r :: r in routes ==> Compile(r.pattern) == Ok(r.tokens) && Upper(r.httpMethod) == r.httpMethod
    }

    constructor ()
      ensures routes == [] && Valid()
    {
      routes := [];
    }

    method Register(httpMethod: string, pattern: string, handler: H) returns (error: Option<CompileError>)
      requires Valid()
      modifies this
      ensures Valid()
      ensures error.Some? <==> Compile(pattern).Err?
      ensures error.Some? ==> routes == old(routes)
      ensures error.None? ==>
                routes == old(routes) + [Route(Upper(httpMethod), pattern, handler, Compile(pattern).value)]
    {
      var compiled := Compile(pattern);
      if compiled.Err? {
        return Some(compiled.error);
      }
      UpperIsUpper(httpMethod);
      routes := routes + [Route(Upper(httpMethod), pattern, handler, compiled.value)];
      error := None;
    }

    method Dispatch<B>(httpMethod: string, path: string, body: B, headers: Option<map<string, string>>)
      returns (r: Response<H, B>)
      requires Valid()
      ensures r.Called? <==> Handles(routes, httpMethod, path)
      ensures r.MethodNotAllowed? <==> HandlesAny(routes, path) && !Handles(routes, httpMethod, path)
      ensures r.NotFound? <==> !HandlesAny(routes, path)
      ensures r.Called? ==> exists i :: IsFirst(routes, i, httpMethod, path)
      ensures forall i :: IsFirst(routes, i, httpMethod, path) ==>
                r == Called(routes[i].handler, ParamsOf(routes[i], path), body, headers.GetOr(map[]))
    {
      hide MatchTokens, ParamsOf, Compile, Upper, PathMatches, Serves;
      var pathMatched := false;
      for i := 0 to |routes|
        invariant pathMatched <==> exists j :: 0 <= j < i && PathMatches(routes[j], path)
        invariant forall j :: 0 <= j < i ==> !Serves(routes[j], httpMethod, path)
      {
        var route := routes[i];
        var m := MatchTokens(route.tokens, path);
        ServesMeans(route, httpMethod, path);
        if m.Some? {
          pathMatched := true;
          if route.httpMethod == Upper(httpMethod) {
            assert Serves(routes[i], httpMethod, path) && PathMatches(routes[i], path);
            assert IsFirst(routes, i, httpMethod, path);
            return Called(route.handler, ParamsOf(route, path), body, headers.GetOr(map[]));
          }
        }
      }
      r := if pathMatched then MethodNotAllowed else NotFound;
    }

    method HandlesRequest(httpMethod: string, path: string) returns (b: bool)
      ensures b == Handles(routes, httpMethod, path)
    {
      for i := 0 to |routes|
        invariant forall j :: 0 <= j < i ==> !Serves(routes[j], httpMethod, path)
      {
        if Upper(httpMethod) == routes[i].httpMethod && MatchTokens(routes[i].tokens, path).Some? {
          assert Serves(routes[i], httpMethod, path);
          return true;
        }
      }
      b := false;
    }

    method HandlesAnyMethod(path: string) returns (b: bool)
      ensures b == HandlesAny(routes, path)
    {
      for i := 0 to |routes|
        invariant forall j :: 0 <= j < i ==> !PathMatches(routes[j], path)
      {
        if MatchTokens(routes[i].tokens, path).Some? {
          assert PathMatches(routes[i], path);
          return true;
        }
      }
      b := false;
    }
  }

  lemma ServesMeans<H>(r: Route<H>, httpMethod: string, path: string)
    ensures PathMatches(r, path) <==> MatchTokens(r.tokens, path).Some?
    ensures Serves(r, httpMethod, path) <==> r.httpMethod == Upper(httpMethod) && PathMatches(r, path)
  {
  }

  /** The upper-case form differs from the text in case only, and has no small letters. */
  lemma UpperIsUpper(s: string)
    ensures Upper(Upper(s)) == Upper(s)
    ensures Lower(Upper(s)) == Lower(s) && forall c :: c in Upper(s) ==> !('a' <= c <= 'z')
  {
  }

  /** What the called handler receives substitutes back to the requested path. */
  lemma DispatchedParamsRebuildPath<H>(r: Route<H>, path: string)
    requires Compile(r.pattern) == Ok(r.tokens) && PathMatches(r, path) && '\n' !in path
    ensures Substitute(r.tokens, ParamsOf(r, path)) == path
  {
    ParamsRebuildPath(r.pattern, path);
  }

  /** The parameters a called handler receives are free of slashes exactly when the path has as many slashes
      as its pattern. */
  lemma DispatchedParamsWithinSegments<H>(r: Route<H>, path: string)
    requires Compile(r.pattern) == Ok(r.tokens) && PathMatches(r, path)
    ensures (forall name :: name in ParamsOf(r, path) ==> '/' !in ParamsOf(r, path)[name])
            <==> Slashes(path) == LitSlashes(r.tokens)
  {
    var values, names := MatchTokens(r.tokens, path).value, Names(r.tokens);
    MatchSound(r.tokens, path);
    CapturesWithinSegments(r.tokens, path);
    assert forall i :: 0 <= i < |values| ==> names[i] in ParamsOf(r, path) && ParamsOf(r, path)[names[i]] == values[i];
  }
}
