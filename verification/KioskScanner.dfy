/** The kiosk's scanner for JSON objects embedded in cache bytes. */
module KioskScanner {
  import opened Prelude

  // ----- the scanner's state -----

  datatype Scan = Scan(depth: int, inString: bool, escaped: bool)

  const START := Scan(0, false, false)

  function Feed(st: Scan, c: char): Scan {
    if st.escaped then st.(escaped := false)
    else if c == '\\' then st.(escaped := true)
    else if c == '"' then st.(inString := !st.inString)
    else if st.inString then st
    else if c == '{' then st.(depth := st.depth + 1)
    else if c == '}' then st.(depth := st.depth - 1)
    else st
  }

  /** Reading `c` closes the object: an unquoted brace that brings the depth back to zero. */
  predicate Closes(st: Scan, c: char) {
    !st.escaped && !st.inString && c == '}' && st.depth == 1
  }

  function After(st: Scan, s: string): Scan
    decreases |s|
  {
    if s == [] then st else After(Feed(st, s[0]), s[1..])
  }

  predicate ClosesAt(text: string, start: nat, i: nat)
    requires start <= i < |text|
  {
    Closes(After(START, text[start..i]), text[i])
  }

  lemma {:induction false} AfterAppend(st: Scan, a: string, b: string)
    ensures After(st, a + b) == After(After(st, a), b)
    decreases |a|
  {
    if a == [] {
      assert a + b == b;
    } else {
      assert (a + b)[1..] == a[1..] + b;
      AfterAppend(Feed(st, a[0]), a[1..], b);
    }
  }

  /** The result is the shortest prefix that closes, or empty when none does. */
  ghost predicate Extracted(text: string, start: nat, r: string) {
    if r == [] then forall i: nat :: start <= i < |text| ==> !ClosesAt(text, start, i)
    else
      && start + |r| <= |text| && r == text[start..start + |r|]
      && ClosesAt(text, start, start + |r| - 1)
      && forall i: nat :: start <= i < start + |r| - 1 ==> !ClosesAt(text, start, i)
  }

  method ExtractBalancedJson(text: string, startIndex: nat) returns (r: string)
    ensures Extracted(text, startIndex, r)
  {
    var depth, inString, escaped := 0, false, false;
    var index := startIndex;
    while index < |text|
      invariant startIndex <= index && (index <= |text| || index == startIndex)
      invariant index <= |text| ==> Scan(depth, inString, escaped) == After(START, text[startIndex..index])
      invariant forall i: nat :: startIndex <= i < index && i < |text| ==> !ClosesAt(text, startIndex, i)
    {
      var c := text[index];
      ghost var st := Scan(depth, inString, escaped);
      assert text[startIndex..index + 1] == text[startIndex..index] + [c];
      AfterAppend(START, text[startIndex..index], [c]);
      AfterOne(st, c);
      if escaped {
        escaped := false;
      } else if c == '\\' {
        escaped := true;
      } else if c == '"' {
        inString := !inString;
      } else if !inString {
        if c == '{' {
          depth := depth + 1;
        } else if c == '}' {
          depth := depth - 1;
          if depth == 0 {
            assert ClosesAt(text, startIndex, index);
            return text[startIndex..index + 1];
          }
        }
      }
      index := index + 1;
    }
    r := "";
  }

  lemma AfterOne(st: Scan, c: char)
    ensures After(st, [c]) == Feed(st, c)
  {
    assert After(st, [c]) == After(Feed(st, c), [c][1..]);
  }

  /** There is only one such result. */
  lemma ExtractedIsUnique(text: string, start: nat, r: string, q: string)
    requires Extracted(text, start, r) && Extracted(text, start, q)
    ensures r == q
  {
    assert r != [] ==> ClosesAt(text, start, start + |r| - 1);
    assert q != [] ==> ClosesAt(text, start, start + |q| - 1);
  }

  /** The result as a function of the text. */
  function Extract(text: string, start: nat): (r: string)
    ensures Extracted(text, start, r)
  {
    if start >= |text| then []
    else
      assert text[start..start] == [];
      ExtractFrom(text, start, start, START)
  }

  lemma AfterNext(text: string, start: nat, i: nat)
    requires start <= i < |text|
    ensures After(START, text[start..i + 1]) == Feed(After(START, text[start..i]), text[i])
  {
    assert text[start..i + 1] == text[start..i] + [text[i]];
    AfterAppend(START, text[start..i], [text[i]]);
    AfterOne(After(START, text[start..i]), text[i]);
    hide After, Feed;
  }

  function ExtractFrom(text: string, start: nat, i: nat, st: Scan): (r: string)
    requires start <= i <= |text| && st == After(START, text[start..i])
    requires forall k: nat :: start <= k < i ==> !ClosesAt(text, start, k)
    ensures Extracted(text, start, r)
    decreases |text| - i
  {
    if i == |text| then []
    else if Closes(st, text[i]) then
      assert ClosesAt(text, start, i);
      text[start..i + 1]
    else
      AfterNext(text, start, i);
      ExtractFrom(text, start, i + 1, Feed(st, text[i]))
  }

  // ----- JSON texts (RFC 8259) -----

  /** One character of a string (section 7). */
  datatype StrChar = Plain(c: char) | Escape(c: char) | Unicode(hex: string)

  datatype Json =
    | Atom(text: string)
    | JStr(chars: seq<StrChar>)
    | Arr(blank: string, elements: seq<Element>)
    | Obj(blank: string, members: seq<Member>)

  /** The blanks of section 2 may stand around every element, key, colon and value. */
  datatype Element = Element(before: string, value: Json, after: string)
  datatype Member = Member(before: string, key: seq<StrChar>, beforeColon: string, afterColon: string, value: Json, after: string)

  predicate Blank(s: string) {
    forall c :: c in s ==> c == ' ' || c == '\t' || c == '\n' || c == '\r'
  }

  predicate HexDigit(c: char) {
    '0' <= c <= '9' || 'a' <= c <= 'f' || 'A' <= c <= 'F'
  }

  predicate GoodChar(x: StrChar) {
    match x
    case Plain(c) => c as int >= 0x20 && c != '"' && c != '\\'
    case Escape(c) => c in "\"\\/bfnrt"
    case Unicode(hex) => |hex| == 4 && forall c :: c in hex ==> HexDigit(c)
  }

  predicate GoodString(s: seq<StrChar>) {
    forall x :: x in s ==> GoodChar(x)
  }

  /** Characters of numbers and of the literals true, false and null. */
  predicate AtomChar(c: char) {
    '0' <= c <= '9' || 'a' <= c <= 'z' || c == 'E' || c == '+' || c == '-' || c == '.'
  }

  ghost predicate GoodJson(v: Json) {
    match v
    case Atom(text) => forall c :: c in text ==> AtomChar(c)
    case JStr(chars) => GoodString(chars)
    case Arr(blank, es) => Blank(blank) && forall i :: 0 <= i < |es| ==> GoodElement(es[i])
    case Obj(blank, ms) => Blank(blank) && forall i :: 0 <= i < |ms| ==> GoodMember(ms[i])
  }

  ghost predicate GoodElement(e: Element) {
    Blank(e.before) && GoodJson(e.value) && Blank(e.after)
  }

  ghost predicate GoodMember(m: Member) {
    Blank(m.before) && GoodString(m.key) && Blank(m.beforeColon) && Blank(m.afterColon) && GoodJson(m.value) && Blank(m.after)
  }

  function PrintChar(x: StrChar): string {
    match x
    case Plain(c) => [c]
    case Escape(c) => ['\\', c]
    case Unicode(hex) => "\\u" + hex
  }

  function PrintChars(s: seq<StrChar>): string {
    if s == [] then [] else PrintChar(s[0]) + PrintChars(s[1..])
  }

  function PrintString(s: seq<StrChar>): string {
    "\"" + (PrintChars(s) + "\"")
  }

  function Print(v: Json): string
    decreases v
  {
    match v
    case Atom(text) => text
    case JStr(chars) => PrintString(chars)
    case Arr(blank, es) => "[" + (blank + (PrintElements(es) + "]"))
    case Obj(blank, ms) => "{" + (ObjBody(blank, ms) + "}")
  }

  function ObjBody(blank: string, ms: seq<Member>): string
    decreases ms, 1
  {
    blank + PrintMembers(ms)
  }

  function PrintElements(es: seq<Element>): string
    decreases es
  {
    if es == [] then []
    else
      es[0].before + (Print(es[0].value) + es[0].after)
      + (if |es| == 1 then [] else "," + PrintElements(es[1..]))
  }

  function PrintMembers(ms: seq<Member>): string
    decreases ms, 0
  {
    if ms == [] then []
    else
      ms[0].before + (PrintString(ms[0].key) + (ms[0].beforeColon + (":" + (ms[0].afterColon + (Print(ms[0].value) + ms[0].after)))))
      + (if |ms| == 1 then [] else "," + PrintMembers(ms[1..]))
  }

  // ----- the scanner passes over a value -----

  /** Inside an object and outside any string. */
  predicate Open(st: Scan) {
    st.depth >= 1 && !st.inString && !st.escaped
  }

  /** Reading `s` from `st` never closes the object. */
  predicate Survives(st: Scan, s: string)
    decreases |s|
  {
    s == [] || (!Closes(st, s[0]) && Survives(Feed(st, s[0]), s[1..]))
  }

  /** Reading `s` from `st` closes nothing and leads to `to`. */
  predicate Passes(st: Scan, s: string, to: Scan) {
    Survives(st, s) && After(st, s) == to
  }

  lemma {:induction false} PassesAppend(st: Scan, a: string, mid: Scan, b: string, to: Scan)
    requires Passes(st, a, mid) && Passes(mid, b, to)
    ensures Passes(st, a + b, to)
    decreases |a|
  {
    if a == [] {
      assert a + b == b;
    } else {
      assert (a + b)[1..] == a[1..] + b;
      PassesAppend(Feed(st, a[0]), a[1..], mid, b, to);
    }
  }

  lemma PassesOne(st: Scan, c: char)
    requires !Closes(st, c)
    ensures Passes(st, [c], Feed(st, c))
  {
    AfterOne(st, c);
    assert Survives(Feed(st, c), [c][1..]);
  }

  lemma {:induction false} PassesInert(st: Scan, s: string)
    requires !st.escaped && forall c :: c in s ==> c != '"' && c != '\\' && (st.inString || (c != '{' && c != '}'))
    ensures Passes(st, s, st)
    decreases |s|
  {
    if s != [] {
      assert s[0] in s && forall c :: c in s[1..] ==> c in s;
      PassesInert(st, s[1..]);
    }
  }

  lemma PassesChar(st: Scan, x: StrChar)
    requires st.inString && !st.escaped && GoodChar(x)
    ensures Passes(st, PrintChar(x), st)
  {
    match x {
      case Plain(c) => PassesInert(st, [c]);
      case Escape(c) =>
        PassesOne(st, '\\');
        PassesOne(Feed(st, '\\'), c);
        PassesAppend(st, ['\\'], Feed(st, '\\'), [c], st);
        assert ['\\'] + [c] == PrintChar(x);
      case Unicode(hex) =>
        PassesOne(st, '\\');
        PassesOne(Feed(st, '\\'), 'u');
        PassesAppend(st, ['\\'], Feed(st, '\\'), ['u'], st);
        PassesInert(st, hex);
        PassesAppend(st, ['\\'] + ['u'], st, hex, st);
        assert ['\\'] + ['u'] + hex == PrintChar(x);
    }
  }

  lemma {:induction false} PassesChars(st: Scan, s: seq<StrChar>)
    requires st.inString && !st.escaped && GoodString(s)
    ensures Passes(st, PrintChars(s), st)
    decreases |s|
  {
    if s != [] {
      assert s[0] in s && forall x :: x in s[1..] ==> x in s;
      PassesChar(st, s[0]);
      PassesChars(st, s[1..]);
      PassesAppend(st, PrintChar(s[0]), st, PrintChars(s[1..]), st);
    }
  }

  lemma PassesString(st: Scan, s: seq<StrChar>)
    requires Open(st) && GoodString(s)
    ensures Passes(st, PrintString(s), st)
  {
    var quoted := st.(inString := true);
    PassesOne(st, '"');
    PassesChars(quoted, s);
    PassesOne(quoted, '"');
    PassesAppend(quoted, PrintChars(s), quoted, "\"", st);
    PassesAppend(st, "\"", quoted, PrintChars(s) + "\"", st);
  }

  lemma {:induction false} PassesJson(st: Scan, v: Json)
    requires Open(st) && GoodJson(v)
    ensures Passes(st, Print(v), st)
    decreases v
  {
    hide Passes;
    match v {
      case Atom(text) => PassesInert(st, text);
      case JStr(chars) => PassesString(st, chars);
      case Arr(blank, es) =>
        PassesOne(st, '[');
        PassesInert(st, blank);
        PassesElements(st, es);
        PassesOne(st, ']');
        PassesAppend(st, PrintElements(es), st, "]", st);
        PassesAppend(st, blank, st, PrintElements(es) + "]", st);
        PassesAppend(st, "[", st, blank + (PrintElements(es) + "]"), st);
      case Obj(blank, ms) =>
        var inner := st.(depth := st.depth + 1);
        PassesOne(st, '{');
        PassesBody(inner, blank, ms);
        PassesOne(inner, '}');
        PassesAppend(inner, ObjBody(blank, ms), inner, "}", st);
        PassesAppend(st, "{", inner, ObjBody(blank, ms) + "}", st);
    }
  }

  lemma {:induction false} PassesBody(st: Scan, blank: string, ms: seq<Member>)
    requires Open(st) && Blank(blank) && forall i :: 0 <= i < |ms| ==> GoodMember(ms[i])
    ensures Passes(st, ObjBody(blank, ms), st)
    decreases ms, 1
  {
    PassesInert(st, blank);
    PassesMembers(st, ms);
    PassesAppend(st, blank, st, PrintMembers(ms), st);
  }

  lemma {:induction false} PassesElements(st: Scan, es: seq<Element>)
    requires Open(st) && forall i :: 0 <= i < |es| ==> GoodElement(es[i])
    ensures Passes(st, PrintElements(es), st)
    decreases es
  {
    hide Passes;
    if es == [] {
      PassesInert(st, []);
    } else {
      var e := es[0];
      PassesInert(st, e.before);
      PassesJson(st, e.value);
      PassesInert(st, e.after);
      PassesAppend(st, Print(e.value), st, e.after, st);
      PassesAppend(st, e.before, st, Print(e.value) + e.after, st);
      var rest := if |es| == 1 then [] else "," + PrintElements(es[1..]);
      if |es| == 1 {
        PassesInert(st, []);
      } else {
        PassesOne(st, ',');
        PassesElements(st, es[1..]);
        PassesAppend(st, ",", st, PrintElements(es[1..]), st);
      }
      PassesAppend(st, e.before + (Print(e.value) + e.after), st, rest, st);
    }
  }

  lemma {:induction false} PassesMembers(st: Scan, ms: seq<Member>)
    requires Open(st) && forall i :: 0 <= i < |ms| ==> GoodMember(ms[i])
    ensures Passes(st, PrintMembers(ms), st)
    decreases ms, 0
  {
    hide Passes;
    if ms == [] {
      PassesInert(st, []);
    } else {
      var m := ms[0];
      PassesInert(st, m.before);
      PassesString(st, m.key);
      PassesInert(st, m.beforeColon);
      PassesOne(st, ':');
      PassesInert(st, m.afterColon);
      PassesJson(st, m.value);
      PassesInert(st, m.after);
      var e := Print(m.value) + m.after;
      PassesAppend(st, Print(m.value), st, m.after, st);
      PassesAppend(st, m.afterColon, st, e, st);
      PassesAppend(st, ":", st, m.afterColon + e, st);
      PassesAppend(st, m.beforeColon, st, ":" + (m.afterColon + e), st);
      PassesAppend(st, PrintString(m.key), st, m.beforeColon + (":" + (m.afterColon + e)), st);
      PassesAppend(st, m.before, st, PrintString(m.key) + (m.beforeColon + (":" + (m.afterColon + e))), st);
      var rest := if |ms| == 1 then [] else "," + PrintMembers(ms[1..]);
      if |ms| == 1 {
        PassesInert(st, []);
      } else {
        PassesOne(st, ',');
        PassesMembers(st, ms[1..]);
        PassesAppend(st, ",", st, PrintMembers(ms[1..]), st);
      }
      PassesAppend(st, m.before + (PrintString(m.key) + (m.beforeColon + (":" + (m.afterColon + e)))), st, rest, st);
    }
  }

  lemma {:induction false} SurvivesMeans(st: Scan, s: string, i: nat)
    requires Survives(st, s) && i < |s|
    ensures !Closes(After(st, s[..i]), s[i])
    decreases |s|
  {
    if i > 0 {
      SurvivesMeans(Feed(st, s[0]), s[1..], i - 1);
      assert s[..i][1..] == s[1..][..i - 1];
    }
  }

  /** Whatever surrounds it, an object's text is what extraction from its first brace returns. */
  lemma ExtractsEmbeddedObject(pre: string, v: Json, post: string)
    requires v.Obj? && GoodJson(v)
    ensures Extracted(pre + Print(v) + post, |pre|, Print(v))
  {
    var text, start, s := pre + Print(v) + post, |pre|, Print(v);
    var inner := Scan(1, false, false);
    var body := ObjBody(v.blank, v.members);
    var open := "{" + body;
    PassesOne(START, '{');
    PassesBody(inner, v.blank, v.members);
    PassesAppend(START, "{", inner, body, inner);
    assert s == open + "}";
    forall i: nat | start <= i < start + |s|
      ensures text[start..i] == s[..i - start] && text[i] == s[i - start]
    {
    }
    forall i: nat | start <= i < start + |s| - 1
      ensures !ClosesAt(text, start, i)
    {
      SurvivesMeans(START, open, i - start);
      assert s[..i - start] == open[..i - start];
    }
    assert s[..|open|] == open;
    assert text[start..start + |s|] == s;
  }

  // ----- the search for payloads -----

  const MARKER := "{\"data\":{\"panels\":"

  predicate MarkerAt(text: string, i: nat) {
    i + |MARKER| <= |text| && text[i..i + |MARKER|] == MARKER
  }

  /** Two occurrences of the marker never overlap, so jumping over one misses none. */
  lemma MarkersDoNotOverlap(text: string, i: nat, d: nat)
    requires MarkerAt(text, i) && 0 < d < |MARKER|
    ensures !MarkerAt(text, i + d)
  {
    var k := if d == 8 then 2 else 0;
    assert text[i + d + k] == text[i..i + |MARKER|][d + k] == MARKER[d + k] != MARKER[k];
    if i + d + |MARKER| <= |text| {
      assert text[i + d..i + d + |MARKER|][k] == text[i + d + k];
    }
  }

  method IndexOfMarker(text: string, from: nat) returns (i: int)
    ensures i == -1 ==> forall k: nat :: from <= k ==> !MarkerAt(text, k)
    ensures i != -1 ==> from <= i && MarkerAt(text, i) && forall k: nat :: from <= k < i ==> !MarkerAt(text, k)
  {
    i := from;
    while i + |MARKER| <= |text|
      invariant from <= i
      invariant forall k: nat :: from <= k < i ==> !MarkerAt(text, k)
    {
      if text[i..i + |MARKER|] == MARKER {
        return;
      }
      i := i + 1;
    }
    i := -1;
  }

  /** The parsed objects that start at the markers from `from` on, in text order. */
  function Payloads<J>(text: string, parse: string -> Option<J>, from: nat): seq<J>
    decreases |text| - from
  {
    if from >= |text| then []
    else (if MarkerAt(text, from) then PayloadAt(text, parse, from) else []) + Payloads(text, parse, from + 1)
  }

  function PayloadAt<J>(text: string, parse: string -> Option<J>, at: nat): seq<J> {
    var r := Extract(text, at);
    if r == [] || parse(r).None? then [] else [parse(r).value]
  }

  lemma {:induction false} SkipUnmarked<J>(text: string, parse: string -> Option<J>, from: nat, end: nat)
    requires from <= end
    requires forall k: nat :: from <= k < end ==> !MarkerAt(text, k)
    ensures Payloads(text, parse, from) == Payloads(text, parse, end)
    decreases end - from
  {
    if from < end {
      SkipUnmarked(text, parse, from + 1, end);
    }
  }

  /** Jumping past a marker takes exactly that marker's payload. */
  lemma OneMarker<J>(text: string, parse: string -> Option<J>, from: nat, start: nat)
    requires from <= start && MarkerAt(text, start) && forall k: nat :: from <= k < start ==> !MarkerAt(text, k)
    ensures Payloads(text, parse, from) == PayloadAt(text, parse, start) + Payloads(text, parse, start + |MARKER|)
  {
    hide MarkerAt, PayloadAt;
    forall k: nat | start + 1 <= k < start + |MARKER|
      ensures !MarkerAt(text, k)
    {
      MarkersDoNotOverlap(text, start, k - start);
    }
    SkipUnmarked(text, parse, from, start);
    SkipUnmarked(text, parse, start + 1, start + |MARKER|);
    assert start < |text| by { MarkerFits(text, start); }
  }

  lemma MarkerFits(text: string, i: nat)
    requires MarkerAt(text, i)
    ensures i < |text|
  {
  }

  /** `parse` is `JSON.parse`, with None for a thrown error. */
  method ParseEmbeddedPanelPayloads<J>(text: string, parse: string -> Option<J>) returns (payloads: seq<J>)
    ensures payloads == Payloads(text, parse, 0)
  {
    hide MarkerAt, Extracted, Extract, Payloads, PayloadAt;
    payloads := [];
    var searchIndex: nat := 0;
    while searchIndex < |text|
      invariant Payloads(text, parse, 0) == payloads + Payloads(text, parse, searchIndex)
      decreases |text| - searchIndex
    {
      var startIndex := IndexOfMarker(text, searchIndex);
      if startIndex == -1 {
        SkipUnmarked(text, parse, searchIndex, |text|);
        searchIndex := |text|;
        break;
      }
      OneMarker(text, parse, searchIndex, startIndex);
      var jsonString := ExtractBalancedJson(text, startIndex);
      ExtractedIsUnique(text, startIndex, jsonString, Extract(text, startIndex));
      PayloadIs(text, parse, startIndex);
      ghost var rest := Payloads(text, parse, startIndex + |MARKER|);
      assert forall j: J :: payloads + ([j] + rest) == payloads + [j] + rest;
      assert [] + rest == rest;
      searchIndex := startIndex + |MARKER|;
      if jsonString == [] {
        continue;
      }
      var parsed := parse(jsonString);
      if parsed.Some? {
        payloads := payloads + [parsed.value];
      }
    }
    NoPayloads(text, parse, searchIndex);
    assert payloads + [] == payloads;
  }

  lemma PayloadIs<J>(text: string, parse: string -> Option<J>, at: nat)
    ensures var json := Extract(text, at);
            PayloadAt(text, parse, at) == if json == [] || parse(json).None? then [] else [parse(json).value]
  {
  }

  lemma NoPayloads<J>(text: string, parse: string -> Option<J>, from: nat)
    requires |text| <= from
    ensures Payloads(text, parse, from) == []
  {
  }

  /** Every embedded panel object is among the payloads found. */
  lemma EmbeddedPanelIsFound<J>(pre: string, v: Json, post: string, parse: string -> Option<J>)
    requires v.Obj? && GoodJson(v) && MARKER <= Print(v) && parse(Print(v)).Some?
    ensures parse(Print(v)).value in Payloads(pre + Print(v) + post, parse, 0)
  {
    var text := pre + Print(v) + post;
    ExtractsEmbeddedObject(pre, v, post);
    ExtractedIsUnique(text, |pre|, Print(v), Extract(text, |pre|));
    assert text[|pre|..|pre| + |MARKER|] == Print(v)[..|MARKER|] == MARKER;
    assert Print(v) != [];
    LaterPayload(text, parse, 0, |pre|);
  }

  lemma {:induction false} LaterPayload<J>(text: string, parse: string -> Option<J>, from: nat, at: nat)
    requires from <= at < |text| && MarkerAt(text, at)
    ensures forall x :: x in PayloadAt(text, parse, at) ==> x in Payloads(text, parse, from)
    decreases at - from
  {
    hide PayloadAt, MarkerAt;
    if from < at {
      LaterPayload(text, parse, from + 1, at);
    }
  }
}
