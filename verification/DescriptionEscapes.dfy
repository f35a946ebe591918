/** Literal `\n` escapes in updates: the parser turns them into line breaks, so the updates that read back
    are exactly those without any. */
module DescriptionEscapes {
  import opened Prelude
  import opened Text
  import opened Assoc
  import opened Description

  // ----- what unescaping leaves -----

  /** No literal escape survives. */
  lemma {:induction false} ReplacedIsFree(s: string)
    ensures NoEscape(Replace(s, "\\n", "\n"))
    ensures var r := Replace(s, "\\n", "\n"); r != [] && r[0] != '\n' ==> s != [] && s[0] == r[0]
    decreases |s|
  {
    if |s| >= 2 {
      assert s[..2] == [s[0], s[1]];
      if s[..2] == "\\n" {
        ReplacedIsFree(s[2..]);
        ShortNoEscape("\n");
        NoEscapeConcat("\n", Replace(s[2..], "\\n", "\n"));
      } else {
        var rest := Replace(s[1..], "\\n", "\n");
        ReplacedIsFree(s[1..]);
        ShortNoEscape([s[0]]);
        assert !(s[0] == '\\' && s[1] == 'n');
        NoEscapeConcat([s[0]], rest);
      }
    }
  }

  lemma UnescapedIsFree(s: string)
    ensures NoEscape(Unescaped(s))
  {
    ReplacedIsFree(Replace(s, "\\r\\n", "\n"));
  }

  lemma StripPart(s: string) returns (left: string, right: string)
    ensures s == left + Strip(s) + right && Blanks(left) && Blanks(right)
    ensures NoEscape(s) ==> NoEscape(Strip(s))
  {
    hide Strip;
    left, right := StripShape(s);
    var from := |left|;
    assert s[from..from + |Strip(s)|] == Strip(s);
    if NoEscape(s) { NoEscapePart(s, from, from + |Strip(s)|); }
  }

  /** Stripping neither removes nor makes an escape. */
  lemma StripKeepsEscapes(s: string)
    ensures NoEscape(Strip(s)) <==> NoEscape(s)
  {
    hide Strip, NoEscape;
    var left, right := StripPart(s);
    if NoEscape(Strip(s)) {
      BlanksHaveNone(left);
      BlanksHaveNone(right);
      NoEscapeConcat(left, Strip(s));
      NoEscapeConcat(left + Strip(s), right);
    }
  }

  lemma BlanksHaveNone(s: string)
    requires Blanks(s)
    ensures NoEscape(s) && (s != [] ==> Last(s) != '\\' && s[0] != 'n')
  {
    assert forall i :: 0 <= i < |s| ==> s[i] in s;
  }

  // ----- values -----

  lemma {:induction false} FirstValueFree(lines: seq<string>, key: string)
    requires forall l :: l in lines ==> NoEscape(l)
    ensures FirstValue(lines, key).Some? ==> NoEscape(FirstValue(lines, key).value)
    decreases |lines|
  {
    hide NoEscape;
    if lines != [] {
      assert lines[0] in lines && forall l :: l in lines[1..] ==> l in lines;
      ItemValueFree(lines[0]);
      FirstValueFree(lines[1..], key);
    }
  }

  lemma ItemValueFree(l: string)
    requires NoEscape(l)
    ensures Item(l).Some? ==> NoEscape(Item(l).value.value)
  {
    hide NoEscape, Strip;
    var c := IndexOf(l, ':');
    if c < |l| {
      NoEscapePart(l, c + 1, |l|);
      assert l[c + 1..|l|] == l[c + 1..];
      StripKeepsEscapes(l[c + 1..]);
    }
  }

  /** No parsed value holds a literal escape, whatever the description. */
  lemma ParsedValueFree(d: string, key: string)
    ensures Get(Parse(d), key).Some? ==> NoEscape(Get(Parse(d), key).value)
  {
    hide NoEscape, SplitLines, Unescaped, MetaOf, Has, Get;
    if key == [] {
      EmptyKeyAbsent(d);
    } else {
      UnescapedIsFree(d);
      SplitNoEscape(Unescaped(d));
      NothingHas(key);
      MetaLooksUp([], SplitLines(Unescaped(d)), key);
      FirstValueFree(SplitLines(Unescaped(d)), key);
    }
  }

  /** So a value with an escape in it never reads back. */
  lemma EscapedValueIsLost(d: string, key: string, v: string)
    requires !NoEscape(v)
    ensures Get(Parse(d), key) != Some(Strip(v))
  {
    hide NoEscape, Strip, Parse, Get;
    StripKeepsEscapes(v);
    ParsedValueFree(d, key);
  }

  // ----- unescaping goes piece by piece -----

  lemma ReplaceOne(s: string, pattern: string)
    requires s != [] && pattern != [] && (|pattern| <= |s| ==> s[..|pattern|] != pattern)
    ensures Replace(s, pattern, "\n") == [s[0]] + Replace(s[1..], pattern, "\n")
  {
  }

  lemma ReplaceMatch(s: string, pattern: string)
    requires pattern != [] && |pattern| <= |s| && s[..|pattern|] == pattern
    ensures Replace(s, pattern, "\n") == "\n" + Replace(s[|pattern|..], pattern, "\n")
  {
  }

  lemma ReplaceNothing(pattern: string)
    requires pattern != []
    ensures Replace([], pattern, "\n") == []
  {
  }

  lemma AcrossIsNoMatch(a: string, c: char, b: string, pattern: string)
    requires c !in pattern && |a| < |pattern| <= |a + [c] + b|
    ensures (a + [c] + b)[..|pattern|] != pattern
  {
    assert (a + [c] + b)[..|pattern|][|a|] == c;
  }

  /** Replacement does not reach across a character the pattern does not hold. */
  lemma {:induction false} ReplaceAcross(a: string, c: char, b: string, pattern: string)
    requires pattern != [] && c !in pattern
    ensures Replace(a + [c] + b, pattern, "\n") == Replace(a, pattern, "\n") + ([c] + Replace(b, pattern, "\n"))
    decreases |a|
  {
    hide Replace;
    var s, n := a + [c] + b, |pattern|;
    if |a| < n <= |s| { AcrossIsNoMatch(a, c, b, pattern); }
    if a == [] {
      ReplaceNothing(pattern);
      ReplaceOne(s, pattern);
      assert s[1..] == b && s[0] == c;
    } else if n <= |a| && a[..n] == pattern {
      assert s[..n] == a[..n] && s[n..] == a[n..] + [c] + b;
      ReplaceAcross(a[n..], c, b, pattern);
      ReplaceMatch(a, pattern);
      ReplaceMatch(s, pattern);
    } else {
      assert n <= |a| ==> s[..n] == a[..n];
      assert s[1..] == a[1..] + [c] + b && s[0] == a[0];
      ReplaceAcross(a[1..], c, b, pattern);
      ReplaceOne(a, pattern);
      ReplaceOne(s, pattern);
    }
  }

  lemma UnescapedAcross(a: string, c: char, b: string)
    requires c != '\\' && c != 'r' && c != 'n'
    ensures Unescaped(a + [c] + b) == Unescaped(a) + [c] + Unescaped(b)
  {
    hide Replace;
    ReplaceAcross(a, c, b, "\\r\\n");
    var x, y := Replace(a, "\\r\\n", "\n"), Replace(b, "\\r\\n", "\n");
    assert x + ([c] + y) == x + [c] + y;
    ReplaceAcross(x, c, y, "\\n");
    assert Unescaped(a) + ([c] + Unescaped(b)) == Unescaped(a) + [c] + Unescaped(b);
  }

  lemma {:induction false} ReplaceMembers(s: string, pattern: string)
    requires pattern != []
    ensures forall c :: c in Replace(s, pattern, "\n") ==> c in s || c == '\n'
    decreases |s|
  {
    if |s| >= |pattern| {
      if s[..|pattern|] == pattern {
        ReplaceMembers(s[|pattern|..], pattern);
      } else {
        ReplaceMembers(s[1..], pattern);
      }
    }
  }

  lemma UnescapedMembers(s: string)
    ensures forall c :: c in Unescaped(s) ==> c in s || c == '\n'
  {
    ReplaceMembers(s, "\\r\\n");
    ReplaceMembers(Replace(s, "\\r\\n", "\n"), "\\n");
  }

  // ----- which keys the pieces of a line have -----

  /** Only line feeds break the text. */
  predicate OnlyFeeds(x: string) {
    forall c :: c in x && IsBreak(c) ==> c == '\n'
  }

  lemma {:induction false} PeelPlain(x: string, rest: string, key: string)
    requires OnlyFeeds(x) && ':' !in x
    ensures FirstValue(SplitLines(x + "\n" + rest), key) == FirstValue(SplitLines(rest), key)
    decreases |x|
  {
    hide SplitLines, FirstValue;
    var i := IndexOf(x, '\n');
    assert OneLine(x[..i]) && ':' !in x[..i];
    PlainLine(x[..i], if i == |x| then rest else x[i + 1..] + "\n" + rest, key);
    if i == |x| {
      assert x[..i] == x;
    } else {
      assert x[..i] + "\n" + (x[i + 1..] + "\n" + rest) == x + "\n" + rest;
      PeelPlain(x[i + 1..], rest, key);
    }
  }

  lemma PlainLine(line: string, rest: string, key: string)
    requires OneLine(line) && ':' !in line
    ensures FirstValue(SplitLines(line + "\n" + rest), key) == FirstValue(SplitLines(rest), key)
  {
    hide SplitLines;
    SplitFirstLine(line, rest);
    assert ([line] + SplitLines(rest))[1..] == SplitLines(rest);
  }

  /** A head broken into lines gives the key of its last piece only. */
  lemma {:induction false} PeelHeaded(h: string, v: string, rest: string, key: string)
    requires OnlyFeeds(h) && ':' !in h && OneLine(v)
    requires forall i :: 0 <= i <= |h| ==> Fold(h[i..]) != key
    ensures FirstValue(SplitLines(h + [':'] + v + "\n" + rest), key) == FirstValue(SplitLines(rest), key)
    decreases |h|
  {
    hide SplitLines, Fold;
    var i := IndexOf(h, '\n');
    if i == |h| {
      var line := h + [':'] + v;
      assert h[0..] == h && OneLine(line);
      hide Item, IndexOf;
      ItemAt(h, v);
      SplitFirstLine(line, rest);
      assert ([line] + SplitLines(rest))[1..] == SplitLines(rest);
    } else {
      var later := h[i + 1..];
      assert OneLine(h[..i]) && ':' !in h[..i];
      assert h[..i] + "\n" + (later + [':'] + v + "\n" + rest) == h + [':'] + v + "\n" + rest;
      PlainLine(h[..i], later + [':'] + v + "\n" + rest, key);
      assert forall k :: 0 <= k <= |later| ==> later[k..] == h[i + 1 + k..];
      PeelHeaded(later, v, rest, key);
    }
  }

  // ----- keys -----

  /** Whatever the escapes in it become, the line gives no item for `key`: it has no key, or its key is
      another one and it has no escapes, or its escapes are all in a key of lower case. */
  predicate Tame(l: string, key: string) {
    var c := IndexOf(l, ':');
    && OneLine(l)
    && (c < |l| ==>
          && NoEscape(l[c + 1..])
          && ((NoEscape(l[..c]) && Fold(l[..c]) != key) || Lower(l[..c]) == l[..c]))
  }

  lemma LowerPieces(h: string, key: string)
    requires Lower(h) == h && NoEscape(h) && !NoEscape(key)
    ensures forall i :: 0 <= i <= |h| ==> Fold(h[i..]) != key
  {
    hide NoEscape;
    forall i | 0 <= i <= |h|
      ensures Fold(h[i..]) != key
    {
      var t := h[i..];
      NoEscapePart(h, i, |h|);
      assert h[i..|h|] == t;
      StripKeepsEscapes(t);
      var left, right := StripPart(t);
      assert Lower(Strip(t)) == Strip(t) by { LowerPart(h, i, left, Strip(t), right); }
    }
  }

  lemma LowerPart(h: string, i: nat, left: string, mid: string, right: string)
    requires Lower(h) == h && i <= |h| && h[i..] == left + mid + right
    ensures Lower(mid) == mid
  {
    forall k | 0 <= k < |mid|
      ensures LowerChar(mid[k]) == mid[k]
    {
      assert mid[k] == h[i..][|left| + k] == h[i + |left| + k];
      assert Lower(h)[i + |left| + k] == LowerChar(h[i + |left| + k]);
    }
  }

  lemma LowerUnescaped(h: string)
    requires Lower(h) == h
    ensures Lower(Unescaped(h)) == Unescaped(h)
  {
    hide Unescaped;
    UnescapedMembers(h);
    var x := Unescaped(h);
    forall k | 0 <= k < |x|
      ensures LowerChar(x[k]) == x[k]
    {
      assert x[k] in x;
      if x[k] != '\n' {
        var j :| 0 <= j < |h| && h[j] == x[k];
        assert Lower(h)[j] == LowerChar(h[j]);
      }
    }
  }

  /** A tame line adds nothing under the key. */
  lemma TameLine(l: string, rest: string, key: string)
    requires Tame(l, key) && !NoEscape(key)
    ensures FirstValue(SplitLines(Unescaped(l) + "\n" + rest), key) == FirstValue(SplitLines(rest), key)
  {
    hide SplitLines, FirstValue, Unescaped, NoEscape, Fold, Lower;
    var c := IndexOf(l, ':');
    if c == |l| {
      UnescapedMembers(l);
      PeelPlain(Unescaped(l), rest, key);
    } else {
      var h, v := l[..c], l[c + 1..];
      assert l == h + [':'] + v;
      UnescapedAcross(h, ':', v);
      UnescapedIsSame(v);
      UnescapedMembers(h);
      UnescapedIsFree(h);
      if Lower(h) == h {
        LowerUnescaped(h);
        LowerPieces(Unescaped(h), key);
        PeelHeaded(Unescaped(h), v, rest, key);
      } else {
        UnescapedIsSame(h);
        OtherKey(h, v, rest, key);
      }
    }
  }

  lemma OtherKey(h: string, v: string, rest: string, key: string)
    requires OneLine(h) && OneLine(v) && ':' !in h && Fold(h) != key
    ensures FirstValue(SplitLines(h + [':'] + v + "\n" + rest), key) == FirstValue(SplitLines(rest), key)
  {
    hide SplitLines, Fold, Item;
    ItemAt(h, v);
    SplitFirstLine(h + [':'] + v, rest);
    assert ([h + [':'] + v] + SplitLines(rest))[1..] == SplitLines(rest);
  }

  lemma {:induction false} TameText(lines: seq<string>, key: string)
    requires !NoEscape(key) && forall l :: l in lines ==> Tame(l, key)
    ensures FirstValue(SplitLines(Unescaped(Unlines(lines))), key) == None
    decreases |lines|
  {
    hide SplitLines, Tame, NoEscape, Unescaped;
    if lines == [] {
      EmptyText(key);
    } else {
      assert lines[0] in lines && forall l :: l in lines[1..] ==> l in lines;
      var rest := Unlines(lines[1..]);
      assert Unlines(lines) == lines[0] + ['\n'] + rest;
      UnescapedAcross(lines[0], '\n', rest);
      TameLine(lines[0], Unescaped(rest), key);
      TameText(lines[1..], key);
    }
  }

  lemma EmptyText(key: string)
    ensures FirstValue(SplitLines(Unescaped([])), key) == None
  {
  }

  // ----- the lines a rewrite writes -----

  lemma OriginalIsTame(u: Meta, l: string, key: string)
    requires OneLine(l) && NoEscape(l) && Has(u, key) && RewriteLine(u, l) == l
    requires RawKey(l).Some? ==> RawKey(l).value != key
    ensures Tame(l, key)
  {
    hide NoEscape, Fold, Lower, Has, RewriteLine;
    var c := IndexOf(l, ':');
    if c < |l| {
      NoEscapePart(l, 0, c);
      assert l[0..c] == l[..c];
      NoEscapePart(l, c + 1, |l|);
      assert l[c + 1..|l|] == l[c + 1..];
    }
  }

  lemma CanonicalIsTame(e: Entry<string>, key: string)
    requires GoodUpdate(e) && NoEscape(e.value)
    ensures Tame(Canonical(e), key)
  {
    hide NoEscape, Strip;
    var l := Canonical(e);
    assert l == e.key + [':'] + (" " + e.value);
    IndexOfAfter(e.key, ':', " " + e.value);
    assert l[..|e.key|] == e.key && l[|e.key| + 1..] == " " + e.value;
    ShortNoEscape(" ");
    NoEscapeConcat(" ", e.value);
    LowerIdempotent(Strip(e.key));
    CanonicalOneLine(e);
  }

  lemma CanonicalOneLine(e: Entry<string>)
    requires GoodUpdate(e)
    ensures OneLine(Canonical(e))
  {
    CanonicalItem(e);
  }

  lemma TrimmedIsTame(l: string, key: string)
    requires Tame(l, key)
    ensures Tame(RStrip(l), key)
  {
    hide RStrip, NoEscape, Fold, Lower;
    var n := RStripShape(l);
    var r, c := RStrip(l), IndexOf(l, ':');
    RStripOneLine(l);
    if c < |l| {
      assert c < n;
      assert l[n..] == l[n..|l|];
      var head, tail := l[..c], l[c + 1..n];
      assert r == head + [':'] + tail;
      IndexOfAfter(head, ':', tail);
      assert r[..c] == head && r[c + 1..] == tail;
      NoEscapePart(l[c + 1..], 0, n - c - 1);
      assert l[c + 1..][0..n - c - 1] == tail;
    } else {
      assert ':' !in r;
    }
  }

  lemma {:induction false} TrimmedAreTame(lines: seq<string>, key: string)
    requires forall l :: l in lines ==> Tame(l, key)
    ensures forall l :: l in TrimLines(lines) ==> Tame(l, key)
    decreases |lines|
  {
    hide Tame, RStrip;
    if lines != [] {
      assert lines == lines[..|lines| - 1] + [Last(lines)];
      TrimmedAreTame(lines[..|lines| - 1], key);
      TrimmedIsTame(Last(lines), key);
    }
  }

  ghost predicate ValuesFree(u: Meta) {
    forall i :: 0 <= i < |u| ==> NoEscape(u[i].value)
  }

  lemma RewrittenIsTame(u: Meta, l: string, key: string)
    requires GoodUpdates(u) && ValuesFree(u) && Has(u, key) && OneLine(l) && NoEscape(l)
    ensures Tame(RewriteLine(u, l), key)
  {
    hide NoEscape, Tame, Canonical, GoodUpdate;
    if RawKey(l).Some? && Has(u, RawKey(l).value) {
      var i := IndexOfKey(u, RawKey(l).value);
      assert u[i] == Entry(RawKey(l).value, Get(u, RawKey(l).value).value);
      CanonicalIsTame(u[i], key);
    } else {
      OriginalIsTame(u, l, key);
    }
  }

  lemma {:induction false} MissingAreTame(u: Meta, lines: seq<string>, key: string)
    requires GoodUpdates(u) && ValuesFree(u)
    ensures forall l :: l in Missing(u, lines) ==> Tame(l, key)
    decreases |u|
  {
    hide NoEscape, Tame, Canonical, Seen, GoodUpdate;
    if u != [] {
      assert GoodUpdate(u[0]);
      CanonicalIsTame(u[0], key);
      MissingAreTame(u[1..], lines, key);
    }
  }

  lemma NewLinesAreTame(d: string, u: Meta, key: string)
    requires GoodUpdates(u) && ValuesFree(u) && Has(u, key) && NoEscape(d)
    ensures forall l :: l in NewLines(u, SplitLines(d)) ==> Tame(l, key)
  {
    hide NoEscape, Tame, GoodUpdates, ValuesFree, RewriteLine, Missing, SplitLines, OneLine;
    var lines := SplitLines(d);
    SplitLinesAreLines(d);
    SplitNoEscape(d);
    MissingAreTame(u, lines, key);
    forall i | 0 <= i < |lines|
      ensures Tame(RewriteLine(u, lines[i]), key)
    {
      assert lines[i] in lines;
      RewrittenIsTame(u, lines[i], key);
    }
  }

  lemma BlankIsTame(key: string)
    ensures Tame([], key)
  {
  }

  /** A key with an escape in it never reads back, when no value has one. */
  lemma EscapedKeyIsLost(d: string, u: Meta, key: string)
    requires GoodUpdates(u) && ValuesFree(u) && Has(u, key) && NoEscape(d) && !NoEscape(key)
    ensures Get(Parse(Rewrite(d, u)), key) == None
  {
    hide NoEscape, Tame, GoodUpdates, ValuesFree, NewLines, SplitLines, RStrip, Join, TrimLines, Has, Get, Unescaped, MetaOf, Rewrite;
    var all := NewLines(u, SplitLines(d));
    var lines := ResultLines(all);
    NewLinesAreTame(d, u, key);
    TrimmedAreTame(all, key);
    BlankIsTame(key);
    RewriteText(d, u);
    ResultText(all);
    TameText(lines, key);
    if key == [] {
      EmptyKeyAbsent(Rewrite(d, u));
    } else {
      NothingHas(key);
      MetaLooksUp([], SplitLines(Unescaped(Rewrite(d, u))), key);
    }
  }

  lemma ResultText(lines: seq<string>)
    ensures Join(TrimLines(lines)) + "\n" == Unlines(ResultLines(lines))
  {
    if TrimLines(lines) == [] {
      JoinFew([]);
      assert Unlines([[]]) == [] + "\n" + Unlines([]);
    } else {
      JoinIsUnlines(TrimLines(lines));
    }
  }

  // ----- exactly which updates read back -----

  ghost predicate ReadsBack(d: string, u: Meta) {
    forall k :: Has(u, k) ==> Get(Parse(Rewrite(d, u)), k) == Some(Strip(Get(u, k).value))
  }

  /** Every updated key reads back its stripped new value exactly when no update holds a literal escape. */
  lemma ReadsBackExactly(d: string, u: Meta)
    requires GoodUpdates(u) && NoEscape(d)
    ensures ReadsBack(d, u) <==> EscapeFree(u)
  {
    hide NoEscape, Strip, Rewrite, Parse, GoodUpdate;
    if EscapeFree(u) {
      forall k | Has(u, k)
        ensures Get(Parse(Rewrite(d, u)), k) == Some(Strip(Get(u, k).value))
      {
        RewriteThenParse(d, u, k);
      }
    } else {
      var i :| 0 <= i < |u| && (if ValuesFree(u) then !NoEscape(u[i].key) else !NoEscape(u[i].value));
      IndexIs(u, u[i].key, i);
      if ValuesFree(u) {
        EscapedKeyIsLost(d, u, u[i].key);
      } else {
        EscapedValueIsLost(Rewrite(d, u), u[i].key, u[i].value);
      }
    }
  }

  const CUT := Entry("k", "a\\nb")

  lemma CutIsGood()
    ensures GoodUpdates([CUT]) && NoEscape("")
  {
    StripOfStripped("k");
  }

  lemma CutUnescaped()
    ensures Unescaped("k: a\\nb\n") == "k: a\nb\n"
  {
    var tail := "\\nb";
    assert tail[..2] == "\\n" && tail[2..] == "b";
    assert Replace(tail, "\\r\\n", "\n") == tail;
    assert Replace(tail, "\\n", "\n") == "\n" + Replace("b", "\\n", "\n") == "\nb";
    hide Unescaped, Replace;
    UnescapedIs(tail);
    UnescapedIsSame("k: ");
    UnescapedAcross("k: ", 'a', tail);
    assert "k: " + ['a'] + tail == "k: a\\nb" && "k: " + ['a'] + "\nb" == "k: a\nb";
    UnescapedIsSame("");
    UnescapedAcross("k: a\\nb", '\n', "");
    assert "k: a\\nb" + ['\n'] + "" == "k: a\\nb\n" && "k: a\nb" + ['\n'] + "" == "k: a\nb\n";
  }

  lemma UnescapedIs(s: string)
    ensures Unescaped(s) == Replace(Replace(s, "\\r\\n", "\n"), "\\n", "\n")
  {
  }

  lemma CutText()
    ensures Rewrite("", [CUT]) == "k: a\\nb\n"
  {
    var line := Canonical(CUT);
    assert line == "k: a\\nb";
    assert [CUT][1..] == [] && !Seen([], "k") && Missing([], []) == [];
    assert Missing([CUT], []) == [line] + [];
    assert NewLines([CUT], SplitLines("")) == [line];
    RStripTail("k: a\\n", "b");
    assert "k: a\\n" + "b" == line;
    assert RStrip("b") == "b";
    assert RStrip(line) == line;
  }

  /** Setting `k` to the four characters `a\nb`: the value is cut at the escape. */
  lemma EscapeCutsValue()
    ensures GoodUpdates([CUT]) && NoEscape("")
    ensures Get(Parse(Rewrite("", [CUT])), "k") == Some("a")
  {
    hide NoEscape, Unescaped, Rewrite, SplitLines, Strip, Item, MetaOf, Has, Get;
    CutIsGood();
    CutText();
    CutUnescaped();
    var lines := ["k: a", "b"];
    assert lines[1..] == ["b"] && ["b"][1..] == [];
    assert Unlines([]) == "" && Unlines(["b"]) == "b" + "\n" + "" && Unlines(lines) == "k: a" + "\n" + "b\n";
    assert Unlines(lines) == "k: a\nb\n";
    SplitUnlines(lines);
    assert Parse(Rewrite("", [CUT])) == MetaOf([], lines);
    NothingHas("k");
    ItemAt("k", " a");
    assert "k" + [':'] + " a" == lines[0];
    StripOfStripped("k");
    StripIgnoresPadding(" ", "a", []);
    assert " " + "a" + [] == " a";
    StripOfStripped("a");
    assert Lower("k") == "k" && Fold("k") == "k";
    assert FirstValue(lines, "k") == Some("a");
    MetaLooksUp([], lines, "k");
  }
}
