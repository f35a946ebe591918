/** Key-value metadata in VM descriptions: the parser the services use, the repair script's rewriter,
    and their agreement. */
module Description {
  import opened Prelude
  import opened Text
  import opened Assoc

  type Meta = seq<Entry<string>>

  // ----- reading -----

  /** `str.replace`. */
  function Replace(s: string, old_: string, new_: string): string
    requires old_ != []
    decreases |s|
  {
    if |s| < |old_| then s
    else if s[..|old_|] == old_ then new_ + Replace(s[|old_|..], old_, new_)
    else [s[0]] + Replace(s[1..], old_, new_)
  }

  /** Literal backslash escapes count as line feeds. */
  function Unescaped(description: string): string {
    Replace(Replace(description, "\\r\\n", "\n"), "\\n", "\n")
  }

  /** The key and value of a line as the parser sees them. */
  function ParsedItem(raw: string): Option<Entry<string>> {
    var line := Strip(raw);
    var colon := IndexOf(line, ':');
    if colon == |line| then None else Some(Entry(Fold(line[..colon]), Strip(line[colon + 1..])))
  }

  /** The first line for a key wins; a line without a key is skipped. */
  function AddItem(meta: Meta, item: Option<Entry<string>>): Meta {
    if item.None? || item.value.key == [] || Has(meta, item.value.key) then meta else meta + [item.value]
  }

  function MetaOf(meta: Meta, lines: seq<string>): Meta
    decreases |lines|
  {
    if lines == [] then meta else MetaOf(AddItem(meta, ParsedItem(lines[0])), lines[1..])
  }

  function Parse(description: string): Meta {
    MetaOf([], SplitLines(Unescaped(description)))
  }

  method ParseDescriptionMeta(description: string) returns (meta: Meta)
    ensures meta == Parse(description)
  {
    hide Strip, Fold, Unescaped, SplitLines, Has;
    meta := [];
    var lines := SplitLines(Unescaped(description));
    var i := 0;
    while i < |lines|
      invariant i <= |lines|
      invariant MetaOf(meta, lines[i..]) == Parse(description)
    {
      assert lines[i..][0] == lines[i] && lines[i..][1..] == lines[i + 1..];
      var line := Strip(lines[i]);
      i := i + 1;
      var colon := IndexOf(line, ':');
      if colon == |line| {
        continue;
      }
      var key := Fold(line[..colon]);
      var value := Strip(line[colon + 1..]);
      if key != [] && !Has(meta, key) {
        meta := meta + [Entry(key, value)];
      }
    }
  }

  // ----- rewriting -----

  /** The normalised key of a raw line, as the rewriter sees it. */
  function RawKey(raw: string): Option<string> {
    var colon := IndexOf(raw, ':');
    if colon == |raw| then None else Some(Fold(raw[..colon]))
  }

  function Canonical(e: Entry<string>): string {
    e.key + (": " + e.value)
  }

  function RewriteLine(u: Meta, raw: string): string {
    var key := RawKey(raw);
    if key.Some? && Has(u, key.value) then Canonical(Entry(key.value, Get(u, key.value).value)) else raw
  }

  function RewriteLines(u: Meta, lines: seq<string>): seq<string> {
    seq(|lines|, i requires 0 <= i < |lines| => RewriteLine(u, lines[i]))
  }

  predicate Seen(lines: seq<string>, key: string) {
    exists l :: l in lines && RawKey(l) == Some(key)
  }

  /** The lines appended for updates no line was found for. */
  function Missing(u: Meta, lines: seq<string>): seq<string> {
    if u == [] then []
    else if Seen(lines, u[0].key) then Missing(u[1..], lines)
    else [Canonical(u[0])] + Missing(u[1..], lines)
  }

  function NewLines(u: Meta, lines: seq<string>): seq<string> {
    RewriteLines(u, lines) + Missing(u, lines)
  }

  function Rewrite(description: string, u: Meta): string {
    RStrip(Join(NewLines(u, SplitLines(description)))) + "\n"
  }

  method RewriteDescription(description: string, updates: Meta) returns (text: string, changed: bool)
    requires DistinctKeys(updates)
    ensures text == Rewrite(description, updates) && changed == (text != description)
  {
    hide Fold, RStrip, Join, SplitLines;
    var lines: seq<string> := [];
    var seen: set<string> := {};
    var raws := SplitLines(description);
    for i := 0 to |raws|
      invariant lines == RewriteLines(updates, raws[..i])
      invariant forall k :: k in seen <==> Has(updates, k) && Seen(raws[..i], k)
    {
      assert raws[..i + 1] == raws[..i] + [raws[i]];
      assert RewriteLines(updates, raws[..i + 1]) == RewriteLines(updates, raws[..i]) + [RewriteLine(updates, raws[i])];
      SeenAppend(raws[..i], raws[i]);
      var key := RawKey(raws[i]);
      if key.None? {
        lines := lines + [raws[i]];
        continue;
      }
      if Has(updates, key.value) {
        lines := lines + [key.value + (": " + Get(updates, key.value).value)];
        seen := seen + {key.value};
        continue;
      }
      lines := lines + [raws[i]];
    }
    assert raws[..|raws|] == raws;
    ghost var rewritten := lines;
    var j := 0;
    assert updates[0..] == updates;
    while j < |updates|
      invariant j <= |updates|
      invariant lines + Missing(updates[j..], raws) == NewLines(updates, raws)
    {
      assert updates[j..][0] == updates[j] && updates[j..][1..] == updates[j + 1..];
      IndexIs(updates, updates[j].key, j);
      if updates[j].key !in seen {
        lines := lines + [updates[j].key + (": " + updates[j].value)];
      }
      j := j + 1;
    }
    assert lines + [] == lines;
    text := RStrip(Join(lines)) + "\n";
    changed := text != description;
  }

  lemma SeenAppend(lines: seq<string>, l: string)
    ensures forall k :: Seen(lines + [l], k) <==> Seen(lines, k) || RawKey(l) == Some(k)
  {
    assert l in lines + [l];
  }

  // ----- the parser's view and the rewriter's view of a line agree -----

  /** Key and value straight from the raw line. */
  function Item(raw: string): Option<Entry<string>> {
    var colon := IndexOf(raw, ':');
    if colon == |raw| then None else Some(Entry(Fold(raw[..colon]), Strip(raw[colon + 1..])))
  }

  predicate Blanks(s: string) {
    forall c :: c in s ==> IsSpace(c)
  }

  lemma LStripBlanks(s: string)
    requires Blanks(s)
    ensures LStrip(s) == []
  {
    LStripPadding(s, []);
    assert s + [] == s;
  }

  lemma LStripKeeps(s: string, right: string)
    requires LStrip(s) != []
    ensures LStrip(s + right) == LStrip(s) + right
  {
    var n := LStripShape(s);
    assert s == s[..n] + s[n..];
    assert s + right == s[..n] + (s[n..] + right);
    assert Blanks(s[..n]);
    LStripPadding(s[..n], s[n..] + right);
    assert (s[n..] + right)[0] == s[n];
  }

  lemma StripIgnoresPadding(left: string, s: string, right: string)
    requires Blanks(left) && Blanks(right)
    ensures Strip(left + s + right) == Strip(s)
  {
    assert left + s + right == left + (s + right);
    LStripPadding(left, s + right);
    if LStrip(s) == [] {
      var n := LStripShape(s);
      assert s[..n] == s;
      assert Blanks(s + right);
      LStripBlanks(s + right);
    } else {
      LStripKeeps(s, right);
      RStripPadding(LStrip(s), right);
    }
  }

  lemma ItemIsParsed(raw: string)
    ensures ParsedItem(raw) == Item(raw)
  {
    hide Strip;
    var left, right := StripShape(raw);
    var line := Strip(raw);
    assert Blanks(left) && Blanks(right);
    PaddedItem(left, line, right);
  }

  lemma ItemAt(head: string, tail: string)
    requires ':' !in head
    ensures Item(head + [':'] + tail) == Some(Entry(Fold(head), Strip(tail)))
  {
    hide Strip, Fold;
    var raw := head + [':'] + tail;
    IndexOfAfter(head, ':', tail);
    assert raw[..|head|] == head && raw[|head| + 1..] == tail;
  }

  /** Blanks around a line change neither its key nor its value. */
  lemma PaddedItem(left: string, line: string, right: string)
    requires Blanks(left) && Blanks(right)
    ensures Item(left + line + right) == Item(line)
  {
    hide Strip, Blanks;
    ColonIsNoBlank(left);
    ColonIsNoBlank(right);
    var c := IndexOf(line, ':');
    if c == |line| {
      assert ':' !in left + line + right;
    } else {
      hide Item;
      var head, tail := line[..c], line[c + 1..];
      assert line == head + [':'] + tail;
      assert left + line + right == (left + head) + [':'] + (tail + right);
      ItemAt(head, tail);
      ItemAt(left + head, tail + right);
      assert Blanks([]) by { NoBlanks(); }
      StripIgnoresPadding(left, head, []);
      assert left + head + [] == left + head;
      StripIgnoresPadding([], tail, right);
      assert [] + tail + right == tail + right;
    }
  }

  lemma NoBlanks()
    ensures Blanks([])
  {
  }

  lemma ColonIsNoBlank(s: string)
    requires Blanks(s)
    ensures ':' !in s
  {
  }

  lemma KeyOfItem(raw: string)
    ensures RawKey(raw).Some? <==> Item(raw).Some?
    ensures RawKey(raw).Some? ==> RawKey(raw).value == Item(raw).value.key
  {
  }

  // ----- what a parse says about one key -----

  /** The value on the first line for `key`. */
  function FirstValue(lines: seq<string>, key: string): Option<string> {
    if lines == [] then None
    else if Item(lines[0]).Some? && Item(lines[0]).value.key == key then Some(Item(lines[0]).value.value)
    else FirstValue(lines[1..], key)
  }

  lemma {:induction false} MetaLooksUp(meta: Meta, lines: seq<string>, key: string)
    requires key != []
    ensures Get(MetaOf(meta, lines), key) == if Has(meta, key) then Get(meta, key) else FirstValue(lines, key)
    decreases |lines|
  {
    hide ParsedItem, Item, Has, Get;
    if lines == [] {
      MissingKey(meta, key);
    } else {
      var item := ParsedItem(lines[0]);
      ItemIsParsed(lines[0]);
      AddLooksUp(meta, item, key);
      MetaLooksUp(AddItem(meta, item), lines[1..], key);
    }
  }

  lemma MissingKey(meta: Meta, key: string)
    ensures !Has(meta, key) ==> Get(meta, key) == None
  {
  }

  lemma AddLooksUp(meta: Meta, item: Option<Entry<string>>, key: string)
    requires key != []
    ensures var m := AddItem(meta, item);
            && (Has(meta, key) ==> Has(m, key) && Get(m, key) == Get(meta, key))
            && (!Has(meta, key) && item.Some? && item.value.key == key ==> Has(m, key) && Get(m, key) == Some(item.value.value))
            && (!Has(meta, key) && !(item.Some? && item.value.key == key) ==> !Has(m, key))
  {
    var m := AddItem(meta, item);
    if m != meta {
      IndexIs(m, key, if Has(meta, key) then IndexOfKey(meta, key) else if item.value.key == key then |meta| else |m|);
    }
  }

  lemma {:induction false} NoEmptyKey(meta: Meta, lines: seq<string>)
    requires !Has(meta, [])
    ensures !Has(MetaOf(meta, lines), [])
    decreases |lines|
  {
    hide ParsedItem;
    if lines != [] {
      var next := AddItem(meta, ParsedItem(lines[0]));
      IndexIs(next, [], |next|);
      NoEmptyKey(next, lines[1..]);
    }
  }

  // ----- rewriting one key at a time -----

  ghost predicate GoodUpdate(e: Entry<string>) {
    e.key != [] && Fold(e.key) == e.key && ':' !in e.key && OneLine(e.key) && OneLine(e.value)
  }

  ghost predicate GoodUpdates(u: Meta) {
    DistinctKeys(u) && forall i :: 0 <= i < |u| ==> GoodUpdate(u[i])
  }

  ghost predicate EscapeFree(u: Meta) {
    forall i :: 0 <= i < |u| ==> NoEscape(u[i].key) && NoEscape(u[i].value)
  }

  /** No backslash stands before an `n`. */
  predicate NoEscape(s: string) {
    forall i :: 0 <= i < |s| - 1 ==> !(s[i] == '\\' && s[i + 1] == 'n')
  }

  lemma CanonicalItem(e: Entry<string>)
    requires GoodUpdate(e)
    ensures Item(Canonical(e)) == Some(Entry(e.key, Strip(e.value))) && RawKey(Canonical(e)) == Some(e.key)
    ensures OneLine(Canonical(e))
    ensures NoEscape(e.key) && NoEscape(e.value) ==> NoEscape(Canonical(e))
  {
    hide Fold, Strip;
    var s := Canonical(e);
    assert s == e.key + [':'] + (" " + e.value);
    IndexOfAfter(e.key, ':', " " + e.value);
    assert s[..|e.key|] == e.key && s[|e.key| + 1..] == " " + e.value;
    StripIgnoresPadding(" ", e.value, []);
    assert " " + e.value + [] == " " + e.value;
    if NoEscape(e.key) && NoEscape(e.value) {
      NoEscapeConcat(": ", e.value);
      NoEscapeConcat(e.key, ": " + e.value);
    }
  }

  lemma UpdateFound(u: Meta, key: string)
    requires GoodUpdates(u) && Has(u, key)
    ensures GoodUpdate(Entry(key, Get(u, key).value))
    ensures EscapeFree(u) ==> NoEscape(key) && NoEscape(Get(u, key).value)
  {
  }

  lemma RewrittenItem(u: Meta, raw: string)
    requires GoodUpdates(u)
    ensures RawKey(RewriteLine(u, raw)) == RawKey(raw)
    ensures Item(RewriteLine(u, raw)) ==
            if RawKey(raw).Some? && Has(u, RawKey(raw).value)
            then Some(Entry(RawKey(raw).value, Strip(Get(u, RawKey(raw).value).value))) else Item(raw)
    ensures OneLine(raw) ==> OneLine(RewriteLine(u, raw))
    ensures NoEscape(raw) && EscapeFree(u) ==> NoEscape(RewriteLine(u, raw))
  {
    hide Fold, Strip, Item, Canonical, OneLine, NoEscape, GoodUpdates, GoodUpdate, EscapeFree;
    var key := RawKey(raw);
    if key.Some? && Has(u, key.value) {
      UpdateFound(u, key.value);
      CanonicalItem(Entry(key.value, Get(u, key.value).value));
    }
  }

  lemma {:induction false} FirstValueRewritten(u: Meta, lines: seq<string>, key: string)
    requires GoodUpdates(u)
    ensures FirstValue(RewriteLines(u, lines), key) ==
            if FirstValue(lines, key).Some? && Has(u, key) then Some(Strip(Get(u, key).value)) else FirstValue(lines, key)
    decreases |lines|
  {
    hide Strip, Item, RawKey, RewriteLine, Has, Get, GoodUpdates;
    if lines != [] {
      var r := RewriteLines(u, lines);
      assert r[0] == RewriteLine(u, lines[0]) && r[1..] == RewriteLines(u, lines[1..]);
      RewrittenItem(u, lines[0]);
      KeyOfItem(lines[0]);
      FirstValueRewritten(u, lines[1..], key);
    }
  }

  lemma {:induction false} FirstValueAppend(a: seq<string>, b: seq<string>, key: string)
    ensures FirstValue(a + b, key) == if FirstValue(a, key).Some? then FirstValue(a, key) else FirstValue(b, key)
    decreases |a|
  {
    hide Item;
    if a == [] {
      assert a + b == b;
    } else {
      assert (a + b)[0] == a[0] && (a + b)[1..] == a[1..] + b;
      FirstValueAppend(a[1..], b, key);
    }
  }

  lemma {:induction false} FirstValueSeen(lines: seq<string>, key: string)
    ensures FirstValue(lines, key).Some? <==> Seen(lines, key)
    decreases |lines|
  {
    hide Item, RawKey;
    if lines != [] {
      KeyOfItem(lines[0]);
      FirstValueSeen(lines[1..], key);
      assert lines == [lines[0]] + lines[1..];
    }
  }

  lemma {:induction false} FirstValueMissing(u: Meta, lines: seq<string>, key: string)
    requires GoodUpdates(u)
    ensures FirstValue(Missing(u, lines), key) ==
            if Has(u, key) && !Seen(lines, key) then Some(Strip(Get(u, key).value)) else None
    decreases |u|
  {
    hide Strip, Item, Seen, GoodUpdate;
    if u != [] {
      assert GoodUpdate(u[0]);
      CanonicalItem(u[0]);
      FirstValueMissing(u[1..], lines, key);
      if u[0].key == key {
        IndexIs(u[1..], key, |u| - 1);
      } else {
        TailLookup(u, key);
      }
      var m := Missing(u, lines);
      if !Seen(lines, u[0].key) {
        assert m[0] == Canonical(u[0]) && m[1..] == Missing(u[1..], lines);
      }
    }
  }

  lemma FirstValueNew(u: Meta, lines: seq<string>, key: string)
    requires GoodUpdates(u)
    ensures FirstValue(NewLines(u, lines), key) ==
            if Has(u, key) then Some(Strip(Get(u, key).value)) else FirstValue(lines, key)
  {
    hide Strip, Has, Get, GoodUpdates, RewriteLines, Missing;
    FirstValueRewritten(u, lines, key);
    FirstValueMissing(u, lines, key);
    FirstValueSeen(lines, key);
    FirstValueAppend(RewriteLines(u, lines), Missing(u, lines), key);
  }

  // ----- trailing blanks -----

  /** What remains of the lines when the joined text loses its trailing blanks. */
  function TrimLines(lines: seq<string>): seq<string> {
    if lines == [] then []
    else if RStrip(Last(lines)) == [] then TrimLines(lines[..|lines| - 1])
    else lines[..|lines| - 1] + [RStrip(Last(lines))]
  }

  lemma {:induction false} JoinSnoc(lines: seq<string>, l: string)
    requires lines != []
    ensures Join(lines + [l]) == Join(lines) + ("\n" + l)
    decreases |lines|
  {
    if |lines| == 1 {
      assert (lines + [l])[1..] == [l];
    } else {
      assert (lines + [l])[1..] == lines[1..] + [l];
      JoinSnoc(lines[1..], l);
      assert lines[0] + "\n" + (Join(lines[1..]) + ("\n" + l)) == lines[0] + "\n" + Join(lines[1..]) + ("\n" + l);
    }
  }

  lemma RStripTail(s: string, t: string)
    ensures RStrip(s + t) == if RStrip(t) == [] then RStrip(s) else s + RStrip(t)
  {
    var n := RStripShape(t);
    assert t == t[..n] + t[n..];
    assert Blanks(t[n..]);
    assert s + t == (s + t[..n]) + t[n..];
    RStripPadding(s + t[..n], t[n..]);
    if n == 0 {
      assert s + t[..n] == s;
    } else {
      RStripAppend(s, t[..n]);
    }
  }

  lemma {:induction false} RStripJoin(lines: seq<string>)
    ensures RStrip(Join(lines)) == Join(TrimLines(lines))
    decreases |lines|
  {
    hide RStrip, Join;
    if lines == [] {
      JoinFew(lines);
      EmptyRStrip();
    } else if |lines| == 1 {
      JoinFew(lines);
      JoinFew([RStrip(lines[0])]);
      assert lines[..0] + [RStrip(lines[0])] == [RStrip(lines[0])];
      JoinFew(lines[..0]);
      assert TrimLines(lines[..0]) == [];
    } else {
      var init, l := lines[..|lines| - 1], Last(lines);
      assert lines == init + [l];
      JoinSnoc(init, l);
      RStripTail(Join(init), "\n" + l);
      RStripTail("\n", l);
      NewlineRStrip();
      RStripJoin(init);
      if RStrip(l) != [] {
        JoinSnoc(init, RStrip(l));
      }
    }
  }

  lemma JoinFew(lines: seq<string>)
    ensures lines == [] ==> Join(lines) == []
    ensures |lines| == 1 ==> Join(lines) == lines[0]
  {
  }

  lemma EmptyRStrip()
    ensures RStrip([]) == []
  {
  }

  lemma NewlineRStrip()
    ensures RStrip("\n") == []
  {
    assert "\n"[..0] == [];
  }

  /** The lines a rewritten description splits into. */
  function ResultLines(lines: seq<string>): seq<string> {
    if TrimLines(lines) == [] then [[]] else TrimLines(lines)
  }

  lemma {:induction false} TrimKeepsOneLine(lines: seq<string>)
    requires forall l :: l in lines ==> OneLine(l)
    ensures forall l :: l in TrimLines(lines) ==> OneLine(l)
    decreases |lines|
  {
    if lines != [] {
      hide OneLine, RStrip;
      assert lines == lines[..|lines| - 1] + [Last(lines)];
      TrimKeepsOneLine(lines[..|lines| - 1]);
      RStripOneLine(Last(lines));
    }
  }

  lemma RStripOneLine(l: string)
    ensures OneLine(l) ==> OneLine(RStrip(l))
  {
    hide RStrip;
    var n := RStripShape(l);
  }

  lemma ResultSplits(lines: seq<string>)
    requires forall l :: l in lines ==> OneLine(l)
    ensures SplitLines(RStrip(Join(lines)) + "\n") == ResultLines(lines)
  {
    hide RStrip, Join, OneLine, SplitLines;
    var trimmed := TrimLines(lines);
    RStripJoin(lines);
    TrimKeepsOneLine(lines);
    if trimmed == [] {
      JoinFew(trimmed);
      assert [] + "\n" == "\n";
      BlankSplits();
    } else {
      JoinIsUnlines(trimmed);
      SplitUnlines(trimmed);
    }
  }

  lemma BlankSplits()
    ensures SplitLines("\n") == [[]]
  {
    SplitFirstLine([], []);
    assert [] + "\n" + [] == "\n";
  }

  lemma TrimmedItem(l: string)
    ensures Item(RStrip(l)) == Item(l) && RawKey(RStrip(l)) == RawKey(l)
    ensures RStrip(l) == [] ==> Item(l) == None
  {
    hide RStrip, Strip;
    var n := RStripShape(l);
    assert l == [] + l[..n] + l[n..];
    assert Blanks(l[n..]) && Blanks([]);
    PaddedItem([], l[..n], l[n..]);
    KeyOfItem(l);
    KeyOfItem(l[..n]);
    assert Item([]) == None;
  }

  lemma {:induction false} FirstValueTrimmed(lines: seq<string>, key: string)
    ensures FirstValue(TrimLines(lines), key) == FirstValue(lines, key)
    decreases |lines|
  {
    hide Item, RStrip;
    if lines != [] {
      var init, l := lines[..|lines| - 1], Last(lines);
      assert lines == init + [l];
      TrimmedItem(l);
      FirstValueAppend(init, [l], key);
      FirstValueAppend(init, [RStrip(l)], key);
      FirstValueOne(l, key);
      FirstValueOne(RStrip(l), key);
      FirstValueTrimmed(init, key);
    }
  }

  lemma FirstValueOne(l: string, key: string)
    ensures FirstValue([l], key) == if Item(l).Some? && Item(l).value.key == key then Some(Item(l).value.value) else None
  {
    hide Item;
    assert [l][1..] == [];
  }

  // ----- escapes -----

  lemma {:induction false} NothingToReplace(s: string)
    requires NoEscape(s)
    ensures Replace(s, "\\n", "\n") == s
    decreases |s|
  {
    if |s| >= 2 {
      assert s[..2] != "\\n" by { assert s[0] == s[..2][0] && s[1] == s[..2][1]; }
      forall i | 0 <= i < |s[1..]| - 1
        ensures !(s[1..][i] == '\\' && s[1..][i + 1] == 'n')
      {
        assert s[1..][i] == s[i + 1] && s[1..][i + 1] == s[(i + 1) + 1];
      }
      NothingToReplace(s[1..]);
      assert s == [s[0]] + s[1..];
    }
  }

  lemma {:induction false} NothingLongToReplace(s: string)
    requires NoEscape(s)
    ensures Replace(s, "\\r\\n", "\n") == s
    decreases |s|
  {
    if |s| >= 4 {
      assert s[..4] != "\\r\\n" by { assert s[2] == s[..4][2] && s[3] == s[..4][3]; assert !(s[2] == '\\' && s[2 + 1] == 'n'); }
      forall i | 0 <= i < |s[1..]| - 1
        ensures !(s[1..][i] == '\\' && s[1..][i + 1] == 'n')
      {
        assert s[1..][i] == s[i + 1] && s[1..][i + 1] == s[(i + 1) + 1];
      }
      NothingLongToReplace(s[1..]);
      assert s == [s[0]] + s[1..];
    }
  }

  lemma UnescapedIsSame(s: string)
    requires NoEscape(s)
    ensures Unescaped(s) == s
  {
    NothingLongToReplace(s);
    NothingToReplace(s);
  }

  lemma NoEscapeConcat(a: string, b: string)
    requires NoEscape(a) && NoEscape(b)
    requires a == [] || b == [] || !(Last(a) == '\\' && b[0] == 'n')
    ensures NoEscape(a + b)
  {
    var s := a + b;
    forall i | 0 <= i < |s| - 1
      ensures !(s[i] == '\\' && s[i + 1] == 'n')
    {
      if i + 1 < |a| {
        assert s[i] == a[i] && s[i + 1] == a[i + 1];
      } else if i >= |a| {
        assert s[i] == b[i - |a|] && s[i + 1] == b[(i - |a|) + 1];
      }
    }
  }

  lemma NoEscapePart(s: string, from: nat, upTo: nat)
    requires NoEscape(s) && from <= upTo <= |s|
    ensures NoEscape(s[from..upTo])
  {
    var t := s[from..upTo];
    forall i | 0 <= i < |t| - 1
      ensures !(t[i] == '\\' && t[i + 1] == 'n')
    {
      assert t[i] == s[from + i] && t[i + 1] == s[(from + i) + 1];
    }
  }

  lemma {:induction false} SplitNoEscape(s: string)
    requires NoEscape(s)
    ensures forall l :: l in SplitLines(s) ==> NoEscape(l)
    decreases |s|
  {
    hide NoEscape;
    if s != [] {
      var i := BreakIndex(s);
      NoEscapePart(s, 0, i);
      assert s[0..i] == s[..i];
      if i < |s| {
        var rest := s[i + BreakWidth(s, i)..];
        NoEscapePart(s, i + BreakWidth(s, i), |s|);
        assert s[i + BreakWidth(s, i)..|s|] == rest;
        SplitNoEscape(rest);
      } else {
        assert s[..i] == s;
      }
    }
  }

  lemma {:induction false} JoinNoEscape(lines: seq<string>)
    requires forall l :: l in lines ==> NoEscape(l)
    ensures NoEscape(Join(lines))
    decreases |lines|
  {
    hide NoEscape;
    if lines == [] {
      ShortNoEscape([]);
    } else if |lines| == 1 {
      assert lines[0] in lines;
    } else {
      assert lines[0] in lines && forall l :: l in lines[1..] ==> l in lines;
      JoinNoEscape(lines[1..]);
      ShortNoEscape("\n");
      NoEscapeConcat(lines[0], "\n");
      NoEscapeConcat(lines[0] + "\n", Join(lines[1..]));
    }
  }

  lemma ShortNoEscape(s: string)
    requires |s| <= 1
    ensures NoEscape(s)
  {
  }

  // ----- the two theorems -----

  lemma {:induction false} MissingLinesFit(u: Meta, lines: seq<string>)
    requires GoodUpdates(u)
    ensures forall l :: l in Missing(u, lines) ==> OneLine(l) && (EscapeFree(u) ==> NoEscape(l))
    decreases |u|
  {
    hide OneLine, NoEscape, GoodUpdate, Seen;
    if u != [] {
      assert GoodUpdate(u[0]);
      CanonicalItem(u[0]);
      MissingLinesFit(u[1..], lines);
    }
  }

  lemma NewLinesFit(d: string, u: Meta)
    requires GoodUpdates(u)
    ensures forall l :: l in NewLines(u, SplitLines(d)) ==> OneLine(l)
    ensures NoEscape(d) && EscapeFree(u) ==> forall l :: l in NewLines(u, SplitLines(d)) ==> NoEscape(l)
  {
    hide OneLine, NoEscape, GoodUpdates, EscapeFree, RewriteLine, Missing, SplitLines;
    var lines := SplitLines(d);
    SplitLinesAreLines(d);
    if NoEscape(d) { SplitNoEscape(d); }
    MissingLinesFit(u, lines);
    forall i | 0 <= i < |lines|
      ensures OneLine(RewriteLine(u, lines[i])) && (NoEscape(d) && EscapeFree(u) ==> NoEscape(RewriteLine(u, lines[i])))
    {
      assert lines[i] in lines;
      RewrittenItem(u, lines[i]);
    }
  }

  lemma RewriteNoEscape(d: string, u: Meta)
    requires GoodUpdates(u) && NoEscape(d) && EscapeFree(u)
    ensures NoEscape(Rewrite(d, u))
  {
    hide NoEscape, GoodUpdates, EscapeFree, NewLines, RStrip, Join;
    var joined := Join(NewLines(u, SplitLines(d)));
    NewLinesFit(d, u);
    JoinNoEscape(NewLines(u, SplitLines(d)));
    var n := RStripShape(joined);
    NoEscapePart(joined, 0, n);
    assert joined[0..n] == joined[..n];
    ShortNoEscape("\n");
    NoEscapeConcat(RStrip(joined), "\n");
  }

  /** Parsing a rewritten description gives each updated key its stripped new value and every other key
      the value it had. */
  lemma RewriteThenParse(d: string, u: Meta, key: string)
    requires GoodUpdates(u) && NoEscape(d) && EscapeFree(u)
    ensures Get(Parse(Rewrite(d, u)), key) == if Has(u, key) then Some(Strip(Get(u, key).value)) else Get(Parse(d), key)
  {
    hide NoEscape, GoodUpdates, EscapeFree, NewLines, RStrip, Join, SplitLines, MetaOf, TrimLines, Has, Get, Strip, Rewrite, Unescaped;
    var lines := SplitLines(d);
    var text := Rewrite(d, u);
    RewriteNoEscape(d, u);
    UnescapedIsSame(d);
    UnescapedIsSame(text);
    RewriteSplits(d, u);
    if key == [] {
      EmptyKeyAbsent(d);
      EmptyKeyAbsent(text);
      NoEmptyUpdate(u);
    } else {
      MetaLooksUp([], lines, key);
      MetaLooksUp([], SplitLines(text), key);
      NothingHas(key);
      FirstValueNew(u, lines, key);
      FirstValueTrimmed(NewLines(u, lines), key);
      FirstValueOne([], key);
      BlankItem();
    }
  }

  lemma RewriteSplits(d: string, u: Meta)
    requires GoodUpdates(u)
    ensures SplitLines(Rewrite(d, u)) == ResultLines(NewLines(u, SplitLines(d)))
  {
    hide GoodUpdates, NewLines, RStrip, Join, SplitLines, OneLine, NoEscape;
    NewLinesFit(d, u);
    ResultSplits(NewLines(u, SplitLines(d)));
  }

  lemma BlankItem()
    ensures Item([]) == None
  {
  }

  lemma NothingHas(key: string)
    ensures !Has<string>([], key)
  {
  }

  lemma EmptyKeyAbsent(d: string)
    ensures Get(Parse(d), []) == None
  {
    hide SplitLines, Unescaped;
    NothingHas([]);
    NoEmptyKey([], SplitLines(Unescaped(d)));
    MissingKey(Parse(d), []);
  }

  lemma NoEmptyUpdate(u: Meta)
    requires GoodUpdates(u)
    ensures !Has(u, [])
  {
    IndexIs(u, [], |u|);
  }

  // ----- rewriting twice -----

  lemma RewriteLineIdempotent(u: Meta, raw: string)
    requires GoodUpdates(u)
    ensures RewriteLine(u, RewriteLine(u, raw)) == RewriteLine(u, raw)
  {
    hide RawKey, Canonical, GoodUpdates, Has, Get;
    RewrittenItem(u, raw);
  }

  lemma RewriteTrimmed(u: Meta, l: string)
    requires RewriteLine(u, l) == l
    ensures RStrip(RewriteLine(u, RStrip(l))) == RStrip(RStrip(l)) && RawKey(RStrip(l)) == RawKey(l)
  {
    hide RStrip, RawKey, Has, Get, Canonical;
    TrimmedItem(l);
    RStripTwice(l);
  }

  lemma RStripTwice(l: string)
    ensures RStrip(RStrip(l)) == RStrip(l)
  {
    hide RStrip;
    var n := RStripShape(l);
    assert l == l[..n] + l[n..];
    RStripPadding(l[..n], l[n..]);
  }

  lemma {:induction false} NewLineSettled(u: Meta, lines: seq<string>)
    requires GoodUpdates(u)
    ensures var all := NewLines(u, lines);
            && (forall i :: 0 <= i < |all| ==> RewriteLine(u, all[i]) == all[i])
            && (forall i :: 0 <= i < |u| ==> Seen(all, u[i].key))
  {
    hide RewriteLine, GoodUpdate, RawKey, Canonical;
    var all := NewLines(u, lines);
    MissingSettled(u, u, lines);
    forall i | 0 <= i < |all|
      ensures RewriteLine(u, all[i]) == all[i]
    {
      if i < |lines| {
        RewriteLineIdempotent(u, lines[i]);
      } else {
        assert all[i] == Missing(u, lines)[i - |lines|];
      }
    }
    forall i | 0 <= i < |u|
      ensures Seen(all, u[i].key)
    {
      if Seen(lines, u[i].key) {
        var l :| l in lines && RawKey(l) == Some(u[i].key);
        var k :| 0 <= k < |lines| && lines[k] == l;
        RewrittenItem(u, l);
        assert all[k] == RewriteLine(u, l);
        assert all[k] in all;
      } else {
        var l :| l in Missing(u, lines) && RawKey(l) == Some(u[i].key);
        assert l in all;
      }
    }
  }

  lemma {:induction false} MissingSettled(all: Meta, u: Meta, lines: seq<string>)
    requires GoodUpdates(all) && DistinctKeys(u)
    requires forall i :: 0 <= i < |u| ==> Get(all, u[i].key) == Some(u[i].value) && GoodUpdate(u[i])
    ensures forall l :: l in Missing(u, lines) ==> RewriteLine(all, l) == l
    ensures forall i :: 0 <= i < |u| && !Seen(lines, u[i].key) ==>
              exists l :: l in Missing(u, lines) && RawKey(l) == Some(u[i].key)
    decreases |u|
  {
    if u != [] {
      hide Seen, GoodUpdate, GoodUpdates, Canonical, RawKey;
      CanonicalItem(u[0]);
      MissingSettled(all, u[1..], lines);
      var m := Missing(u, lines);
      if !Seen(lines, u[0].key) {
        assert m == [Canonical(u[0])] + Missing(u[1..], lines);
        assert Canonical(u[0]) in m;
      }
      forall i | 0 <= i < |u| && !Seen(lines, u[i].key)
        ensures exists l :: l in m && RawKey(l) == Some(u[i].key)
      {
        if i > 0 {
          assert u[i] == u[1..][i - 1];
          var l :| l in Missing(u[1..], lines) && RawKey(l) == Some(u[1..][i - 1].key);
          assert l in m;
        }
      }
    }
  }

  lemma {:induction false} TrimmedSettled(u: Meta, lines: seq<string>)
    requires forall i :: 0 <= i < |lines| ==> RewriteLine(u, lines[i]) == lines[i]
    ensures var t := TrimLines(lines);
            && (forall i :: 0 <= i < |t| ==> RStrip(RewriteLine(u, t[i])) == RStrip(t[i]))
            && (forall i :: 0 <= i < |t| - 1 ==> RewriteLine(u, t[i]) == t[i])
            && (forall k :: Seen(lines, k) <==> Seen(t, k))
            && (t != [] ==> RStrip(Last(t)) == Last(t) && Last(t) != [])
    decreases |lines|
  {
    hide RewriteLine, RawKey, RStrip;
    if lines != [] {
      var init, l := lines[..|lines| - 1], Last(lines);
      assert lines == init + [l];
      TrimmedItem(l);
      SeenAppend(init, l);
      KeyOfItem(l);
      if RStrip(l) == [] {
        TrimmedSettled(u, init);
      } else {
        SeenAppend(init, RStrip(l));
        RewriteTrimmed(u, l);
        RStripTwice(l);
      }
    }
  }

  lemma {:induction false} NothingMissing(u: Meta, lines: seq<string>)
    requires forall i :: 0 <= i < |u| ==> Seen(lines, u[i].key)
    ensures Missing(u, lines) == []
  {
    hide Seen;
    if u != [] {
      NothingMissing(u[1..], lines);
    }
  }

  /** Rewriting again with the same updates changes nothing. */
  lemma RewriteTwice(d: string, u: Meta)
    requires GoodUpdates(u)
    ensures Rewrite(Rewrite(d, u), u) == Rewrite(d, u)
  {
    hide GoodUpdates, NewLines, RStrip, Join, SplitLines, Rewrite, TrimLines, RewriteLine, Seen, Missing;
    var all := NewLines(u, SplitLines(d));
    var t := TrimLines(all);
    var text := Rewrite(d, u);
    RewriteSplits(d, u);
    NewLineSettled(u, SplitLines(d));
    TrimmedSettled(u, all);
    RewriteText(d, u);
    RewriteText(text, u);
    SameTrim(u, all, t);
  }

  lemma RewriteText(d: string, u: Meta)
    ensures Rewrite(d, u) == Join(TrimLines(NewLines(u, SplitLines(d)))) + "\n"
  {
    hide RStrip, Join, SplitLines, TrimLines, NewLines;
    RStripJoin(NewLines(u, SplitLines(d)));
  }

  lemma SameTrim(u: Meta, all: seq<string>, t: seq<string>)
    requires t == TrimLines(all)
    requires forall i :: 0 <= i < |t| ==> RStrip(RewriteLine(u, t[i])) == RStrip(t[i])
    requires forall i :: 0 <= i < |t| - 1 ==> RewriteLine(u, t[i]) == t[i]
    requires forall i :: 0 <= i < |u| ==> Seen(all, u[i].key)
    requires forall k :: Seen(all, k) <==> Seen(t, k)
    requires t != [] ==> RStrip(Last(t)) == Last(t) && Last(t) != []
    ensures TrimLines(NewLines(u, ResultLines(all))) == t
  {
    hide RStrip, RewriteLine, RawKey, Seen, Missing;
    if t == [] {
      NothingSeen();
      assert u == [] || Seen(all, u[0].key);
      NothingMissing(u, [[]]);
      assert NewLines(u, [[]]) == [RewriteLine(u, [])];
      BlankRewrites(u);
    } else {
      NothingMissing(u, t);
      var again := NewLines(u, t);
      assert |again| == |t| && again[..|t| - 1] == t[..|t| - 1] && Last(again) == RewriteLine(u, Last(t));
      assert t == t[..|t| - 1] + [Last(t)];
    }
  }

  lemma NothingSeen()
    ensures forall k :: !Seen([], k)
  {
  }

  lemma BlankRewrites(u: Meta)
    ensures TrimLines([RewriteLine(u, [])]) == []
  {
    assert RewriteLine(u, []) == [];
    assert RStrip([]) == [];
    var one: seq<string> := [[]];
    assert one[..0] == [];
  }
}
