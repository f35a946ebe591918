/** The layouts a seed configuration may be written in, and the proof that the parser reads all of them back
    exactly. */
module SeedLayouts {
  import opened Prelude
  import opened Text
  import opened Assoc
  import opened SeedYaml
  import opened SeedScalars

  // ----- layouts -----

  predicate GoodKey(k: string) {
    k != [] && Stripped(k) && OneLine(k) && ':' !in k && k[0] != '#'
  }

  predicate Blank(s: string) {
    forall c :: c in s ==> IsSpace(c) && !IsBreak(c)
  }

  /** The text is on one line, without blanks around it, and a way to write the value. */
  ghost predicate Spelled(text: string, v: Value) {
    text != [] && Stripped(text) && OneLine(text) && Spells(text, v)
  }

  predicate KeyParts(raw: string, lead: string, k: string, a: string, b: string, text: string, c: string) {
    && Blank(lead) && Blank(a) && Blank(b) && Blank(c) && !IsItem(k + a)
    && raw == lead + (k + a + [':'] + b + text + c)
  }

  /** A line for the key at the indent, followed by the text; blanks are free around key and text. */
  ghost predicate KeyLine(raw: string, indent: nat, k: string, text: string) {
    GoodKey(k) && exists lead, a, b, c :: KeyParts(raw, lead, k, a, b, text, c) && |lead| == indent
  }

  predicate ItemParts(raw: string, lead: string, b: string, text: string, c: string) {
    Blank(lead) && Blank(b) && Blank(c) && raw == lead + ("- " + b + text + c)
  }

  /** A line with the value as a list item, at any indent. */
  ghost predicate ItemLine(raw: string, v: Value) {
    exists lead, b, text, c :: ItemParts(raw, lead, b, text, c) && Spelled(text, v)
  }

  /** The lines are a layout of the map, its keys at the indent. */
  ghost predicate LaidOut(lines: seq<string>, es: seq<Entry<Value>>, indent: nat)
    decreases es, 0
  {
    && DistinctKeys(es)
    && if es == [] then lines == []
       else exists n: nat :: n <= |lines| && EntryLaidOut(lines[..n], es[0], indent) && LaidOut(lines[n..], es[1..], indent)
  }

  /** A map or list goes on the lines after its key: a map indented by two or more, a list anyhow. */
  ghost predicate EntryLaidOut(lines: seq<string>, e: Entry<Value>, indent: nat)
    decreases e, 1
  {
    match e.value
    case Dict(sub) =>
      && lines != [] && KeyLine(lines[0], indent, e.key, [])
      && exists inner: nat :: indent + 2 <= inner && LaidOut(lines[1..], sub, inner)
    case List(items) =>
      && |lines| == 1 + |items| && items != [] && KeyLine(lines[0], indent, e.key, [])
      && ItemLines(lines[1..], items)
    case _ =>
      |lines| == 1 && exists text :: Spelled(text, e.value) && KeyLine(lines[0], indent, e.key, text)
  }

  ghost predicate ItemLines(lines: seq<string>, items: seq<Value>) {
    |lines| == |items| && forall i :: 0 <= i < |items| ==> ItemLine(lines[i], items[i])
  }

  /** A line that says nothing: blank, or a comment. */
  ghost predicate Noise(line: string) {
    exists i :: NoiseUpTo(line, i)
  }

  predicate NoiseUpTo(line: string, i: nat) {
    i <= |line| && (i == |line| || line[i] == '#') && forall j :: 0 <= j < i ==> IsSpace(line[j])
  }

  ghost predicate Says(line: string) {
    !Noise(line)
  }

  // ----- one line -----

  /** A line is its indent, its text, and blanks. */
  lemma LineParts(lead: string, core: string, end: string)
    requires Blank(lead) && Blank(end) && core != [] && Stripped(core)
    ensures var raw := lead + (core + end);
            Strip(raw) == core && |raw| - |LStrip(raw)| == |lead|
  {
    hide LStrip, RStrip, IsBreak, IsSpace;
    StripPadding(lead, core, end);
    assert lead + core + end == lead + (core + end);
    LStripPadding(lead, core + end);
    StartsAtOnce(core + end) by { assert (core + end)[0] == core[0]; }
  }

  lemma StartsAtOnce(s: string)
    requires s != [] && !IsSpace(s[0])
    ensures LStrip(s) == s
  {
  }

  /** Text with blanks in front, and nothing else. */
  lemma StripLeft(b: string, text: string)
    requires Blank(b) && Stripped(text)
    ensures Strip(b + text) == text && Strip(text + b) == text
  {
    StripPadding(b, text, []);
    StripPadding([], text, b);
    assert b + text + [] == b + text && [] + text + b == text + b;
  }

  lemma KeyText(k: string, a: string, b: string, text: string)
    requires GoodKey(k) && Blank(a) && Blank(b) && Stripped(text) && !IsItem(k + a)
    ensures var core := k + a + [':'] + (b + text);
            && IndexOf(core, ':') == |k + a| && core[..|k + a|] == k + a && core[|k + a| + 1..] == b + text
            && Strip(k + a) == k && Strip(b + text) == text && !IsItem(core) && core[0] != '#'
  {
    hide Strip, IsBreak;
    var core := k + a + [':'] + (b + text);
    assert forall c :: c in a ==> c != ':';
    IndexOfAfter(k + a, ':', b + text);
    StripLeft(a, k);
    StripLeft(b, text);
    assert core[0] == k[0] == (k + a)[0];
    if |k + a| >= 2 { assert core[1] == (k + a)[1]; } else { assert core[1] == ':'; }
  }

  /** What the parser makes of a line with a key. */
  lemma KeyLineSteps(st: State, raw: string, indent: nat, k: string, text: string)
    requires KeyLine(raw, indent, k, text) && Stripped(text) && OneLine(text)
    ensures Step(st, raw) == AddKey(st, indent, k, text) && DataLine(raw) && OneLine(raw)
  {
    hide AddKey, Strip, LStrip, Blank, IsItem, GoodKey, Stripped, OneLine;
    var lead, a, b, c :| KeyParts(raw, lead, k, a, b, text, c) && |lead| == indent;
    KeyLineIsOne(raw, lead, k, a, b, text, c);
    if text == [] {
      SectionCore(raw, lead, k, a, b, c);
      KeyText(k, a, [], []) by { EmptyIsBlank(); }
      var core := k + a + [':'];
      assert core == core + ([] + []);
      assert core[..|k + a|] == k + a && core[|k + a| + 1..] == [];
    } else {
      ScalarCore(raw, lead, k, a, b, text, c);
      KeyText(k, a, b, text);
    }
  }

  lemma EmptyIsBlank()
    ensures Blank([]) && Stripped([])
  {
  }

  lemma SectionCore(raw: string, lead: string, k: string, a: string, b: string, c: string)
    requires KeyParts(raw, lead, k, a, b, [], c) && GoodKey(k)
    ensures Strip(raw) == k + a + [':'] && |raw| - |LStrip(raw)| == |lead|
  {
    hide Strip, LStrip, IsItem, OneLine, IsSpace;
    var core := k + a + [':'];
    ColonIsNoBlank();
    assert core[0] == k[0] && Last(core) == ':';
    assert Blank(b + c);
    LineParts(lead, core, b + c);
    assert raw == lead + (core + (b + c));
  }

  lemma ScalarCore(raw: string, lead: string, k: string, a: string, b: string, text: string, c: string)
    requires KeyParts(raw, lead, k, a, b, text, c) && GoodKey(k) && text != [] && Stripped(text)
    ensures Strip(raw) == k + a + [':'] + (b + text) && |raw| - |LStrip(raw)| == |lead|
  {
    hide Strip, LStrip, IsItem, OneLine, IsSpace;
    var core := k + a + [':'] + (b + text);
    assert core[0] == k[0] && Last(core) == Last(text);
    LineParts(lead, core, c);
    assert raw == lead + (core + c);
  }

  lemma ColonIsNoBlank()
    ensures !IsSpace(':') && !IsSpace('-')
  {
  }

  lemma KeyLineIsOne(raw: string, lead: string, k: string, a: string, b: string, text: string, c: string)
    requires KeyParts(raw, lead, k, a, b, text, c) && GoodKey(k) && OneLine(text)
    ensures OneLine(raw)
  {
    hide IsItem, Stripped, IsSpace;
    assert forall x :: x in raw ==> x in lead || x in k || x in a || x == ':' || x in b || x in text || x in c;
  }

  /** What the parser makes of a line with a list item. */
  lemma ItemLineSteps(st: State, raw: string, v: Value)
    requires ItemLine(raw, v)
    ensures Step(st, raw) == AddItem(st, v) && DataLine(raw) && OneLine(raw)
  {
    hide AddItem, Strip, LStrip, Coerce, Spells, OneLine, IsBreak, IsSpace;
    var lead, b, text, c :| ItemParts(raw, lead, b, text, c) && Spelled(text, v);
    var core := "- " + (b + text);
    assert Last(core) == Last(text);
    ColonIsNoBlank();
    LineParts(lead, core, c);
    assert raw == lead + (core + c);
    assert core[2..] == b + text;
    StripLeft(b, text);
    CoerceExactly(text, v);
    ItemLineIsOne(raw, lead, b, text, c);
  }

  lemma ItemLineIsOne(raw: string, lead: string, b: string, text: string, c: string)
    requires ItemParts(raw, lead, b, text, c) && OneLine(text)
    ensures OneLine(raw)
  {
    hide IsSpace;
    assert forall x :: x in raw ==> x in lead || x == '-' || x == ' ' || x in b || x in text || x in c;
  }

  // ----- what a cell of the store stands for -----

  /** The cell holds `v`, using only dictionaries numbered `lo` and up. */
  ghost predicate Denotes(heap: seq<Node>, lo: nat, cell: Cell, v: Value)
    decreases v
  {
    match v
    case Dict(es) => cell.Ref? && lo <= cell.id < |heap| && NodeDenotes(heap, cell.id + 1, heap[cell.id], es)
    case _ => cell == Leaf(v)
  }

  ghost predicate NodeDenotes(heap: seq<Node>, lo: nat, node: Node, es: seq<Entry<Value>>)
    decreases es
  {
    && |node| == |es|
    && forall i :: 0 <= i < |es| ==> node[i].key == es[i].key && Denotes(heap, lo, node[i].value, es[i].value)
  }

  /** Dictionaries below `lo` and new ones do not matter. */
  lemma {:induction false} DenotesStable(heap: seq<Node>, heap': seq<Node>, lo: nat, cell: Cell, v: Value)
    requires |heap| <= |heap'| && forall i :: lo <= i < |heap| ==> heap'[i] == heap[i]
    requires Denotes(heap, lo, cell, v)
    ensures Denotes(heap', lo, cell, v)
    decreases v
  {
    if v.Dict? {
      forall i | 0 <= i < |v.entries|
        ensures Denotes(heap', cell.id + 1, heap[cell.id][i].value, v.entries[i].value)
      {
        DenotesStable(heap, heap', cell.id + 1, heap[cell.id][i].value, v.entries[i].value);
      }
    }
  }

  lemma {:induction false} DenotesResolves(heap: seq<Node>, id: nat, es: seq<Entry<Value>>)
    requires id < |heap| && NodeDenotes(heap, id + 1, heap[id], es)
    ensures Resolve(heap, id) == Dict(es)
    decreases es
  {
    forall i | 0 <= i < |es|
      ensures ResolveCell(heap, id, heap[id][i].value) == es[i].value
    {
      var v := es[i].value;
      if v.Dict? {
        DenotesResolves(heap, heap[id][i].value.id, v.entries);
      }
    }
    assert Resolve(heap, id).entries == es;
  }

  // ----- reading one dictionary's lines -----

  /** `m` levels of the stack belong to the enclosing dictionaries; level `m - 1` is the one being
      filled by keys at `indent`; anything above is left over from deeper lines. */
  ghost predicate Filling(st: State, indent: nat, m: nat) {
    && Shape(st) && 0 < m <= |st.stack|
    && st.stack[m - 1].indent <= indent && (m < |st.stack| ==> indent < st.stack[m].indent)
  }

  lemma {:induction false} PopTo(st: State, indent: nat, m: nat)
    requires Filling(st, indent, m)
    ensures Pop(st, indent) == State(st.heap, st.stack[..m], st.lastKeys[..m])
    decreases |st.stack|
  {
    if |st.stack| > m {
      var shorter := State(st.heap, st.stack[..|st.stack| - 1], st.lastKeys[..|st.lastKeys| - 1]);
      assert m < |st.stack| - 1 ==> st.stack[m].indent < Last(st.stack).indent;
      PopTo(shorter, indent, m);
      assert shorter.stack[..m] == st.stack[..m] && shorter.lastKeys[..m] == st.lastKeys[..m];
    } else {
      assert st.stack[..m] == st.stack && st.lastKeys[..m] == st.lastKeys;
    }
  }

  /** What reading some lines of the dictionary at level `m - 1` leaves alone. */
  ghost predicate Kept(st: State, st': State, indent: nat, m: nat) {
    && Filling(st', indent, m) && m <= |st.stack| && st'.stack[..m] == st.stack[..m]
    && |st.heap| <= |st'.heap|
    && (forall i :: 0 <= i < |st.heap| && i != st'.stack[m - 1].id ==> st'.heap[i] == st.heap[i])
  }

  lemma KeptTransitive(a: State, b: State, c: State, indent: nat, m: nat)
    requires Filling(a, indent, m) && Kept(a, b, indent, m) && Kept(b, c, indent, m)
    ensures Kept(a, c, indent, m)
  {
    assert b.stack[m - 1] == b.stack[..m][m - 1] == c.stack[..m][m - 1] == c.stack[m - 1];
  }

  ghost predicate Lacks(node: Node, k: string) {
    forall i :: 0 <= i < |node| ==> node[i].key != k
  }

  lemma NewKey(d: Node, k: string, cell: Cell)
    requires Lacks(d, k)
    ensures Put(d, k, cell) == d + [Entry(k, cell)] && Get(d + [Entry(k, cell)], k) == Some(cell)
    ensures forall c :: Put(d + [Entry(k, cell)], k, c) == d + [Entry(k, c)]
  {
    IndexIs(d, k, |d|);
    IndexIs(d + [Entry(k, cell)], k, |d|);
  }

  lemma ReadScalar(st: State, raw: string, indent: nat, m: nat, k: string, text: string, v: Value)
    requires Filling(st, indent, m) && KeyLine(raw, indent, k, text) && Spelled(text, v)
    requires Lacks(st.heap[st.stack[m - 1].id], k)
    ensures var st' := Step(st, raw);
            var d := st.stack[m - 1].id;
            Kept(st, st', indent, m) && st'.heap[d] == st.heap[d] + [Entry(k, Leaf(v))]
  {
    hide Coerce, Pop, KeyLine, Put, Get, Step, Spells, OneLine, Stripped;
    KeyLineSteps(st, raw, indent, k, text);
    CoerceExactly(text, v);
    PopTo(st, indent, m);
    StepShape(st, raw);
    NewKey(st.heap[st.stack[m - 1].id], k, Leaf(v));
  }

  lemma OpenSection(st: State, raw: string, indent: nat, m: nat, k: string)
    requires Filling(st, indent, m) && KeyLine(raw, indent, k, [])
    requires Lacks(st.heap[st.stack[m - 1].id], k)
    ensures var st' := Step(st, raw);
            var d := st.stack[m - 1].id;
            && Kept(st, st', indent, m) && st'.heap[d] == st.heap[d] + [Entry(k, Ref(|st.heap|))]
            && |st'.heap| == |st.heap| + 1 && st'.heap[|st.heap|] == []
            && st'.stack == st.stack[..m] + [Frame(indent + 2, |st.heap|)]
            && st'.lastKeys[m..] == [""] && st'.lastKeys[m - 1] == k
  {
    hide Pop, KeyLine, Put, Get, Step;
    KeyLineSteps(st, raw, indent, k, []);
    PopTo(st, indent, m);
    StepShape(st, raw);
    NewKey(st.heap[st.stack[m - 1].id], k, Ref(|st.heap|));
  }

  /** Reading items while the key being filled holds a list of `had`. */
  lemma {:induction false} ReadItems(st: State, lines: seq<string>, indent: nat, m: nat, base: Node, k: string, had: seq<Value>, items: seq<Value>)
    requires Filling(st, indent, m) && |st.stack| == m + 1 && st.lastKeys[m] == [] && st.lastKeys[m - 1] == k && k != []
    requires ItemLines(lines, items)
    requires Lacks(base, k)
    requires var d := st.stack[m - 1].id;
             if had == [] then st.heap[d] == base + [Entry(k, Ref(st.stack[m].id))]
             else st.heap[d] == base + [Entry(k, Leaf(List(had)))]
    requires had + items != []
    ensures var st' := Steps(st, lines);
            var d := st.stack[m - 1].id;
            Kept(st, st', indent, m) && st'.heap[d] == base + [Entry(k, Leaf(List(had + items)))]
    decreases |items|
  {
    hide ItemLine, Put, Get, Step;
    if items == [] {
      assert had + items == had;
    } else {
      var st1 := Step(st, lines[0]);
      ItemLineSteps(st, lines[0], items[0]);
      StepShape(st, lines[0]);
      FirstItem(st, m, base, k, had, items[0]);
      ReadItems(st1, lines[1..], indent, m, base, k, had + [items[0]], items[1..]);
      assert had + [items[0]] + items[1..] == had + items;
      KeptTransitive(st, st1, Steps(st, lines), indent, m);
    }
  }

  lemma FirstItem(st: State, m: nat, base: Node, k: string, had: seq<Value>, v: Value)
    requires Shape(st) && 0 < m && |st.stack| == m + 1 && st.lastKeys[m] == [] && st.lastKeys[m - 1] == k && k != []
    requires Lacks(base, k)
    requires var d := st.stack[m - 1].id;
             if had == [] then st.heap[d] == base + [Entry(k, Ref(st.stack[m].id))]
             else st.heap[d] == base + [Entry(k, Leaf(List(had)))]
    ensures AddItem(st, v) == st.(heap := st.heap[st.stack[m - 1].id := base + [Entry(k, Leaf(List(had + [v])))]])
  {
    hide Put, Get;
    assert ListLevel(st.lastKeys) == m - 1;
    var d := st.stack[m - 1].id;
    var cell := if had == [] then Ref(st.stack[m].id) else Leaf(List(had));
    NewKey(base, k, cell);
  }

  // ----- reading a whole document -----

  lemma FirstEntry(lines: seq<string>, es: seq<Entry<Value>>, indent: nat) returns (n: nat)
    requires LaidOut(lines, es, indent) && es != []
    ensures n <= |lines| && EntryLaidOut(lines[..n], es[0], indent) && LaidOut(lines[n..], es[1..], indent)
    ensures lines == lines[..n] + lines[n..] && DistinctKeys(es)
  {
    n :| n <= |lines| && EntryLaidOut(lines[..n], es[0], indent) && LaidOut(lines[n..], es[1..], indent);
  }

  lemma {:induction false} ReadDoc(st: State, lines: seq<string>, es: seq<Entry<Value>>, indent: nat, m: nat)
    requires Filling(st, indent, m) && LaidOut(lines, es, indent)
    requires forall j :: 0 <= j < |es| ==> Lacks(st.heap[st.stack[m - 1].id], es[j].key)
    ensures var st' := Steps(st, lines);
            var d := st.stack[m - 1].id;
            && Kept(st, st', indent, m)
            && |st'.heap[d]| == |st.heap[d]| + |es| && st'.heap[d][..|st.heap[d]|] == st.heap[d]
            && NodeDenotes(st'.heap, |st.heap|, st'.heap[d][|st.heap[d]|..], es)
    decreases es, 0
  {
    var d := st.stack[m - 1].id;
    var had := st.heap[d];
    hide Step, Denotes, NodeDenotes, Kept, Filling, EntryLaidOut;
    if es == [] {
      EmptyDoc(st, indent, m);
    } else {
      var n := FirstEntry(lines, es, indent);
      hide LaidOut;
      var first, rest := lines[..n], lines[n..];
      StepsAppend(st, first, rest);
      var st1 := Steps(st, first);
      var cell := ReadEntry(st, first, es[0], indent, m);
      SameFrame(st, st1, indent, m);
      OthersLack(had, es, cell);
      hide Lacks, Steps;
      ReadDoc(st1, rest, es[1..], indent, m);
      var st' := Steps(st1, rest);
      KeptTransitive(st, st1, st', indent, m);
      SameFrame(st1, st', indent, m);
      JoinDenotations(st, st1, st', indent, m, es, cell);
    }
  }

  lemma OthersLack(had: Node, es: seq<Entry<Value>>, cell: Cell)
    requires es != [] && DistinctKeys(es) && forall j :: 0 <= j < |es| ==> Lacks(had, es[j].key)
    ensures forall j :: 0 <= j < |es[1..]| ==> Lacks(had + [Entry(es[0].key, cell)], es[1..][j].key)
  {
    forall j | 0 <= j < |es[1..]|
      ensures Lacks(had + [Entry(es[0].key, cell)], es[1..][j].key)
    {
      assert Lacks(had, es[j + 1].key);
    }
  }

  lemma EmptyDoc(st: State, indent: nat, m: nat)
    requires Filling(st, indent, m)
    ensures Kept(st, st, indent, m)
    ensures var d := st.stack[m - 1].id;
            st.heap[d][..|st.heap[d]|] == st.heap[d] && NodeDenotes(st.heap, |st.heap|, st.heap[d][|st.heap[d]|..], [])
  {
  }

  lemma SameFrame(st: State, st1: State, indent: nat, m: nat)
    requires Filling(st, indent, m) && Kept(st, st1, indent, m)
    ensures Filling(st1, indent, m) && st1.stack[m - 1] == st.stack[m - 1] && |st.heap| <= |st1.heap|
    ensures st.stack[m - 1].id < |st.heap|
  {
    assert st1.stack[..m][m - 1] == st.stack[..m][m - 1];
  }

  lemma JoinDenotations(st: State, st1: State, st': State, indent: nat, m: nat, es: seq<Entry<Value>>, cell: Cell)
    requires Filling(st, indent, m) && Kept(st, st1, indent, m) && Kept(st1, st', indent, m) && es != []
    requires var d := st.stack[m - 1].id;
             && d < |st.heap| <= |st1.heap| <= |st'.heap|
             && st1.heap[d] == st.heap[d] + [Entry(es[0].key, cell)] && Denotes(st1.heap, |st.heap|, cell, es[0].value)
             && |st'.heap[d]| == |st1.heap[d]| + |es| - 1 && st'.heap[d][..|st1.heap[d]|] == st1.heap[d]
             && NodeDenotes(st'.heap, |st1.heap|, st'.heap[d][|st1.heap[d]|..], es[1..])
    ensures var d := st.stack[m - 1].id;
            && st'.heap[d][..|st.heap[d]|] == st.heap[d]
            && NodeDenotes(st'.heap, |st.heap|, st'.heap[d][|st.heap[d]|..], es)
  {
    var d := st.stack[m - 1].id;
    hide Denotes;
    var had, node := |st.heap[d]|, st'.heap[d];
    assert st'.stack[m - 1] == st1.stack[m - 1] == st.stack[m - 1] by {
      assert st'.stack[..m][m - 1] == st1.stack[..m][m - 1] == st.stack[..m][m - 1];
    }
    assert node[..had] == node[..had + 1][..had] == st.heap[d];
    DenotesStable(st1.heap, st'.heap, |st.heap|, cell, es[0].value);
    var tail := node[had..];
    assert tail[0] == node[..had + 1][had] == Entry(es[0].key, cell);
    forall i | 1 <= i < |es|
      ensures tail[i].key == es[i].key && Denotes(st'.heap, |st.heap|, tail[i].value, es[i].value)
    {
      assert tail[i] == node[had + 1..][i - 1] && es[i] == es[1..][i - 1];
      DenotesLower(st'.heap, |st1.heap|, |st.heap|, tail[i].value, es[i].value);
    }
  }

  lemma DenotesLower(heap: seq<Node>, hi: nat, lo: nat, cell: Cell, v: Value)
    requires lo <= hi && Denotes(heap, hi, cell, v)
    ensures Denotes(heap, lo, cell, v)
  {
  }

  lemma {:induction false} ReadEntry(st: State, lines: seq<string>, e: Entry<Value>, indent: nat, m: nat) returns (cell: Cell)
    requires Filling(st, indent, m) && EntryLaidOut(lines, e, indent)
    requires Lacks(st.heap[st.stack[m - 1].id], e.key)
    ensures var st' := Steps(st, lines);
            var d := st.stack[m - 1].id;
            && Kept(st, st', indent, m) && d < |st.heap| <= |st'.heap|
            && st'.heap[d] == st.heap[d] + [Entry(e.key, cell)] && Denotes(st'.heap, |st.heap|, cell, e.value)
    decreases e, 1
  {
    hide Step, Spelled, ItemLines, LaidOut;
    var Entry(k, v) := e;
    match v {
      case Dict(sub) =>
        cell := ReadSection(st, lines, k, sub, indent, m);
      case List(items) =>
        cell := Leaf(v);
        OpenSection(st, lines[0], indent, m, k);
        KeyNotEmpty(lines[0], indent, k, []);
        ReadItems(Step(st, lines[0]), lines[1..], indent, m, st.heap[st.stack[m - 1].id], k, [], items);
        assert [] + items == items;
        KeptTransitive(st, Step(st, lines[0]), Steps(st, lines), indent, m);
      case _ =>
        cell := Leaf(v);
        var text :| Spelled(text, v) && KeyLine(lines[0], indent, k, text);
        ReadScalar(st, lines[0], indent, m, k, text, v);
        assert lines == [lines[0]];
        OneStep(st, lines[0]);
    }
  }

  lemma KeyNotEmpty(raw: string, indent: nat, k: string, text: string)
    requires KeyLine(raw, indent, k, text)
    ensures k != []
  {
  }

  lemma {:induction false} ReadSection(st: State, lines: seq<string>, k: string, sub: seq<Entry<Value>>, indent: nat, m: nat) returns (cell: Cell)
    requires Filling(st, indent, m) && EntryLaidOut(lines, Entry(k, Dict(sub)), indent)
    requires Lacks(st.heap[st.stack[m - 1].id], k)
    ensures var st' := Steps(st, lines);
            var d := st.stack[m - 1].id;
            && Kept(st, st', indent, m) && d < |st.heap| <= |st'.heap|
            && st'.heap[d] == st.heap[d] + [Entry(k, cell)] && Denotes(st'.heap, |st.heap|, cell, Dict(sub))
    decreases sub, 1
  {
    hide Step, KeyLine, Denotes, NodeDenotes, LaidOut, IsItem;
    var d, child := st.stack[m - 1].id, |st.heap|;
    cell := Ref(child);
    var inner: nat :| indent + 2 <= inner && LaidOut(lines[1..], sub, inner);
    var st1 := Step(st, lines[0]);
    OpenSection(st, lines[0], indent, m, k);
    assert Filling(st1, inner, m + 1);
    ReadDoc(st1, lines[1..], sub, inner, m + 1);
    var st' := Steps(st, lines);
    SamePrefix(st'.stack, st1.stack, m);
    assert st'.heap[child][0..] == st'.heap[child];
    SectionDenotes(st'.heap, child, sub);
  }

  lemma SamePrefix(a: seq<Frame>, b: seq<Frame>, m: nat)
    requires 0 < m < |a| && m < |b| && a[..m + 1] == b[..m + 1]
    ensures a[..m] == b[..m] && a[m] == b[m] && a[m - 1] == b[m - 1]
  {
    assert a[m] == a[..m + 1][m] && a[m - 1] == a[..m + 1][m - 1] && a[..m] == a[..m + 1][..m];
    assert b[m] == b[..m + 1][m] && b[m - 1] == b[..m + 1][m - 1] && b[..m] == b[..m + 1][..m];
  }

  lemma SectionDenotes(heap: seq<Node>, child: nat, sub: seq<Entry<Value>>)
    requires child < |heap| && NodeDenotes(heap, child + 1, heap[child], sub)
    ensures Denotes(heap, child, Ref(child), Dict(sub))
  {
  }

  lemma {:induction false} LayoutLines(lines: seq<string>, es: seq<Entry<Value>>, indent: nat)
    requires LaidOut(lines, es, indent)
    ensures forall l :: l in lines ==> DataLine(l) && OneLine(l)
    decreases es, 0
  {
    hide DataLine, OneLine, EntryLaidOut;
    if es != [] {
      var n := FirstEntry(lines, es, indent);
      hide LaidOut;
      EntryLines(lines[..n], es[0], indent);
      LayoutLines(lines[n..], es[1..], indent);
      assert forall l :: l in lines ==> l in lines[..n] || l in lines[n..];
    }
  }

  lemma {:induction false} EntryLines(lines: seq<string>, e: Entry<Value>, indent: nat)
    requires EntryLaidOut(lines, e, indent)
    ensures forall l :: l in lines ==> DataLine(l) && OneLine(l)
    decreases e, 1
  {
    hide DataLine, Spells, KeyLine, LaidOut, Step, ItemLine;
    assert lines == [lines[0]] + lines[1..];
    match e.value {
      case Dict(sub) =>
        KeyLineSteps(START, lines[0], indent, e.key, []);
        var inner: nat :| indent + 2 <= inner && LaidOut(lines[1..], sub, inner);
        LayoutLines(lines[1..], sub, inner);
      case List(items) =>
        KeyLineSteps(START, lines[0], indent, e.key, []);
        forall i | 0 <= i < |items|
          ensures DataLine(lines[1..][i]) && OneLine(lines[1..][i])
        {
          ItemLineSteps(START, lines[1..][i], items[i]);
        }
      case _ =>
        var text :| Spelled(text, e.value) && KeyLine(lines[0], indent, e.key, text);
        KeyLineSteps(START, lines[0], indent, e.key, text);
    }
  }

  // ----- whole texts -----

  /** The parser sees exactly the lines that are neither blank nor comments. */
  lemma DataIsNoNoise(line: string)
    ensures DataLine(line) <==> !Noise(line)
  {
    hide RStrip, LStrip;
    var n := LStripShape(line);
    var t := LStrip(line);
    var e := RStripShape(t);
    if n < |line| {
      assert t[0] == line[n] && !IsSpace(t[0]);
      assert e > 0;
      assert Strip(line)[0] == line[n];
    }
    if !DataLine(line) {
      assert NoiseUpTo(line, n);
    }
  }

  /** Any text whose lines, blank ones and comments aside, are a layout of a map parses to that map. */
  lemma LayoutReadsBack(text: string, es: seq<Entry<Value>>, indent: nat)
    requires LaidOut(Filter(SplitLines(text), Says), es, indent)
    ensures Parse(text) == Dict(es)
  {
    hide Step, Denotes, NodeDenotes, LaidOut, SplitLines, Resolve, DataLine, Noise;
    forall l
      ensures Says(l) == DataLine(l)
    {
      DataIsNoNoise(l);
    }
    SameFilter(SplitLines(text), Says, DataLine);
    var lines := Filter(SplitLines(text), DataLine);
    ReadDoc(START, lines, es, indent, 1);
    var st := Steps(START, lines);
    assert st.stack[0] == st.stack[..1][0] == START.stack[..1][0];
    assert st.heap[0][0..] == st.heap[0];
    DenotesResolves(st.heap, 0, es);
    assert Resolve(st.heap, 0) == Dict(es);
    assert Parse(text) == if st.heap == [] then Dict([]) else Resolve(st.heap, 0);
  }

  lemma {:induction false} SameFilter(s: seq<string>, p: string -> bool, q: string -> bool)
    requires forall x :: p(x) == q(x)
    ensures Filter(s, p) == Filter(s, q)
  {
    if s != [] {
      SameFilter(s[1..], p, q);
    }
  }

  lemma {:induction false} FilterConcat(a: seq<string>, b: seq<string>, p: string -> bool)
    ensures Filter(a + b, p) == Filter(a, p) + Filter(b, p)
  {
    if a == [] {
      assert a + b == b;
    } else {
      assert (a + b)[1..] == a[1..] + b;
      FilterConcat(a[1..], b, p);
    }
  }

  /** A blank line or a comment changes nothing, wherever it is put in, in whatever text. */
  lemma NoiseChangesNothing(before: seq<string>, line: string, after: seq<string>)
    requires forall l :: l in before + [line] + after ==> OneLine(l)
    requires Noise(line)
    ensures Parse(Unlines(before + [line] + after)) == Parse(Unlines(before + after))
  {
    hide Noise, OneLine, DataLine, Resolve, Steps;
    assert forall l :: l in before + after ==> l in before + [line] + after;
    SplitUnlines(before + [line] + after);
    SplitUnlines(before + after);
    DataIsNoNoise(line);
    assert Filter([line], DataLine) == [] by { assert [line][1..] == []; }
    FilterConcat(before + [line], after, DataLine);
    FilterConcat(before, [line], DataLine);
    FilterConcat(before, after, DataLine);
    assert Filter(before, DataLine) + [] == Filter(before, DataLine);
  }
}
