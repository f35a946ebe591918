/** The installer's indentation-stack parser for seed configurations, and the shape its state keeps. */
module SeedYaml {
  import opened Prelude
  import opened Text
  import opened Assoc

  datatype Value =
    | Int(n: int)
    | Bool(b: bool)
    | Str(s: string)
    | List(items: seq<Value>)
    | Dict(entries: seq<Entry<Value>>)

  // ----- scalars -----

  /** Decimal digits with single underscores between them, as `int` accepts them. */
  predicate Numeral(s: string) {
    && s != [] && IsDigit(s[0]) && IsDigit(Last(s))
    && (forall i :: 0 <= i < |s| ==> IsDigit(s[i]) || s[i] == '_')
    && (forall i :: 0 <= i < |s| - 1 ==> IsDigit(s[i]) || IsDigit(s[i + 1]))
  }

  function DigitsOf(s: string): (r: string)
    requires forall i :: 0 <= i < |s| ==> IsDigit(s[i]) || s[i] == '_'
    ensures AllDigits(r)
  {
    if s == [] then [] else (if IsDigit(s[0]) then [s[0]] else []) + DigitsOf(s[1..])
  }

  function ParseInt(s: string): Option<int> {
    var signed := s != [] && (s[0] == '-' || s[0] == '+');
    var body := if signed then s[1..] else s;
    if !Numeral(body) then None
    else
      var n: int := StringToNat(DigitsOf(body));
      Some(if signed && s[0] == '-' then -n else n)
  }

  function Coerce(val: string): Value {
    if Lower(val) == "true" then Bool(true)
    else if Lower(val) == "false" then Bool(false)
    else if ParseInt(val).Some? then Int(ParseInt(val).value)
    else if Quoted(val, '"') || Quoted(val, '\'') then Str(if |val| < 2 then [] else val[1..|val| - 1])
    else Str(val)
  }

  // ----- the parser's state -----

  /** What a dictionary holds under a key: a finished value, or another dictionary of the store. */
  datatype Cell = Leaf(v: Value) | Ref(id: nat)

  type Node = seq<Entry<Cell>>

  datatype Frame = Frame(indent: int, id: nat)

  /** `heap` holds every dictionary created so far; the document is number 0. */
  datatype State = State(heap: seq<Node>, stack: seq<Frame>, lastKeys: seq<string>)

  const START := State([[]], [Frame(0, 0)], [""])

  /** What the parser keeps true on every input. */
  ghost predicate Shape(st: State) {
    && |st.stack| == |st.lastKeys| && 0 < |st.stack|
    && st.stack[0] == Frame(0, 0)
    && (forall i, j :: 0 <= i < j < |st.stack| ==> st.stack[i].indent < st.stack[j].indent)
    && (forall i :: 0 <= i < |st.stack| ==> st.stack[i].id < |st.heap|)
    && (forall i, k :: 0 <= i < |st.heap| && 0 <= k < |st.heap[i]| && st.heap[i][k].value.Ref? ==>
          i < st.heap[i][k].value.id < |st.heap|)
  }

  function SetCell(heap: seq<Node>, id: nat, key: string, cell: Cell): seq<Node> {
    if id < |heap| then heap[id := Put(heap[id], key, cell)] else heap
  }

  /** The highest level whose last key is set, or -1. */
  function ListLevel(lastKeys: seq<string>): (l: int)
    ensures -1 <= l < |lastKeys|
    ensures l >= 0 ==> lastKeys[l] != []
    ensures forall i :: l < i < |lastKeys| ==> lastKeys[i] == []
  {
    if lastKeys == [] then -1
    else if Last(lastKeys) != [] then |lastKeys| - 1
    else ListLevel(lastKeys[..|lastKeys| - 1])
  }

  /** A list item goes to the last key set; a value there that is no list is replaced. */
  function AddItem(st: State, val: Value): State {
    var l := ListLevel(st.lastKeys);
    if l < 0 || l >= |st.stack| || st.stack[l].id >= |st.heap| then st
    else
      var id, key := st.stack[l].id, st.lastKeys[l];
      var existing := Get(st.heap[id], key);
      var items := if existing.Some? && existing.value.Leaf? && existing.value.v.List? then existing.value.v.items else [];
      st.(heap := SetCell(st.heap, id, key, Leaf(List(items + [val]))))
  }

  function Pop(st: State, indent: int): (r: State)
    decreases |st.stack|
  {
    if |st.stack| > 1 && Last(st.stack).indent > indent && st.lastKeys != [] then
      Pop(State(st.heap, st.stack[..|st.stack| - 1], st.lastKeys[..|st.lastKeys| - 1]), indent)
    else st
  }

  function AddKey(st: State, indent: int, key: string, rawVal: string): State {
    var p := Pop(st, indent);
    if p.stack == [] || p.lastKeys == [] then p
    else
      var top := Last(p.stack).id;
      var lastKeys := p.lastKeys[|p.lastKeys| - 1 := key];
      if rawVal != [] then
        State(SetCell(p.heap, top, key, Leaf(Coerce(rawVal))), p.stack, lastKeys)
      else
        State(SetCell(p.heap, top, key, Ref(|p.heap|)) + [[]], p.stack + [Frame(indent + 2, |p.heap|)], lastKeys + [""])
  }

  predicate IsItem(stripped: string) {
    |stripped| >= 2 && stripped[0] == '-' && stripped[1] == ' '
  }

  function Step(st: State, raw: string): State {
    var stripped := Strip(raw);
    if IsItem(stripped) then AddItem(st, Coerce(Strip(stripped[2..])))
    else
      var colon := IndexOf(stripped, ':');
      if colon == |stripped| then st
      else AddKey(st, |raw| - |LStrip(raw)|, Strip(stripped[..colon]), Strip(stripped[colon + 1..]))
  }

  function Steps(st: State, lines: seq<string>): State
    decreases |lines|
  {
    if lines == [] then st else Steps(Step(st, lines[0]), lines[1..])
  }

  predicate DataLine(line: string) {
    Strip(line) != [] && Strip(line)[0] != '#'
  }

  function ResolveCell(heap: seq<Node>, above: nat, cell: Cell): Value
    requires above < |heap|
    decreases |heap| - above, 0
  {
    match cell
    case Leaf(v) => v
    case Ref(id) => if above < id < |heap| then Resolve(heap, id) else Dict([])
  }

  /** The nested dictionary that number `id` of the store stands for. */
  function Resolve(heap: seq<Node>, id: nat): (v: Value)
    requires id < |heap|
    decreases |heap| - id, 1
  {
    Dict(seq(|heap[id]|, i requires 0 <= i < |heap[id]| => Entry(heap[id][i].key, ResolveCell(heap, id, heap[id][i].value))))
  }

  function Parse(text: string): Value {
    var heap := Steps(START, Filter(SplitLines(text), DataLine)).heap;
    if heap == [] then Dict([]) else Resolve(heap, 0)
  }

  // ----- the shape holds on every input -----

  lemma {:induction false} PopShape(st: State, indent: int)
    requires Shape(st)
    ensures Shape(Pop(st, indent)) && Pop(st, indent).heap == st.heap
    ensures Pop(st, indent).stack <= st.stack && Pop(st, indent).lastKeys <= st.lastKeys
    ensures |Pop(st, indent).stack| > 1 ==> Last(Pop(st, indent).stack).indent <= indent
    decreases |st.stack|
  {
    hide Shape;
    ShapeStacks(st);
    if |st.stack| > 1 && Last(st.stack).indent > indent {
      OuterShape(st);
      PopShape(State(st.heap, st.stack[..|st.stack| - 1], st.lastKeys[..|st.lastKeys| - 1]), indent);
    }
  }

  lemma ShapeStacks(st: State)
    requires Shape(st)
    ensures 0 < |st.stack| == |st.lastKeys|
  {
  }

  lemma OuterShape(st: State)
    requires Shape(st) && |st.stack| > 1
    ensures Shape(State(st.heap, st.stack[..|st.stack| - 1], st.lastKeys[..|st.lastKeys| - 1]))
  {
  }

  lemma SetCellShape(st: State, id: nat, key: string, cell: Cell)
    requires Shape(st) && id < |st.heap| && (cell.Ref? ==> id < cell.id < |st.heap|)
    ensures Shape(st.(heap := SetCell(st.heap, id, key, cell)))
  {
  }

  lemma StepShape(st: State, raw: string)
    requires Shape(st)
    ensures Shape(Step(st, raw)) && |st.heap| <= |Step(st, raw).heap|
  {
    hide Strip, Coerce, SetCell, Pop, LStrip;
    var stripped := Strip(raw);
    var colon := IndexOf(stripped, ':');
    if IsItem(stripped) {
      AddItemShape(st, Coerce(Strip(stripped[2..])));
    } else if colon < |stripped| {
      LStripLength(raw);
      AddKeyShape(st, |raw| - |LStrip(raw)|, Strip(stripped[..colon]), Strip(stripped[colon + 1..]));
    }
  }

  lemma LStripLength(s: string)
    ensures |LStrip(s)| <= |s|
  {
  }

  lemma AddItemShape(st: State, val: Value)
    requires Shape(st)
    ensures Shape(AddItem(st, val)) && |st.heap| == |AddItem(st, val).heap|
  {
    var l := ListLevel(st.lastKeys);
    if l >= 0 {
      var id, key := st.stack[l].id, st.lastKeys[l];
      var existing := Get(st.heap[id], key);
      var items := if existing.Some? && existing.value.Leaf? && existing.value.v.List? then existing.value.v.items else [];
      SetCellShape(st, id, key, Leaf(List(items + [val])));
    }
  }

  /** Opening a section under a deeper indent. */
  lemma NestedShape(p: State, indent: nat)
    requires Shape(p) && Last(p.stack).indent < indent
    ensures Shape(State(p.heap + [[]], p.stack + [Frame(indent, |p.heap|)], p.lastKeys + [""]))
  {
  }

  lemma AddKeyShape(st: State, indent: nat, key: string, rawVal: string)
    requires Shape(st)
    ensures Shape(AddKey(st, indent, key, rawVal)) && |st.heap| <= |AddKey(st, indent, key, rawVal).heap|
  {
    hide Coerce, Pop, Shape, SetCell;
    PopShape(st, indent);
    var p := Pop(st, indent);
    ShapeStacks(p);
    KeysShape(p, p.lastKeys[|p.lastKeys| - 1 := key]);
    p := p.(lastKeys := p.lastKeys[|p.lastKeys| - 1 := key]);
    var top := Last(p.stack).id;
    if rawVal != [] {
      SetCellShape(p, top, key, Leaf(Coerce(rawVal)));
      SetCellLength(p.heap, top, key, Leaf(Coerce(rawVal)));
    } else {
      var bigger := State(p.heap + [[]], p.stack + [Frame(indent + 2, |p.heap|)], p.lastKeys + [""]);
      NestedShape(p, indent + 2);
      SetCellShape(bigger, top, key, Ref(|p.heap|));
      SetCellLength(p.heap, top, key, Ref(|p.heap|));
    }
  }

  lemma SetCellLength(heap: seq<Node>, id: nat, key: string, cell: Cell)
    requires id < |heap|
    ensures |SetCell(heap, id, key, cell)| == |heap|
    ensures SetCell(heap + [[]], id, key, cell) == SetCell(heap, id, key, cell) + [[]]
  {
    assert (heap + [[]])[id] == heap[id];
  }

  /** The last keys matter to the shape only in number; the top of the stack is in the heap. */
  lemma KeysShape(st: State, lastKeys: seq<string>)
    requires Shape(st) && |lastKeys| == |st.lastKeys|
    ensures Shape(st.(lastKeys := lastKeys)) && Last(st.stack).id < |st.heap|
    ensures |st.stack| == 1 ==> Last(st.stack).indent == 0
  {
  }

  /** On every input, at every line: the indents on the stack strictly increase, `stack` and `last_keys`
      have equal length, and a dictionary only ever points to later ones. */
  lemma {:induction false} ShapeOnEveryInput(lines: seq<string>, k: nat)
    requires k <= |lines|
    ensures Shape(Steps(START, lines[..k]))
    decreases k
  {
    if k > 0 {
      ShapeOnEveryInput(lines, k - 1);
      assert lines[..k] == lines[..k - 1] + [lines[k - 1]];
      StepsAppend(START, lines[..k - 1], [lines[k - 1]]);
      var st := Steps(START, lines[..k - 1]);
      StepShape(st, lines[k - 1]);
      assert Steps(st, [lines[k - 1]]) == Steps(Step(st, lines[k - 1]), []) == Step(st, lines[k - 1]);
    }
  }

  lemma {:induction false} StepsAppend(st: State, a: seq<string>, b: seq<string>)
    ensures Steps(st, a + b) == Steps(Steps(st, a), b)
    decreases |a|
  {
    if a == [] {
      assert a + b == b;
    } else {
      assert (a + b)[1..] == a[1..] + b;
      StepsAppend(Step(st, a[0]), a[1..], b);
    }
  }

  // ----- the parser as it runs -----

  class SeedConfigParser {
    constructor () {}

    /** The levels are searched from the top of the stack downwards. */
    method AttachItem(heap: seq<Node>, stack: seq<Frame>, lastKeys: seq<string>, val: Value) returns (r: seq<Node>)
      requires Shape(State(heap, stack, lastKeys))
      ensures State(r, stack, lastKeys) == AddItem(State(heap, stack, lastKeys), val)
    {
      r := heap;
      var lvl := |stack| - 1;
      while lvl >= 0
        invariant -1 <= lvl < |stack| && r == heap
        invariant forall i :: lvl < i < |lastKeys| ==> lastKeys[i] == []
      {
        var k := lastKeys[lvl];
        if k != [] {
          var id := stack[lvl].id;
          var existing := Get(r[id], k);
          assert ListLevel(lastKeys) == lvl && [] + [val] == [val];
          if existing.Some? && existing.value.Leaf? && existing.value.v.List? {
            r := r[id := Put(r[id], k, Leaf(List(existing.value.v.items + [val])))];
          } else {
            r := r[id := Put(r[id], k, Leaf(List([val])))];
          }
          return;
        }
        lvl := lvl - 1;
      }
    }

    method ParseYaml(text: string) returns (result: Value)
      ensures result == Parse(text)
    {
      hide Strip, Coerce, Put, LStrip, Shape, Step, Steps, DataLine, Resolve;
      StartShape();
      var heap: seq<Node>, stack, lastKeys := [[]], [Frame(0, 0)], [""];
      var lines := SplitLines(text);
      ghost var done: seq<string> := [];
      for i := 0 to |lines|
        invariant Shape(State(heap, stack, lastKeys))
        invariant done == Filter(lines[..i], DataLine)
        invariant State(heap, stack, lastKeys) == Steps(START, done)
      {
        var raw := lines[i];
        assert lines[..i + 1] == lines[..i] + [raw];
        FilterAppend(lines[..i], raw, DataLine);
        if DataLine(raw) {
          heap, stack, lastKeys := ParseLine(heap, stack, lastKeys, raw);
          StepsAppend(START, done, [raw]);
          OneStep(Steps(START, done), raw);
          done := done + [raw];
        }
      }
      assert lines[..|lines|] == lines;
      HasRoot(State(heap, stack, lastKeys));
      result := Resolve(heap, 0);
    }

    method ParseLine(heap: seq<Node>, stack: seq<Frame>, lastKeys: seq<string>, raw: string)
      returns (heap': seq<Node>, stack': seq<Frame>, lastKeys': seq<string>)
      requires Shape(State(heap, stack, lastKeys))
      ensures State(heap', stack', lastKeys') == Step(State(heap, stack, lastKeys), raw)
      ensures Shape(State(heap', stack', lastKeys'))
    {
      hide Strip, Coerce, LStrip, Shape, AddItem, AddKey;
      heap', stack', lastKeys' := heap, stack, lastKeys;
      ghost var st := State(heap, stack, lastKeys);
      StepShape(st, raw);
      LStripLength(raw);
      var indent := |raw| - |LStrip(raw)|;
      var stripped := Strip(raw);
      if IsItem(stripped) {
        heap' := AttachItem(heap, stack, lastKeys, Coerce(Strip(stripped[2..])));
        return;
      }
      var colon := IndexOf(stripped, ':');
      if colon == |stripped| {
        return;
      }
      var key := Strip(stripped[..colon]);
      var rawVal := Strip(stripped[colon + 1..]);
      heap', stack', lastKeys' := PutKey(heap, stack, lastKeys, indent, key, rawVal);
    }

    method PutKey(heap: seq<Node>, stack: seq<Frame>, lastKeys: seq<string>, indent: nat, key: string, rawVal: string)
      returns (heap': seq<Node>, stack': seq<Frame>, lastKeys': seq<string>)
      requires Shape(State(heap, stack, lastKeys))
      ensures State(heap', stack', lastKeys') == AddKey(State(heap, stack, lastKeys), indent, key, rawVal)
    {
      hide Coerce;
      heap', stack', lastKeys' := heap, stack, lastKeys;
      ghost var st := State(heap, stack, lastKeys);
      while |stack'| > 1 && Last(stack').indent > indent
        invariant 0 < |stack'| == |lastKeys'| && stack' <= stack
        invariant Pop(State(heap, stack', lastKeys'), indent) == Pop(st, indent)
      {
        stack' := stack'[..|stack'| - 1];
        lastKeys' := lastKeys'[..|lastKeys'| - 1];
      }
      var top := Last(stack').id;
      assert stack'[|stack'| - 1] == stack[|stack'| - 1];
      lastKeys' := lastKeys'[|lastKeys'| - 1 := key];
      if rawVal != [] {
        heap' := heap'[top := Put(heap'[top], key, Leaf(Coerce(rawVal)))];
      } else {
        var nested := |heap'|;
        heap' := heap'[top := Put(heap'[top], key, Ref(nested))] + [[]];
        stack' := stack' + [Frame(indent + 2, nested)];
        lastKeys' := lastKeys' + [""];
      }
    }
  }

  lemma StartShape()
    ensures Shape(START) && START == State([[]], [Frame(0, 0)], [""]) && Steps(START, []) == START
  {
  }

  lemma HasRoot(st: State)
    requires Shape(st)
    ensures 0 < |st.heap|
  {
  }

  lemma OneStep(st: State, raw: string)
    ensures Steps(st, [raw]) == Step(st, raw)
  {
    assert Steps(st, [raw]) == Steps(Step(st, raw), [raw][1..]);
  }
}
