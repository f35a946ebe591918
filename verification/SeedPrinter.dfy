/** The canonical layout of a seed configuration: two spaces a level, strings in double quotes. */
module SeedPrinter {
  import opened Prelude
  import opened Text
  import opened Assoc
  import opened SeedYaml
  import opened SeedScalars
  import opened SeedLayouts

  predicate Scalar(v: Value) {
    v.Int? || v.Bool? || (v.Str? && OneLine(v.s))
  }

  ghost predicate GoodValue(v: Value) {
    match v
    case Dict(es) => GoodDoc(es)
    case List(items) => items != [] && forall x :: x in items ==> Scalar(x)
    case _ => Scalar(v)
  }

  /** Nested maps with distinct proper keys, over scalars and nonempty lists of scalars. */
  ghost predicate GoodDoc(es: seq<Entry<Value>>) {
    && DistinctKeys(es)
    && forall i :: 0 <= i < |es| ==> GoodKey(es[i].key) && !IsItem(es[i].key) && GoodValue(es[i].value)
  }

  function PrintScalar(v: Value): string
    requires Scalar(v)
  {
    match v
    case Int(n) => IntToString(n)
    case Bool(b) => if b then "true" else "false"
    case Str(s) => "\"" + s + "\""
  }

  function Pad(n: nat): (s: string)
    ensures |s| == n && Blank(s)
  {
    seq(n, i => ' ')
  }

  function PrintItems(items: seq<Value>, level: nat): seq<string>
    requires forall x :: x in items ==> Scalar(x)
  {
    if items == [] then []
    else [Pad(2 * level) + ("- " + PrintScalar(items[0]))] + PrintItems(items[1..], level)
  }

  /** Two spaces per level; a map or list goes on the lines after its key. */
  function PrintDoc(es: seq<Entry<Value>>, level: nat): seq<string>
    requires GoodDoc(es)
    decreases es, 0
  {
    if es == [] then []
    else
      assert GoodValue(es[0].value);
      PrintEntry(es[0], level) + PrintDoc(es[1..], level)
  }

  function PrintEntry(e: Entry<Value>, level: nat): seq<string>
    requires GoodValue(e.value)
    decreases e, 1
  {
    match e.value
    case Dict(sub) => [Pad(2 * level) + (e.key + ":")] + PrintDoc(sub, level + 1)
    case List(items) => [Pad(2 * level) + (e.key + ":")] + PrintItems(items, level + 1)
    case _ => [Pad(2 * level) + (e.key + ": " + PrintScalar(e.value))]
  }

  function Print(es: seq<Entry<Value>>): string
    requires GoodDoc(es)
  {
    Unlines(PrintDoc(es, 0))
  }

  // ----- scalars read back -----

  lemma ParsesDigits(n: nat)
    ensures var s := NatToString(n);
            Numeral(s) && DigitsOf(s) == s && StringToNat(s) == n && s[0] != '-' && s[0] != '+'
  {
    var s := NatToString(n);
    NatRoundTrip(n);
    DigitsOfDigits(s);
    assert forall i :: 0 <= i < |s| ==> s[i] in s;
  }

  lemma LowerDiffers(s: string, word: string)
    requires s != [] && word != [] && 'a' <= word[0] <= 'z' && s[0] < 'A'
    ensures Lower(s) != word
  {
    assert Lower(s)[0] == s[0];
  }

  lemma IntReadsBack(n: int)
    ensures Coerce(IntToString(n)) == Int(n)
    ensures IntToString(n) != [] && Stripped(IntToString(n)) && OneLine(IntToString(n))
  {
    hide Lower, Numeral, DigitsOf, StringToNat, NatToString;
    var s := IntToString(n);
    ParsesDigits(if n < 0 then -n else n);
    var digits := NatToString(if n < 0 then -n else n);
    assert digits[0] in digits && Last(digits) in digits;
    if n < 0 { assert s[1..] == digits; }
    assert forall c :: c in s ==> c in digits || c == '-';
    LowerDiffers(s, "true");
    LowerDiffers(s, "false");
  }

  lemma StrReadsBack(t: string)
    requires OneLine(t)
    ensures var s := "\"" + t + "\""; Coerce(s) == Str(t) && Stripped(s) && OneLine(s)
  {
    hide Lower;
    var s := "\"" + t + "\"";
    LowerDiffers(s, "true");
    LowerDiffers(s, "false");
    assert s[1..|s| - 1] == t;
  }

  lemma BoolReadsBack()
    ensures Coerce("true") == Bool(true) && Coerce("false") == Bool(false)
  {
    assert Lower("true") == "true" && Lower("false") == "false";
  }

  lemma ScalarReadsBack(v: Value)
    requires Scalar(v)
    ensures Coerce(PrintScalar(v)) == v
    ensures PrintScalar(v) != [] && Stripped(PrintScalar(v)) && OneLine(PrintScalar(v))
  {
    hide Coerce, IntToString;
    match v {
      case Bool(b) => BoolReadsBack();
      case Int(n) => IntReadsBack(n);
      case Str(t) => StrReadsBack(t);
    }
  }

  // ----- the canonical layout is a layout -----

  lemma PrintedScalar(v: Value)
    requires Scalar(v)
    ensures Spelled(PrintScalar(v), v)
  {
    hide Coerce, Spells, PrintScalar, Stripped, OneLine;
    ScalarReadsBack(v);
    CoerceExactly(PrintScalar(v), v);
  }

  lemma PrintedKey(k: string, level: nat, text: string)
    requires GoodKey(k) && !IsItem(k)
    ensures KeyLine(Pad(2 * level) + (k + ":"), 2 * level, k, [])
    ensures KeyLine(Pad(2 * level) + (k + ": " + text), 2 * level, k, text)
  {
    hide IsItem, Pad;
    var lead := Pad(2 * level);
    assert k + [] == k;
    assert k + ":" == k + [] + [':'] + [] + [] + [];
    assert KeyParts(lead + (k + ":"), lead, k, [], [], [], []);
    assert k + ": " + text == k + [] + [':'] + [' '] + text + [];
    assert KeyParts(lead + (k + ": " + text), lead, k, [], [' '], text, []);
  }

  lemma PrintedItem(v: Value, level: nat)
    requires Scalar(v)
    ensures ItemLine(Pad(2 * level) + ("- " + PrintScalar(v)), v)
  {
    hide Scalar, Spelled, PrintScalar, Pad;
    var lead, t := Pad(2 * level), PrintScalar(v);
    PrintedScalar(v);
    assert "- " + t == "- " + [] + t + [];
    assert ItemParts(lead + ("- " + t), lead, [], t, []);
  }

  lemma {:induction false} PrintedItems(items: seq<Value>, level: nat)
    requires forall x :: x in items ==> Scalar(x)
    ensures ItemLines(PrintItems(items, level), items)
  {
    if items != [] {
      hide Scalar, ItemLine, Pad;
      PrintedItem(items[0], level);
      PrintedItems(items[1..], level);
    }
  }

  lemma {:induction false} PrintIsLayout(es: seq<Entry<Value>>, level: nat)
    requires GoodDoc(es)
    ensures LaidOut(PrintDoc(es, level), es, 2 * level)
    decreases es, 0
  {
    hide EntryLaidOut, PrintEntry, GoodValue, GoodKey, IsItem;
    if es != [] {
      var first, rest := PrintEntry(es[0], level), PrintDoc(es[1..], level);
      var lines := PrintDoc(es, level);
      PrintIsLayout(es[1..], level);
      PrintedEntry(es[0], level);
      assert lines[..|first|] == first && lines[|first|..] == rest;
    }
  }

  lemma {:induction false} PrintedEntry(e: Entry<Value>, level: nat)
    requires GoodKey(e.key) && !IsItem(e.key) && GoodValue(e.value)
    ensures EntryLaidOut(PrintEntry(e, level), e, 2 * level)
    decreases e, 1
  {
    hide GoodKey, IsItem, Scalar, KeyLine, Spelled, LaidOut, ItemLines, PrintScalar, Pad, PrintDoc, PrintItems;
    var lines := PrintEntry(e, level);
    match e.value {
      case Dict(sub) =>
        PrintedKey(e.key, level, []);
        PrintIsLayout(sub, level + 1);
        assert lines[1..] == PrintDoc(sub, level + 1);
        assert 2 * level + 2 == 2 * (level + 1);
      case List(items) =>
        PrintedKey(e.key, level, []);
        PrintedItems(items, level + 1);
        assert lines[1..] == PrintItems(items, level + 1);
        assert |PrintItems(items, level + 1)| == |items| by { SameLength(PrintItems(items, level + 1), items); }
      case _ =>
        PrintedScalar(e.value);
        PrintedKey(e.key, level, PrintScalar(e.value));
    }
  }

  lemma SameLength(lines: seq<string>, items: seq<Value>)
    requires ItemLines(lines, items)
    ensures |lines| == |items|
  {
  }

  /** Parsing undoes printing, entry order included. */
  lemma ParseUndoesPrint(es: seq<Entry<Value>>)
    requires GoodDoc(es)
    ensures Parse(Print(es)) == Dict(es)
  {
    hide GoodDoc, PrintDoc, Unlines, SplitLines, Filter, LaidOut, Parse, OneLine, DataLine, Noise;
    var lines := PrintDoc(es, 0);
    PrintIsLayout(es, 0);
    LayoutLines(lines, es, 0);
    SplitUnlines(lines);
    forall l | l in lines
      ensures Says(l)
    {
      DataIsNoNoise(l);
    }
    FilterAll(lines, Says);
    LayoutReadsBack(Print(es), es, 0);
  }
}
