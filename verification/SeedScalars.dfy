/** How scalars may be written in a seed configuration, and that the parser coerces them accordingly. */
module SeedScalars {
  import opened Prelude
  import opened Text
  import opened SeedYaml

  // ----- integers -----

  /** Nonempty groups of digits. */
  predicate Groups(groups: seq<string>) {
    groups != [] && forall g :: g in groups ==> g != [] && AllDigits(g)
  }

  function Joined(groups: seq<string>): string
    requires groups != []
  {
    if |groups| == 1 then groups[0] else groups[0] + ['_'] + Joined(groups[1..])
  }

  function Concat(groups: seq<string>): string {
    if groups == [] then [] else groups[0] + Concat(groups[1..])
  }

  /** The text is a sign, if any, and then the decimal numeral of `n` up to its sign, possibly with leading
      zeros, its digits possibly in groups with an underscore between them. */
  ghost predicate WrittenAs(text: string, n: int, sign: string, groups: seq<string>) {
    && (sign == "" || sign == "+" || sign == "-") && Groups(groups)
    && text == sign + Joined(groups)
    && (if sign == "-" then n <= 0 else n >= 0)
    && Numbers(Concat(groups), if n < 0 then -n else n)
  }

  ghost predicate SpellsInt(text: string, n: int) {
    exists sign, groups :: WrittenAs(text, n, sign, groups)
  }

  lemma {:induction false} DigitsOfAppend(a: string, b: string)
    requires forall c :: c in a + b ==> IsDigit(c) || c == '_'
    requires forall c :: c in a || c in b ==> IsDigit(c) || c == '_'
    ensures DigitsOf(a + b) == DigitsOf(a) + DigitsOf(b)
    decreases |a|
  {
    if a == [] {
      assert a + b == b;
    } else {
      assert (a + b)[1..] == a[1..] + b;
      DigitsOfAppend(a[1..], b);
    }
  }

  lemma {:induction false} DigitsOfDigits(s: string)
    requires AllDigits(s)
    ensures DigitsOf(s) == s
  {
    if s != [] {
      assert s[0] in s;
      assert forall c :: c in s[1..] ==> c in s;
      DigitsOfDigits(s[1..]);
      assert s == [s[0]] + s[1..];
    }
  }

  lemma {:induction false} GroupsMakeNumeral(groups: seq<string>)
    requires Groups(groups)
    ensures Numeral(Joined(groups)) && DigitsOf(Joined(groups)) == Concat(groups) && AllDigits(Concat(groups))
  {
    var g := groups[0];
    assert g in groups && g[0] in g && Last(g) in g;
    DigitsOfDigits(g);
    if |groups| == 1 {
      assert Concat(groups[1..]) == [];
      assert forall i :: 0 <= i < |g| ==> g[i] in g;
    } else {
      assert forall x :: x in groups[1..] ==> x in groups;
      GroupsMakeNumeral(groups[1..]);
      JoinNumerals(g, Joined(groups[1..]));
      JoinDigits(g, Joined(groups[1..]));
    }
  }

  lemma JoinNumerals(g: string, rest: string)
    requires g != [] && AllDigits(g) && Numeral(rest)
    ensures Numeral(g + ['_'] + rest)
  {
    hide IsDigit;
    var s := g + ['_'] + rest;
    UnderscoreIsNoDigit();
    forall i | 0 <= i < |s|
      ensures IsDigit(s[i]) || s[i] == '_'
      ensures i < |s| - 1 ==> IsDigit(s[i]) || IsDigit(s[i + 1])
    {
      if i < |g| {
        assert s[i] == g[i] && g[i] in g;
      } else if i > |g| {
        var j := i - |g| - 1;
        assert s[i] == rest[j] && (j < |rest| - 1 ==> s[i + 1] == rest[j + 1]);
      } else {
        assert s[i + 1] == rest[0];
      }
    }
    assert Last(s) == Last(rest) && s[0] == g[0] && g[0] in g;
  }

  lemma UnderscoreIsNoDigit()
    ensures !IsDigit('_')
  {
  }

  lemma JoinDigits(g: string, rest: string)
    requires AllDigits(g) && forall c :: c in rest ==> IsDigit(c) || c == '_'
    ensures (forall c :: c in g + ['_'] + rest ==> IsDigit(c) || c == '_') && DigitsOf(g + ['_'] + rest) == g + DigitsOf(rest)
  {
    hide IsDigit;
    UnderscoreIsNoDigit();
    DigitsOfDigits(g);
    assert g + ['_'] + rest == g + (['_'] + rest);
    assert (['_'] + rest)[1..] == rest;
    assert DigitsOf(['_'] + rest) == DigitsOf(rest);
    DigitsOfAppend(g, ['_'] + rest);
  }

  lemma {:induction false} NumeralHasGroups(s: string) returns (groups: seq<string>)
    requires Numeral(s)
    ensures Groups(groups) && Joined(groups) == s
    decreases |s|
  {
    var i := IndexOf(s, '_');
    if i == |s| {
      groups := [s];
    } else {
      var rest := s[i + 1..];
      CutNumeral(s, i);
      var more := NumeralHasGroups(rest);
      groups := [s[..i]] + more;
      assert groups[1..] == more;
      assert s == s[..i] + ['_'] + rest;
    }
  }

  lemma CutNumeral(s: string, i: nat)
    requires Numeral(s) && i < |s| && s[i] == '_'
    ensures 0 < i < |s| - 1 && Numeral(s[i + 1..])
  {
    hide IsDigit;
    UnderscoreIsNoDigit();
    var rest := s[i + 1..];
    assert IsDigit(s[i]) || IsDigit(s[i + 1]);
    forall j | 0 <= j < |rest|
      ensures IsDigit(rest[j]) || rest[j] == '_'
      ensures j < |rest| - 1 ==> IsDigit(rest[j]) || IsDigit(rest[j + 1])
    {
      var k := i + 1 + j;
      assert rest[j] == s[k] && (j < |rest| - 1 ==> rest[j + 1] == s[k + 1]);
    }
  }

  /** The integers `int` accepts are the decimal numerals, with signs, leading zeros and underscores. */
  lemma ParseIntExactly(text: string, n: int)
    ensures ParseInt(text) == Some(n) <==> SpellsInt(text, n)
  {
    hide Numeral, DigitsOf, StringToNat, NatToString, Joined, Concat;
    if ParseInt(text) == Some(n) {
      var signed := text != [] && (text[0] == '-' || text[0] == '+');
      var sign, body := if signed then text[..1] else [], if signed then text[1..] else text;
      assert text == sign + body;
      var groups := NumeralHasGroups(body);
      GroupsMakeNumeral(groups);
      NumeralNotEmpty(body);
      NumbersExactly(DigitsOf(body), StringToNat(DigitsOf(body)));
      assert WrittenAs(text, n, sign, groups);
    }
    if SpellsInt(text, n) {
      var sign, groups :| WrittenAs(text, n, sign, groups);
      GroupsMakeNumeral(groups);
      NumeralNotEmpty(Joined(groups));
      NumbersExactly(Concat(groups), if n < 0 then -n else n);
      assert sign == [] ==> text == Joined(groups);
      assert sign != [] ==> text[0] == sign[0] && text[1..] == Joined(groups);
    }
  }

  lemma NumeralNotEmpty(s: string)
    requires Numeral(s)
    ensures s != [] && s[0] != '-' && s[0] != '+' && DigitsOf(s) != []
  {
  }

  // ----- scalars -----

  /** A string that may stand without quotes. */
  ghost predicate Plain(s: string) {
    && Lower(s) != "true" && Lower(s) != "false"
    && (forall n :: !SpellsInt(s, n))
    && (forall t :: !Quotes(s, t))
  }

  /** The text is a way to write the value. */
  ghost predicate Spells(text: string, v: Value) {
    match v
    case Bool(b) => Lower(text) == if b then "true" else "false"
    case Int(n) => SpellsInt(text, n)
    case Str(s) => Quotes(text, s) || (text == s && Plain(s))
    case _ => false
  }

  /** A quoted text is no truth word and no numeral. */
  lemma QuoteIsNothingElse(text: string, s: string)
    requires Quotes(text, s)
    ensures Lower(text) != "true" && Lower(text) != "false" && ParseInt(text).None?
  {
    assert Lower(text)[0] == text[0];
  }

  lemma TruthWordIsNoInt(text: string)
    requires Lower(text) == "true" || Lower(text) == "false"
    ensures ParseInt(text).None?
  {
    assert |text| > 0 && LowerChar(text[0]) == Lower(text)[0];
  }

  /** The parser coerces a text to exactly the value it is a way to write: a truth word in any case, a
      numeral, a quoted string without its quotes, and anything else as it stands. */
  lemma CoerceExactly(text: string, v: Value)
    ensures Coerce(text) == v <==> Spells(text, v)
  {
    hide ParseInt, SpellsInt, Quotes, Quoted, Lower;
    QuotedExactly(text);
    forall n
      ensures ParseInt(text) == Some(n) <==> SpellsInt(text, n)
    {
      ParseIntExactly(text, n);
    }
    if Lower(text) == "true" || Lower(text) == "false" {
      TruthWordIsNoInt(text);
    }
    forall s | Quotes(text, s)
      ensures Lower(text) != "true" && Lower(text) != "false" && ParseInt(text).None?
    {
      QuoteIsNothingElse(text, s);
    }
    assert "true" != "false";
  }
}
