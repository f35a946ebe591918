/** The Python `str` operations the services rely on, over Unicode scalar values. */
module Text {
  import opened Prelude

  /** The characters `str.strip` removes. */
  predicate IsSpace(c: char) {
    var n := c as int;
    || 9 <= n <= 13 || 28 <= n <= 32 || n == 0x85 || n == 0xA0 || n == 0x1680
    || 0x2000 <= n <= 0x200A || n == 0x2028 || n == 0x2029 || n == 0x202F || n == 0x205F || n == 0x3000
  }

  /** The characters at which `str.splitlines` ends a line. */
  predicate IsBreak(c: char) {
    var n := c as int;
    10 <= n <= 13 || 28 <= n <= 30 || n == 0x85 || n == 0x2028 || n == 0x2029
  }

  predicate OneLine(s: string) {
    forall c :: c in s ==> !IsBreak(c)
  }

  function LStrip(s: string): string {
    if s != [] && IsSpace(s[0]) then LStrip(s[1..]) else s
  }

  function RStrip(s: string): string {
    if s != [] && IsSpace(Last(s)) then RStrip(s[..|s| - 1]) else s
  }

  function Strip(s: string): string {
    RStrip(LStrip(s))
  }

  /** A string that `strip` leaves alone. */
  predicate Stripped(s: string) {
    s == [] || (!IsSpace(s[0]) && !IsSpace(Last(s)))
  }

  function LowerChar(c: char): char {
    if 'A' <= c <= 'Z' then (c as int + 32) as char else c
  }

  function Lower(s: string): (r: string)
    ensures |r| == |s|
    ensures forall i :: 0 <= i < |s| ==> r[i] == LowerChar(s[i])
  {
    seq(|s|, i requires 0 <= i < |s| => LowerChar(s[i]))
  }

  /** Caseless form under which names are compared. */
  function Fold(s: string): string {
    Lower(Strip(s))
  }

  // ----- strip -----

  lemma LStripShape(s: string) returns (n: nat)
    ensures n <= |s| && LStrip(s) == s[n..]
    ensures forall i :: 0 <= i < n ==> IsSpace(s[i])
    ensures n < |s| ==> !IsSpace(s[n])
  {
    if s != [] && IsSpace(s[0]) {
      var m := LStripShape(s[1..]);
      n := m + 1;
      assert s[n..] == s[1..][m..];
      forall i | 0 <= i < n
        ensures IsSpace(s[i])
      {
        if i > 0 { assert s[i] == s[1..][i - 1]; }
      }
    } else {
      n := 0;
    }
  }

  lemma RStripShape(s: string) returns (n: nat)
    ensures n <= |s| && RStrip(s) == s[..n]
    ensures forall i :: n <= i < |s| ==> IsSpace(s[i])
    ensures n > 0 ==> !IsSpace(s[n - 1])
  {
    if s != [] && IsSpace(Last(s)) {
      n := RStripShape(s[..|s| - 1]);
      assert s[..|s| - 1][..n] == s[..n];
      forall i | n <= i < |s|
        ensures IsSpace(s[i])
      {
        if i < |s| - 1 { assert s[i] == s[..|s| - 1][i]; }
      }
    } else {
      n := |s|;
      assert s[..n] == s;
    }
  }

  lemma LStripPadding(pad: string, s: string)
    requires forall c :: c in pad ==> IsSpace(c)
    ensures LStrip(pad + s) == LStrip(s)
  {
    if pad == [] {
      assert pad + s == s;
    } else {
      assert (pad + s)[1..] == pad[1..] + s;
      LStripPadding(pad[1..], s);
    }
  }

  lemma RStripPadding(s: string, pad: string)
    requires forall c :: c in pad ==> IsSpace(c)
    ensures RStrip(s + pad) == RStrip(s)
  {
    if pad == [] {
      assert s + pad == s;
    } else {
      var init := pad[..|pad| - 1];
      assert Last(s + pad) == Last(pad) && Last(pad) in pad;
      assert (s + pad)[..|s + pad| - 1] == s + init;
      RStripPadding(s, init);
    }
  }

  lemma RStripAppend(s: string, t: string)
    requires t != [] && !IsSpace(Last(t))
    ensures RStrip(s + t) == s + t
  {
    assert Last(s + t) == Last(t);
  }

  /** Padding on both sides of a stripped string is exactly what `strip` removes. */
  lemma StripPadding(left: string, s: string, right: string)
    requires Stripped(s)
    requires forall c :: c in left ==> IsSpace(c)
    requires forall c :: c in right ==> IsSpace(c)
    ensures Strip(left + s + right) == s
  {
    assert left + s + right == left + (s + right);
    LStripPadding(left, s + right);
    if s == [] {
      assert s + right == right;
      LStripPadding(right, []);
      assert right + [] == right;
      assert LStrip(right) == [];
    } else {
      assert (s + right)[0] == s[0];
      RStripPadding(s, right);
    }
  }

  lemma StripOfStripped(s: string)
    requires Stripped(s)
    ensures Strip(s) == s && LStrip(s) == s && RStrip(s) == s
  {
    StripPadding([], s, []);
    assert [] + s + [] == s;
  }

  lemma StripIsStripped(s: string)
    ensures Stripped(Strip(s))
    ensures Strip(Strip(s)) == Strip(s)
    ensures forall c :: c in Strip(s) ==> c in s
  {
    var a := LStripShape(s);
    var t := s[a..];
    var b := RStripShape(t);
    if b > 0 {
      assert Strip(s)[0] == t[0] == s[a];
      assert Last(Strip(s)) == t[b - 1];
    }
    StripOfStripped(Strip(s));
  }

  /** `strip` decomposes a string into blanks, the stripped text, and blanks. */
  lemma StripShape(s: string) returns (left: string, right: string)
    ensures s == left + Strip(s) + right
    ensures forall c :: c in left ==> IsSpace(c)
    ensures forall c :: c in right ==> IsSpace(c)
  {
    var a := LStripShape(s);
    var t := s[a..];
    var b := RStripShape(t);
    left, right := s[..a], t[b..];
    assert t == t[..b] + t[b..];
    assert s == s[..a] + s[a..];
    assert s == left + (Strip(s) + right) == left + Strip(s) + right;
  }

  lemma LowerIdempotent(s: string)
    ensures Lower(Lower(s)) == Lower(s)
    ensures forall i :: 0 <= i < |s| ==> IsSpace(Lower(s)[i]) == IsSpace(s[i])
    ensures Stripped(s) ==> Stripped(Lower(s))
  {
  }

  lemma FoldIdempotent(s: string)
    ensures Fold(Fold(s)) == Fold(s)
    ensures Fold(Strip(s)) == Fold(s)
    ensures Stripped(Fold(s))
  {
    StripIsStripped(s);
    LowerIdempotent(Strip(s));
    StripOfStripped(Fold(s));
  }

  // ----- lines -----

  function BreakIndex(s: string): (i: nat)
    ensures i <= |s|
    ensures forall j :: 0 <= j < i ==> !IsBreak(s[j])
    ensures i < |s| ==> IsBreak(s[i])
  {
    if s == [] || IsBreak(s[0]) then 0 else 1 + BreakIndex(s[1..])
  }

  /** The width of the line ending at `i`: a carriage return and line feed count as one. */
  function BreakWidth(s: string, i: nat): (w: nat)
    requires i < |s|
    ensures 1 <= w && i + w <= |s|
  {
    if s[i] == '\r' && i + 1 < |s| && s[i + 1] == '\n' then 2 else 1
  }

  function SplitLines(s: string): seq<string>
    decreases |s|
  {
    if s == [] then []
    else
      var i := BreakIndex(s);
      if i == |s| then [s]
      else [s[..i]] + SplitLines(s[i + BreakWidth(s, i)..])
  }

  lemma SplitLinesAreLines(s: string)
    ensures forall l :: l in SplitLines(s) ==> OneLine(l) && forall c :: c in l ==> c in s
    decreases |s|
  {
    if s != [] {
      var i := BreakIndex(s);
      if i < |s| {
        SplitLinesAreLines(s[i + BreakWidth(s, i)..]);
      }
    }
  }

  /** Every line followed by a line feed. */
  function Unlines(lines: seq<string>): string {
    if lines == [] then [] else lines[0] + "\n" + Unlines(lines[1..])
  }

  lemma SplitFirstLine(line: string, rest: string)
    requires OneLine(line)
    ensures SplitLines(line + "\n" + rest) == [line] + SplitLines(rest)
  {
    var s := line + "\n" + rest;
    var i := BreakIndex(s);
    assert s[|line|] == '\n';
    assert forall j :: 0 <= j < |line| ==> s[j] == line[j] && s[j] in line;
    assert i == |line|;
    assert s[..i] == line;
    assert s[i + 1..] == rest;
  }

  lemma {:induction false} SplitUnlines(lines: seq<string>)
    requires forall l :: l in lines ==> OneLine(l)
    ensures SplitLines(Unlines(lines)) == lines
  {
    if lines != [] {
      assert lines[0] in lines;
      assert forall l :: l in lines[1..] ==> l in lines;
      SplitUnlines(lines[1..]);
      SplitFirstLine(lines[0], Unlines(lines[1..]));
      assert lines == [lines[0]] + lines[1..];
    }
  }

  /** Python's `"\n".join(lines)`. */
  function Join(lines: seq<string>): string {
    if lines == [] then []
    else if |lines| == 1 then lines[0]
    else lines[0] + "\n" + Join(lines[1..])
  }

  lemma {:induction false} JoinIsUnlines(lines: seq<string>)
    requires lines != []
    ensures Join(lines) + "\n" == Unlines(lines)
  {
    if |lines| == 1 {
      assert Unlines(lines[1..]) == [];
      assert Unlines(lines) == lines[0] + "\n";
    } else {
      JoinIsUnlines(lines[1..]);
      assert Join(lines) + "\n" == lines[0] + "\n" + (Join(lines[1..]) + "\n");
    }
  }

  // ----- first occurrence of a character -----

  function IndexOf(s: string, c: char): (i: nat)
    ensures i <= |s|
    ensures forall j :: 0 <= j < i ==> s[j] != c
    ensures i < |s| ==> s[i] == c
    ensures i < |s| <==> c in s
  {
    if s == [] || s[0] == c then 0 else 1 + IndexOf(s[1..], c)
  }

  lemma IndexOfAfter(head: string, c: char, tail: string)
    requires c !in head
    ensures IndexOf(head + [c] + tail, c) == |head|
  {
    var s := head + [c] + tail;
    var i := IndexOf(s, c);
    assert s[|head|] == c;
    assert forall j :: 0 <= j < |head| ==> s[j] == head[j] && s[j] in head;
    assert i == |head|;
  }

  // ----- decimal numerals -----

  predicate IsDigit(c: char) {
    '0' <= c <= '9'
  }

  predicate AllDigits(s: string) {
    forall c :: c in s ==> IsDigit(c)
  }

  function DigitValue(c: char): (d: nat)
    requires IsDigit(c)
    ensures d < 10
  {
    c as int - '0' as int
  }

  function DigitChar(d: nat): (c: char)
    requires d < 10
    ensures IsDigit(c) && DigitValue(c) == d
  {
    (d + '0' as int) as char
  }

  function NatToString(n: nat): (s: string)
    ensures s != [] && AllDigits(s)
    decreases n
  {
    if n < 10 then [DigitChar(n)] else NatToString(n / 10) + [DigitChar(n % 10)]
  }

  function StringToNat(s: string): nat
    requires AllDigits(s)
  {
    if s == [] then 0
    else
      assert Last(s) in s;
      10 * StringToNat(s[..|s| - 1]) + DigitValue(Last(s))
  }

  lemma {:induction false} NatRoundTrip(n: nat)
    ensures StringToNat(NatToString(n)) == n
  {
    if n >= 10 {
      NatRoundTrip(n / 10);
      var s := NatToString(n);
      assert s[..|s| - 1] == NatToString(n / 10);
      assert Last(s) == DigitChar(n % 10);
    } else {
      var s := NatToString(n);
      assert s[..|s| - 1] == [];
    }
  }

  function Zeros(z: nat): (s: string)
    ensures |s| == z && forall c :: c in s ==> c == '0'
  {
    seq(z, i => '0')
  }

  /** A decimal numeral of `n`, possibly with leading zeros. */
  ghost predicate Numbers(s: string, n: nat) {
    exists z :: s == Zeros(z) + NatToString(n)
  }

  lemma {:induction false} LeadingZero(s: string)
    requires AllDigits(s)
    ensures AllDigits(['0'] + s) && StringToNat(['0'] + s) == StringToNat(s)
    decreases |s|
  {
    var t := ['0'] + s;
    if s == [] {
      assert t[..0] == [] && Last(t) == '0';
    } else {
      assert t[..|t| - 1] == ['0'] + s[..|s| - 1] && Last(t) == Last(s);
      LeadingZero(s[..|s| - 1]);
    }
  }

  lemma {:induction false} LeadingZeros(z: nat, s: string)
    requires AllDigits(s)
    ensures AllDigits(Zeros(z) + s) && StringToNat(Zeros(z) + s) == StringToNat(s)
  {
    if z == 0 {
      assert Zeros(0) + s == s;
    } else {
      LeadingZeros(z - 1, s);
      assert Zeros(z) + s == ['0'] + (Zeros(z - 1) + s);
      LeadingZero(Zeros(z - 1) + s);
    }
  }

  lemma {:induction false} DigitsAreDecimal(s: string) returns (z: nat)
    requires s != [] && AllDigits(s)
    ensures s == Zeros(z) + NatToString(StringToNat(s))
    decreases |s|
  {
    hide NatToString, StringToNat, Zeros;
    var init, d := s[..|s| - 1], Last(s);
    assert s == init + [d] && d in s;
    LastDigit(s);
    if init == [] {
      z := 0;
      OneDigit(DigitValue(d));
      assert Zeros(0) == [];
    } else {
      z := DigitsAreDecimal(init);
      z := OneMoreDigit(z, StringToNat(init), d);
    }
  }

  lemma LastDigit(s: string)
    requires s != [] && AllDigits(s)
    ensures IsDigit(Last(s)) && AllDigits(s[..|s| - 1])
    ensures StringToNat(s) == 10 * StringToNat(s[..|s| - 1]) + DigitValue(Last(s)) && StringToNat([]) == 0
  {
    assert Last(s) in s;
  }

  lemma OneMoreDigit(z: nat, m: nat, d: char) returns (z': nat)
    requires IsDigit(d)
    ensures Zeros(z) + NatToString(m) + [d] == Zeros(z') + NatToString(10 * m + DigitValue(d))
  {
    hide NatToString;
    OneDigit(DigitValue(d));
    if m == 0 {
      OneDigit(0);
      z' := z + 1;
      assert Zeros(z) + ['0'] + [d] == Zeros(z + 1) + [d];
    } else {
      z' := z;
      NextDigit(m, DigitValue(d));
      assert Zeros(z) + NatToString(m) + [d] == Zeros(z) + (NatToString(m) + [d]);
    }
  }

  lemma OneDigit(d: nat)
    requires d < 10
    ensures NatToString(d) == [DigitChar(d)] && forall c :: IsDigit(c) && DigitValue(c) == d ==> c == DigitChar(d)
  {
  }

  lemma NextDigit(m: nat, d: nat)
    requires 0 < m && d < 10
    ensures NatToString(10 * m + d) == NatToString(m) + [DigitChar(d)]
  {
  }

  /** A string of digits stands for the one number it is a numeral of. */
  lemma NumbersExactly(s: string, n: nat)
    ensures Numbers(s, n) <==> s != [] && AllDigits(s) && StringToNat(s) == n
  {
    hide NatToString, StringToNat;
    if s != [] && AllDigits(s) {
      var z := DigitsAreDecimal(s);
    }
    if Numbers(s, n) {
      var z :| s == Zeros(z) + NatToString(n);
      NatRoundTrip(n);
      LeadingZeros(z, NatToString(n));
    }
  }

  function IntToString(n: int): string {
    if n < 0 then "-" + NatToString(-n) else NatToString(n)
  }

  // ----- identifiers -----

  predicate IdentStart(c: char) {
    'A' <= c <= 'Z' || 'a' <= c <= 'z' || c == '_'
  }

  predicate IdentChar(c: char) {
    IdentStart(c) || '0' <= c <= '9'
  }

  /** The length of the run of identifier characters that `s` begins with. */
  function IdentLength(s: string): (n: nat)
    ensures n <= |s|
    ensures forall i :: 0 <= i < n ==> IdentChar(s[i])
    ensures n < |s| ==> !IdentChar(s[n])
  {
    if s == [] || !IdentChar(s[0]) then 0 else 1 + IdentLength(s[1..])
  }

  // ----- quotes -----

  predicate Quoted(s: string, quote: char) {
    s != [] && s[0] == quote && Last(s) == quote
  }

  /** A string in single or double quotes; a lone quote is an empty string. */
  predicate Quotes(text: string, s: string) {
    || text == ['"'] + s + ['"'] || text == ['\''] + s + ['\'']
    || ((text == ['"'] || text == ['\'']) && s == [])
  }

  lemma QuotedExactly(text: string)
    ensures (Quoted(text, '"') || Quoted(text, '\'')) <==> exists s :: Quotes(text, s)
    ensures forall s :: Quotes(text, s) ==> s == if |text| < 2 then [] else text[1..|text| - 1]
  {
    hide Quotes, Quoted;
    var inner := if |text| < 2 then [] else text[1..|text| - 1];
    QuotedIsQuotes(text);
    forall s | Quotes(text, s)
      ensures s == inner && (Quoted(text, '"') || Quoted(text, '\''))
    {
      QuotesIsQuoted(text, s);
    }
  }

  lemma QuotedIsQuotes(text: string)
    ensures Quoted(text, '"') || Quoted(text, '\'') ==> Quotes(text, if |text| < 2 then [] else text[1..|text| - 1])
  {
    if |text| >= 2 {
      var inner := text[1..|text| - 1];
      assert text == [text[0]] + inner + [text[|text| - 1]];
    } else if |text| == 1 {
      assert text == [text[0]];
    }
  }

  lemma QuotesIsQuoted(text: string, s: string)
    requires Quotes(text, s)
    ensures s == if |text| < 2 then [] else text[1..|text| - 1]
    ensures Quoted(text, '"') || Quoted(text, '\'')
  {
    if |text| >= 2 { assert text[1..|text| - 1] == s; }
  }

  // ----- order by code point -----

  predicate LexLess(a: string, b: string) {
    if b == [] then false
    else if a == [] then true
    else if a[0] != b[0] then a[0] < b[0]
    else LexLess(a[1..], b[1..])
  }

  lemma LexTotal(a: string, b: string)
    ensures a == b || LexLess(a, b) || LexLess(b, a)
    ensures !(LexLess(a, b) && LexLess(b, a))
    ensures !LexLess(a, a)
  {
    if a != [] && b != [] && a[0] == b[0] {
      LexTotal(a[1..], b[1..]);
      assert a == [a[0]] + a[1..] && b == [b[0]] + b[1..];
    }
    if a != [] { LexIrreflexive(a); }
  }

  lemma LexIrreflexive(a: string)
    ensures !LexLess(a, a)
  {
  }

  lemma LexTransitive(a: string, b: string, c: string)
    requires LexLess(a, b) && LexLess(b, c)
    ensures LexLess(a, c)
  {
    if a != [] && a[0] == b[0] && b[0] == c[0] {
      LexTransitive(a[1..], b[1..], c[1..]);
    }
  }
}
