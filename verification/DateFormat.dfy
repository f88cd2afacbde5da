/** Printing and parsing dates by a template, for the numeric directives
    `%Y %m %d %e %H %M %S %L`. */
module DateFormat {

  import opened Calendar
  import opened Decimals
  import opened Options

  /** What parsing fills in. */
  datatype Fields = Fields(y: int, m: int, d: int, hh: int, mm: int, ss: int, ll: int)

  const DEFAULTS := Fields(1900, 0, 1, 0, 0, 0, 0)

  // ---------------------------------------------------------------------------
  // Templates
  // ---------------------------------------------------------------------------

  /** `Stray` is a percent sign at the very end. */
  datatype Item = Literal(c: char) | Directive(c: char) | Stray

  function Items(template: string): seq<Item> {
    if template == [] then []
    else if template[0] != '%' then [Literal(template[0])] + Items(template[1..])
    else if |template| == 1 then [Stray]
    else [Directive(template[1])] + Items(template[2..])
  }

  const NUMERIC := {'Y', 'm', 'd', 'e', 'H', 'M', 'S', 'L'}

  /** The directives of d3 that are not numeric fields of the date. */
  const OTHERS := {'a', 'A', 'b', 'B', 'c', 'I', 'j', 'p', 'U', 'w', 'W', 'x', 'X', 'y', 'Z'}

  /** The template uses none of the directives that are left out here. */
  predicate Modelled(items: seq<Item>) {
    forall i :: 0 <= i < |items| && items[i].Directive? ==> items[i].c !in OTHERS
  }

  // ---------------------------------------------------------------------------
  // Numbers
  // ---------------------------------------------------------------------------

  /** What JavaScript's `%` gives: the sign is that of the first operand. */
  function Remainder(a: int, n: int): int
    requires n > 0
  {
    if a >= 0 then a % n else -((-a) % n)
  }

  const MINUS := '\U{2212}'

  predicate IsSpace(c: char) {
    c in {' ', '\t', '\n', '\r', '\U{0B}', '\U{0C}', '\U{A0}', '\U{FEFF}',
      '\U{1680}', '\U{2028}', '\U{2029}', '\U{202F}', '\U{205F}', '\U{3000}'}
    || '\U{2000}' <= c <= '\U{200A}'
  }

  function Fill(k: nat, c: char): (s: string)
    ensures |s| == k && forall i :: 0 <= i < k ==> s[i] == c
  {
    if k == 0 then [] else [c] + Fill(k - 1, c)
  }

  /** `d3.format` of a width and a fill character. */
  function Pad(n: nat, width: nat, fill: char): string {
    var s := Decimal(n);
    if |s| < width then Fill(width - |s|, fill) + s else s
  }

  function LeadingSpaces(s: string): (k: nat)
    ensures k <= |s|
  {
    if s != [] && IsSpace(s[0]) then 1 + LeadingSpaces(s[1..]) else 0
  }

  function LeadingDigits(s: string): (k: nat)
    ensures k <= |s|
  {
    if s != [] && IsDigit(s[0]) then 1 + LeadingDigits(s[1..]) else 0
  }

  /** The length of a match of spaces and then digits at the start; 0 if there is none. */
  function MatchLength(s: string): (k: nat)
    ensures k <= |s|
  {
    var sp := LeadingSpaces(s);
    var di := LeadingDigits(s[sp..]);
    if di == 0 then 0 else sp + di
  }

  /** The first such match anywhere in the string: the expression is not anchored. */
  function FirstNumber(s: string): (r: Option<string>) {
    if s == [] then None
    else if MatchLength(s) > 0 then Some(s[..MatchLength(s)])
    else FirstNumber(s[1..])
  }

  function DigitsValue(s: string): (n: int) {
    if s == [] then 0
    else DigitsValue(s[..|s| - 1]) * 10 + (if IsDigit(s[|s| - 1]) then (s[|s| - 1] as int) - ('0' as int) else 0)
  }

  function NumberValue(s: string): (n: int) {
    DigitsValue(s[LeadingSpaces(s)..])
  }

  lemma {:induction false} DecimalValue(n: nat)
    ensures DigitsValue(Decimal(n)) == n
    decreases n
  {
    var s := Decimal(n);
    assert s[|s| - 1] == "0123456789"[n % 10];
    if n < 10 {
      assert s[..|s| - 1] == [];
    } else {
      DecimalValue(n / 10);
      assert s[..|s| - 1] == Decimal(n / 10);
    }
  }

  lemma {:induction false} ZerosValue(k: nat, s: string)
    ensures DigitsValue(Fill(k, '0') + s) == DigitsValue(s)
    decreases |s| + k
  {
    if s != [] {
      ZerosValue(k, s[..|s| - 1]);
      assert (Fill(k, '0') + s)[..k + |s| - 1] == Fill(k, '0') + s[..|s| - 1];
    } else if k > 0 {
      ZerosValue(k - 1, s);
      FillEnd(k, '0');
      assert (Fill(k, '0') + s)[..k - 1] == Fill(k - 1, '0') + s;
    }
  }

  lemma {:induction false} FillEnd(k: nat, c: char)
    requires k > 0
    ensures Fill(k, c)[..k - 1] == Fill(k - 1, c)
  {}

  lemma {:induction false} DecimalLength(n: nat, width: nat)
    requires width > 0 && n < Power10(width)
    ensures |Decimal(n)| <= width
    decreases width
  {
    if n >= 10 { DecimalLength(n / 10, width - 1); }
  }

  function Power10(k: nat): nat {
    if k == 0 then 1 else 10 * Power10(k - 1)
  }

  lemma {:induction false} AllDigits(s: string)
    requires forall i :: 0 <= i < |s| ==> IsDigit(s[i])
    ensures LeadingDigits(s) == |s| && LeadingSpaces(s) == 0
    decreases |s|
  {
    if s != [] { AllDigits(s[1..]); }
  }

  lemma {:induction false} SpacesFirst(k: nat, s: string)
    requires s != [] && IsDigit(s[0])
    ensures LeadingSpaces(Fill(k, ' ') + s) == k
    decreases k
  {
    if k > 0 {
      SpacesFirst(k - 1, s);
      assert (Fill(k, ' ') + s)[1..] == Fill(k - 1, ' ') + s;
    }
  }

  /** A padded number of the right width is read back as it stands. */
  lemma {:induction false} PaddedReadsBack(n: nat, width: nat, fill: char)
    requires width > 0 && n < Power10(width) && (fill == '0' || fill == ' ')
    ensures var s := Pad(n, width, fill); |s| == width && FirstNumber(s) == Some(s) && NumberValue(s) == n
  {
    hide Decimal, Power10, LeadingSpaces, LeadingDigits, DigitsValue;
    var d, s := Decimal(n), Pad(n, width, fill);
    DecimalLength(n, width);
    DecimalValue(n);
    AllDigits(d);
    var k := width - |d|;
    FillNothing(fill);
    assert s == Fill(k, fill) + d;
    if fill == ' ' {
      SpacesFirst(k, d);
      assert s[k..] == d;
    } else {
      ZerosValue(k, d);
      AllDigits(s);
      assert s[0..] == s;
    }
    assert s[..width] == s;
  }

  /** The number that is found in any text: the first run of digits with the spaces just
      before it, wherever it stands. */
  lemma {:induction false} FirstNumberIs(before: string, spaces: string, digits: string, after: string)
    requires forall i :: 0 <= i < |before| ==> !IsDigit(before[i])
    requires before == "" || !IsSpace(before[|before| - 1])
    requires forall i :: 0 <= i < |spaces| ==> IsSpace(spaces[i])
    requires digits != "" && forall i :: 0 <= i < |digits| ==> IsDigit(digits[i])
    requires after == "" || !IsDigit(after[0])
    ensures FirstNumber(before + (spaces + digits + after)) == Some(spaces + digits)
    decreases |before|
  {
    var s, t := before + (spaces + digits + after), spaces + digits + after;
    if before == "" {
      assert s == t;
      MatchIs(spaces, digits, after);
      assert t[..|spaces| + |digits|] == spaces + digits;
    } else {
      NoMatch(before, t);
      assert s[1..] == before[1..] + t;
      FirstNumberIs(before[1..], spaces, digits, after);
    }
  }

  lemma {:induction false} NoNumber(s: string)
    requires forall i :: 0 <= i < |s| ==> !IsDigit(s[i])
    ensures FirstNumber(s) == None
  {
    if s != "" {
      var sp := LeadingSpaces(s);
      assert s[sp..] == "" || !IsDigit(s[sp..][0]);
      NoNumber(s[1..]);
    }
  }

  lemma {:induction false} MatchIs(spaces: string, digits: string, after: string)
    requires forall i :: 0 <= i < |spaces| ==> IsSpace(spaces[i])
    requires digits != "" && forall i :: 0 <= i < |digits| ==> IsDigit(digits[i])
    requires after == "" || !IsDigit(after[0])
    ensures MatchLength(spaces + digits + after) == |spaces| + |digits|
  {
    var t := digits + after;
    assert spaces + digits + after == spaces + t && t[0] == digits[0];
    SpacesLead(spaces, t);
    assert (spaces + t)[|spaces|..] == t;
    DigitsLead(digits, after);
  }

  lemma {:induction false} SpacesLead(spaces: string, t: string)
    requires (forall i :: 0 <= i < |spaces| ==> IsSpace(spaces[i])) && (t == "" || !IsSpace(t[0]))
    ensures LeadingSpaces(spaces + t) == |spaces|
    decreases |spaces|
  {
    if spaces == "" {
      assert spaces + t == t;
    } else {
      assert (spaces + t)[1..] == spaces[1..] + t;
      SpacesLead(spaces[1..], t);
    }
  }

  lemma {:induction false} DigitsLead(digits: string, after: string)
    requires (forall i :: 0 <= i < |digits| ==> IsDigit(digits[i])) && (after == "" || !IsDigit(after[0]))
    ensures LeadingDigits(digits + after) == |digits|
    decreases |digits|
  {
    if digits == "" {
      assert digits + after == after;
    } else {
      assert (digits + after)[1..] == digits[1..] + after;
      DigitsLead(digits[1..], after);
    }
  }

  /** Before something that is neither digit nor space, no match starts. */
  lemma {:induction false} NoMatch(before: string, t: string)
    requires before != "" && !IsSpace(before[|before| - 1])
    requires forall i :: 0 <= i < |before| ==> !IsDigit(before[i])
    ensures MatchLength(before + t) == 0
  {
    var s := before + t;
    LeadingStop(s, |before| - 1);
    var sp := LeadingSpaces(s);
    assert s[sp] == before[sp] && s[sp..][0] == s[sp];
  }

  lemma {:induction false} LeadingStop(s: string, i: nat)
    requires i < |s| && !IsSpace(s[i])
    ensures LeadingSpaces(s) <= i
    decreases i
  {
    if i > 0 && IsSpace(s[0]) { LeadingStop(s[1..], i - 1); }
  }

  lemma FillNothing(c: char)
    ensures Fill(0, c) == []
  {}

  // ---------------------------------------------------------------------------
  // What printing and parsing compute
  // ---------------------------------------------------------------------------

  /** The text of an item. An unknown directive prints its own letter. */
  function Printed(item: Item, d: Date): string {
    match item
    case Literal(c) => [c]
    case Stray => []
    case Directive(c) =>
      if c == 'Y' then PrintedYear(Remainder(d.year, 10000))
      else if c == 'm' then Pad(d.month + 1, 2, '0')
      else if c == 'd' then Pad(d.day, 2, '0')
      else if c == 'e' then Pad(d.day, 2, ' ')
      else if c == 'H' then Pad(d.hours, 2, '0')
      else if c == 'M' then Pad(d.minutes, 2, '0')
      else if c == 'S' then Pad(d.seconds, 2, '0')
      else if c == 'L' then Pad(d.millis, 3, '0')
      else [c]
  }

  /** Zeros go between the sign and the digits. */
  function PrintedYear(y: int): string {
    if y >= 0 then Pad(y, 4, '0') else [MINUS] + Pad(-y, 3, '0')
  }

  function PrintedAll(items: seq<Item>, d: Date): string {
    if items == [] then [] else Printed(items[0], d) + PrintedAll(items[1..], d)
  }

  /** How far the parser of the directive looks. */
  function Width(c: char): nat {
    if c == 'Y' then 4 else if c == 'L' then 3 else 2
  }

  function SetField(f: Fields, c: char, n: int): Fields {
    if c == 'Y' then f.(y := n)
    else if c == 'm' then f.(m := n - 1)
    else if c == 'd' || c == 'e' then f.(d := n)
    else if c == 'H' then f.(hh := n)
    else if c == 'M' then f.(mm := n)
    else if c == 'S' then f.(ss := n)
    else f.(ll := n)
  }

  /** `substring` clamps its bounds. */
  function Substring(s: string, i: nat, j: nat): string
    requires i <= j
  {
    if i >= |s| then [] else if j >= |s| then s[i..] else s[i..j]
  }

  /** One numeric directive at position `j`: the fields after, and the next position. */
  function ParseNumber(c: char, s: string, j: nat, f: Fields): Option<(Fields, nat)> {
    var n := FirstNumber(Substring(s, j, j + Width(c)));
    if n.None? then None else Some((SetField(f, c, NumberValue(n.value)), j + |n.value|))
  }

  function ParsedAll(items: seq<Item>, s: string, j: nat, f: Fields): Option<(Fields, nat)> {
    if items == [] then Some((f, j))
    else if j >= |s| then None
    else
      match items[0]
      case Stray => None
      case Literal(c) => if c != s[j] then None else ParsedAll(items[1..], s, j + 1, f)
      case Directive(c) =>
        if c !in NUMERIC then None
        else
          var r := ParseNumber(c, s, j, f);
          if r.None? then None else ParsedAll(items[1..], s, r.value.1, r.value.0)
  }

  // ---------------------------------------------------------------------------
  // Which strings are parsed
  // ---------------------------------------------------------------------------

  /** The piece of the string from `i` to `k` is what the item wants there. A directive
      takes as many characters as its number has, even where the number comes later. */
  ghost predicate Takes(item: Item, s: string, i: nat, k: nat) {
    match item
    case Stray => false
    case Literal(c) => i < |s| && s[i] == c && k == i + 1
    case Directive(c) =>
      && i < |s| && c in NUMERIC
      && var n := FirstNumber(Substring(s, i, i + Width(c)));
         n.Some? && k == i + |n.value|
  }

  /** The string is cut into one piece for each item, from `j` to the last cut. */
  ghost predicate Cut(items: seq<Item>, s: string, j: nat, cuts: seq<nat>) {
    && |cuts| == |items| + 1 && cuts[0] == j
    && forall k :: 0 <= k < |items| ==> Takes(items[k], s, cuts[k], cuts[k + 1])
  }

  /** Parsing succeeds if and only if the string can be cut so, and stops at the last cut. */
  lemma {:induction false} ParsedIff(items: seq<Item>, s: string, j: nat, f: Fields)
    ensures var r := ParsedAll(items, s, j, f);
      && (r.Some? <==> exists cuts :: Cut(items, s, j, cuts))
      && (forall cuts :: Cut(items, s, j, cuts) ==> r.Some? && r.value.1 == cuts[|items|])
    decreases |items|
  {
    hide FirstNumber, Substring, SetField, NumberValue;
    var r := ParsedAll(items, s, j, f);
    if items == [] {
      assert Cut(items, s, j, [j]);
    } else {
      forall cuts | Cut(items, s, j, cuts) ensures r.Some? && r.value.1 == cuts[|items|] {
        assert Takes(items[0], s, cuts[0], cuts[1]);
        var g := AfterItem(items[0], s, j, f);
        CutRest(items, s, cuts);
        ParsedIff(items[1..], s, cuts[1], g);
      }
      if r.Some? {
        var k, g := ItemEnd(items[0], s, j), AfterItem(items[0], s, j, f);
        ParsedIff(items[1..], s, k, g);
        var cuts :| Cut(items[1..], s, k, cuts);
        CutFirst(items, s, j, cuts);
      }
    }
  }

  /** Where an item's piece ends, and the fields after it. */
  ghost function ItemEnd(item: Item, s: string, i: nat): nat {
    if item.Directive? && FirstNumber(Substring(s, i, i + Width(item.c))).Some?
    then i + |FirstNumber(Substring(s, i, i + Width(item.c))).value| else i + 1
  }

  ghost function AfterItem(item: Item, s: string, i: nat, f: Fields): Fields {
    if item.Directive? && FirstNumber(Substring(s, i, i + Width(item.c))).Some?
    then SetField(f, item.c, NumberValue(FirstNumber(Substring(s, i, i + Width(item.c))).value)) else f
  }

  lemma CutRest(items: seq<Item>, s: string, cuts: seq<nat>)
    requires items != [] && |cuts| == |items| + 1 && Cut(items, s, cuts[0], cuts)
    ensures Cut(items[1..], s, cuts[1], cuts[1..])
  {
    hide Takes;
    forall k | 0 <= k < |items| - 1 ensures Takes(items[1..][k], s, cuts[1..][k], cuts[1..][k + 1]) {
      assert Takes(items[k + 1], s, cuts[k + 1], cuts[k + 2]);
    }
  }

  lemma CutFirst(items: seq<Item>, s: string, j: nat, cuts: seq<nat>)
    requires items != [] && |cuts| == |items| && Cut(items[1..], s, cuts[0], cuts)
    requires Takes(items[0], s, j, cuts[0])
    ensures Cut(items, s, j, [j] + cuts)
  {
    hide Takes;
    var all := [j] + cuts;
    forall k | 0 <= k < |items| ensures Takes(items[k], s, all[k], all[k + 1]) {
      if k > 0 { assert Takes(items[1..][k - 1], s, cuts[k - 1], cuts[k]); }
    }
  }

  // ---------------------------------------------------------------------------
  // The round trip
  // ---------------------------------------------------------------------------

  /** The fields with what the template mentions taken from the date. */
  function Recovered(items: seq<Item>, d: Date, f: Fields): Fields {
    Fields(if Mentions(items, 'Y') then Remainder(d.year, 10000) else f.y,
           if Mentions(items, 'm') then d.month else f.m,
           if Mentions(items, 'd') || Mentions(items, 'e') then d.day else f.d,
           if Mentions(items, 'H') then d.hours else f.hh,
           if Mentions(items, 'M') then d.minutes else f.mm,
           if Mentions(items, 'S') then d.seconds else f.ss,
           if Mentions(items, 'L') then d.millis else f.ll)
  }

  predicate Mentions(items: seq<Item>, c: char) {
    Directive(c) in items
  }

  lemma MentionsNext(items: seq<Item>)
    requires items != []
    ensures forall c :: Mentions(items, c) <==> items[0] == Directive(c) || Mentions(items[1..], c)
  {
    assert items == [items[0]] + items[1..];
  }

  /** Every item can be parsed: there is no stray percent sign and no unknown directive. */
  predicate Parseable(items: seq<Item>) {
    forall i :: 0 <= i < |items| ==> CanParse(items[i])
  }

  function FieldOf(c: char, d: Date): int {
    if c == 'Y' then Remainder(d.year, 10000)
    else if c == 'm' then d.month + 1
    else if c == 'd' || c == 'e' then d.day
    else if c == 'H' then d.hours
    else if c == 'M' then d.minutes
    else if c == 'S' then d.seconds
    else d.millis
  }

  /** Text of so many digits. */
  predicate DigitsOnly(s: string, n: nat) {
    |s| == n && forall i :: 0 <= i < n ==> IsDigit(s[i])
  }

  lemma {:induction false} PaddedDigits(n: nat, width: nat)
    requires width > 0 && n < Power10(width)
    ensures DigitsOnly(Pad(n, width, '0'), width) && DigitsValue(Pad(n, width, '0')) == n
  {
    DecimalLength(n, width);
    DecimalValue(n);
    ZerosValue(width - |Decimal(n)|, Decimal(n));
    FillNothing('0');
    assert Pad(n, width, '0') == Fill(width - |Decimal(n)|, '0') + Decimal(n);
  }

  /** What each directive prints: months count from 1, `%e` pads with a space instead of a
      zero, and a negative year has its sign before three digits or more. */
  lemma {:induction false} DirectivesMean(d: Date)
    requires Proper(d)
    ensures var s := Printed(Directive('m'), d); DigitsOnly(s, 2) && DigitsValue(s) == d.month + 1
    ensures var s := Printed(Directive('d'), d); DigitsOnly(s, 2) && DigitsValue(s) == d.day
    ensures var s := Printed(Directive('d'), d);
            Printed(Directive('e'), d) == if d.day < 10 then " " + s[1..] else s
    ensures var s := Printed(Directive('H'), d); DigitsOnly(s, 2) && DigitsValue(s) == d.hours
    ensures var s := Printed(Directive('M'), d); DigitsOnly(s, 2) && DigitsValue(s) == d.minutes
    ensures var s := Printed(Directive('S'), d); DigitsOnly(s, 2) && DigitsValue(s) == d.seconds
    ensures var s := Printed(Directive('L'), d); DigitsOnly(s, 3) && DigitsValue(s) == d.millis
    ensures var s := Printed(Directive('Y'), d);
            if d.year >= 0 then DigitsOnly(s, 4) && DigitsValue(s) == d.year % 10000
            else if (-d.year) % 10000 == 0 then s == "0000"
            else s[0] == MINUS && |s| >= 4 && DigitsOnly(s[1..], |s| - 1) && DigitsValue(s[1..]) == (-d.year) % 10000
  {
    hide Pad, DigitsOnly, DigitsValue;
    assert Power10(2) == 100 && Power10(3) == 1000 && Power10(4) == 10000;
    PaddedDigits(d.month + 1, 2);
    PaddedDigits(d.day, 2);
    PaddedDigits(d.hours, 2);
    PaddedDigits(d.minutes, 2);
    PaddedDigits(d.seconds, 2);
    PaddedDigits(d.millis, 3);
    SpaceForZero(d.day);
    YearMeans(d);
  }

  lemma SpaceForZero(n: nat)
    requires 0 < n < 100
    ensures |Pad(n, 2, '0')| == 2
    ensures Pad(n, 2, ' ') == if n < 10 then " " + Pad(n, 2, '0')[1..] else Pad(n, 2, '0')
  {
    assert Power10(2) == 100;
    DecimalLength(n, 2);
    if n < 10 {
      assert Decimal(n) == ["0123456789"[n]];
      assert Fill(1, ' ') == " " && Fill(1, '0') == "0";
    } else {
      assert |Decimal(n)| == |Decimal(n / 10)| + 1 >= 2;
    }
  }

  lemma {:induction false} YearMeans(d: Date)
    ensures var s := Printed(Directive('Y'), d);
            if d.year >= 0 then DigitsOnly(s, 4) && DigitsValue(s) == d.year % 10000
            else if (-d.year) % 10000 == 0 then s == "0000"
            else s[0] == MINUS && |s| >= 4 && DigitsOnly(s[1..], |s| - 1) && DigitsValue(s[1..]) == (-d.year) % 10000
  {
    hide Pad, DigitsOnly, DigitsValue, Power10;
    var n := if d.year >= 0 then d.year % 10000 else (-d.year) % 10000;
    if d.year >= 0 {
      assert Power10(4) == 10000 by { PowerFour(); }
      PaddedDigits(n, 4);
    } else if n == 0 {
      FourZeros();
    } else {
      LongDigits(n);
      assert ([MINUS] + Pad(n, 3, '0'))[1..] == Pad(n, 3, '0');
    }
  }

  lemma PowerFour()
    ensures Power10(4) == 10000
  {}

  lemma FourZeros()
    ensures Pad(0, 4, '0') == "0000"
  {
    assert Decimal(0) == "0" && Fill(3, '0') == "000";
  }

  lemma {:induction false} LongDigits(n: nat)
    requires n < 10000
    ensures var s := Pad(n, 3, '0'); |s| >= 3 && DigitsOnly(s, |s|) && DigitsValue(s) == n
  {
    hide Decimal, DigitsValue;
    assert Power10(3) == 1000;
    if n < 1000 {
      PaddedDigits(n, 3);
    } else {
      DecimalLonger(n, 3);
      DecimalValue(n);
    }
  }

  lemma {:induction false} DecimalLonger(n: nat, width: nat)
    requires n >= Power10(width)
    ensures |Decimal(n)| > width
    decreases width
  {
    if width > 0 { DecimalLonger(n / 10, width - 1); }
  }

  /** The year is printed with a minus sign, which no parser reads. */
  predicate NegativeYear(d: Date) {
    Remainder(d.year, 10000) < 0
  }

  lemma {:induction false} FieldReadsBack(c: char, d: Date)
    requires Proper(d) && c in NUMERIC && (c == 'Y' ==> !NegativeYear(d))
    ensures var s := Printed(Directive(c), d);
            |s| == Width(c) && FirstNumber(s) == Some(s) && NumberValue(s) == FieldOf(c, d)
  {
    hide Pad, FirstNumber, NumberValue;
    assert Power10(2) == 100 && Power10(3) == 1000 && Power10(4) == 10000;
    PaddedReadsBack(FieldOf(c, d), Width(c), if c == 'e' then ' ' else '0');
  }

  lemma {:induction false} NumberParsed(c: char, d: Date, before: string, after: string, f: Fields)
    requires Proper(d) && c in NUMERIC && (c == 'Y' ==> !NegativeYear(d))
    ensures var field := Printed(Directive(c), d);
            ParseNumber(c, before + field + after, |before|, f) ==
              Some((SetField(f, c, FieldOf(c, d)), |before + field|))
  {
    hide Printed, FirstNumber, NumberValue, SetField, NegativeYear;
    var field := Printed(Directive(c), d);
    FieldReadsBack(c, d);
    assert Substring(before + field + after, |before|, |before| + Width(c)) == field;
  }

  /** The parser of the year passes over the sign and stops three digits later, which is
      short of the end of the field. */
  lemma {:induction false} NegativeYearParsed(d: Date, before: string, after: string, f: Fields)
    requires NegativeYear(d)
    ensures |Printed(Directive('Y'), d)| >= 4
    ensures var r := ParseNumber('Y', before + Printed(Directive('Y'), d) + after, |before|, f);
            r.Some? && r.value.1 == |before| + 3
  {
    hide FirstNumber, NumberValue, SetField, Decimal;
    var y := -Remainder(d.year, 10000);
    var digits, field := Pad(y, 3, '0'), Printed(Directive('Y'), d);
    assert field == [MINUS] + digits && |digits| >= 3;
    assert forall i :: 0 <= i < |digits| ==> IsDigit(digits[i]);
    assert Substring(before + field + after, |before|, |before| + 4) == [MINUS] + digits[..3];
    SignSkipped(digits[..3]);
  }

  lemma SignSkipped(digits: string)
    requires |digits| == 3 && forall i :: 0 <= i < 3 ==> IsDigit(digits[i])
    ensures FirstNumber([MINUS] + digits) == Some(digits)
  {
    AllDigits(digits);
    assert ([MINUS] + digits)[1..] == digits && ([MINUS] + digits)[0..] == [MINUS] + digits;
    assert digits[0..] == digits && digits[..3] == digits;
  }

  /** How far parsing can come. */
  function Reach(items: seq<Item>): nat {
    if items == [] then 0
    else (match items[0] case Directive(c) => Width(c) case _ => 1) + Reach(items[1..])
  }

  lemma {:induction false} FirstNumberLength(s: string)
    ensures FirstNumber(s).Some? ==> |FirstNumber(s).value| <= |s|
    decreases |s|
  {
    hide MatchLength;
    if s != [] { FirstNumberLength(s[1..]); }
  }

  lemma {:induction false} ParsedWithinReach(items: seq<Item>, s: string, j: nat, f: Fields)
    ensures var r := ParsedAll(items, s, j, f);
            r.Some? ==> Parseable(items) && r.value.1 <= j + Reach(items)
    decreases |items|
  {
    hide FirstNumber, NumberValue, SetField, Parseable;
    if items == [] {
      NothingToParse();
    } else {
      ParseableNext(items);
      match items[0]
      case Stray =>
      case Literal(c) => ParsedWithinReach(items[1..], s, j + 1, f);
      case Directive(c) =>
        var r := ParseNumber(c, s, j, f);
        FirstNumberLength(Substring(s, j, j + Width(c)));
        if r.Some? { ParsedWithinReach(items[1..], s, r.value.1, r.value.0); }
    }
  }

  lemma NothingToParse()
    ensures Parseable([])
  {}

  lemma {:induction false} PrintedReaches(items: seq<Item>, d: Date)
    requires Proper(d) && Parseable(items)
    ensures |PrintedAll(items, d)| >= Reach(items)
    decreases |items|
  {
    hide Printed, NegativeYear, Parseable;
    if items != [] {
      ParseableNext(items);
      PrintedReaches(items[1..], d);
      match items[0]
      case Literal(c) => LiteralPrinted(c, d);
      case Directive(c) =>
        if c == 'Y' && NegativeYear(d) { NegativeYearParsed(d, "", "", DEFAULTS); } else { FieldReadsBack(c, d); }
    }
  }

  lemma {:induction false} RecoveredNext(items: seq<Item>, d: Date, f: Fields)
    requires items != []
    ensures items[0].Literal? ==> Recovered(items, d, f) == Recovered(items[1..], d, f)
    ensures items[0].Directive? && items[0].c in NUMERIC ==>
              Recovered(items, d, f) == Recovered(items[1..], d, SetField(f, items[0].c, FieldOf(items[0].c, d)))
  {
    hide Mentions, Recovered, SetField, FieldOf;
    MentionsNext(items);
    if items[0].Literal? {
      SameRecovered(items, items[1..], d, f);
    } else if items[0].Directive? && items[0].c in NUMERIC {
      FieldRecovered(items, items[0].c, items[1..], d, f);
    }
  }

  lemma SameRecovered(items: seq<Item>, rest: seq<Item>, d: Date, f: Fields)
    requires forall c :: Mentions(items, c) <==> Mentions(rest, c)
    ensures Recovered(items, d, f) == Recovered(rest, d, f)
  {
    hide Mentions, Remainder;
  }

  lemma FieldRecovered(items: seq<Item>, c: char, rest: seq<Item>, d: Date, f: Fields)
    requires c in NUMERIC && forall x :: Mentions(items, x) <==> x == c || Mentions(rest, x)
    ensures Recovered(items, d, f) == Recovered(rest, d, SetField(f, c, FieldOf(c, d)))
  {
    hide Mentions, Remainder;
  }

  lemma {:induction false} ParsedAllIs(items: seq<Item>, s: string, j: nat, f: Fields)
    requires items != []
    ensures j >= |s| || items[0].Stray? || (items[0].Directive? && items[0].c !in NUMERIC) ==>
      ParsedAll(items, s, j, f) == None
    ensures j < |s| && items[0].Literal? && items[0].c == s[j] ==>
      ParsedAll(items, s, j, f) == ParsedAll(items[1..], s, j + 1, f)
    ensures j < |s| && items[0].Directive? && items[0].c in NUMERIC ==>
              var r := ParseNumber(items[0].c, s, j, f);
              ParsedAll(items, s, j, f) == if r.None? then None else ParsedAll(items[1..], s, r.value.1, r.value.0)
  {
    hide ParseNumber;
  }

  /** `format.parse` accepts only what ends with the string. */
  function Fit(r: Option<(Fields, nat)>, n: nat): Option<Fields> {
    if r.Some? && r.value.1 == n then Some(r.value.0) else None
  }

  /** Printing gives what can be read back: every item can be parsed, and no negative
      year is among them. */
  predicate ReadsBack(items: seq<Item>, d: Date) {
    Parseable(items) && !(Mentions(items, 'Y') && NegativeYear(d))
  }

  /** Parsing a printed date consumes all of it and recovers every field the template
      mentions, if and only if it can be read back. */
  lemma {:induction false} PrintedReadsBack(items: seq<Item>, d: Date, before: string, f: Fields)
    requires Proper(d) && Modelled(items)
    ensures var s := before + PrintedAll(items, d);
            Fit(ParsedAll(items, s, |before|, f), |s|) ==
              if ReadsBack(items, d) then Some(Recovered(items, d, f)) else None
    decreases |items|
  {
    hide ParsedAll, ParseNumber, Printed, Recovered, SetField, FieldOf, NegativeYear, Parseable, Mentions, Reach;
    var s := before + PrintedAll(items, d);
    if items == [] {
      NothingParsed(s, |before|, f, d);
    } else {
      var item, rest := items[0], items[1..];
      var text := Printed(item, d);
      var after := PrintedAll(rest, d);
      ParsedAllIs(items, s, |before|, f);
      RecoveredNext(items, d, f);
      MentionsNext(items);
      assert s == before + text + after;
      ParseableNext(items);
      if item.Literal? {
        LiteralPrinted(item.c, d);
        PrintedReadsBack(rest, d, before + text, f);
      } else if item == Directive('Y') && NegativeYear(d) {
        assert items == [Directive('Y')] + rest;
        YearIsCut(rest, d, before, f);
      } else if item.Directive? && item.c in NUMERIC {
        NumberParsed(item.c, d, before, after, f);
        FieldReadsBack(item.c, d);
        PrintedReadsBack(rest, d, before + text, SetField(f, item.c, FieldOf(item.c, d)));
      }
    }
  }

  /** After a negative year, nothing can make up for the character left over. */
  lemma {:induction false} YearIsCut(rest: seq<Item>, d: Date, before: string, f: Fields)
    requires Proper(d) && NegativeYear(d)
    ensures var s := before + Printed(Directive('Y'), d) + PrintedAll(rest, d);
            Fit(ParsedAll([Directive('Y')] + rest, s, |before|, f), |s|) == None
  {
    hide ParsedAll, ParseNumber, Printed, NegativeYear, Parseable, Reach;
    var items, text := [Directive('Y')] + rest, Printed(Directive('Y'), d);
    var s := before + text + PrintedAll(rest, d);
    assert items[1..] == rest;
    NegativeYearParsed(d, before, PrintedAll(rest, d), f);
    ParsedAllIs(items, s, |before|, f);
    var r := ParseNumber('Y', s, |before|, f).value;
    ParsedWithinReach(rest, s, r.1, r.0);
    if Parseable(rest) { PrintedReaches(rest, d); }
  }

  predicate CanParse(item: Item) {
    item.Literal? || (item.Directive? && item.c in NUMERIC)
  }

  lemma {:induction false} ParseableNext(items: seq<Item>)
    requires items != []
    ensures Parseable(items) <==> CanParse(items[0]) && Parseable(items[1..])
  {
    if CanParse(items[0]) && Parseable(items[1..]) {
      forall i | 0 <= i < |items| ensures CanParse(items[i]) {
        if i > 0 { assert items[i] == items[1..][i - 1]; }
      }
    }
  }

  lemma LiteralPrinted(c: char, d: Date)
    ensures Printed(Literal(c), d) == [c]
  {}

  lemma NothingParsed(s: string, j: nat, f: Fields, d: Date)
    ensures ParsedAll([], s, j, f) == Some((f, j)) && Recovered([], d, f) == f && ReadsBack([], d)
  {}

  // ---------------------------------------------------------------------------
  // The code
  // ---------------------------------------------------------------------------

  function Rest(s: string, i: nat): string {
    if i <= |s| then s[i..] else []
  }

  /** The directive at `i`, or nothing when the template has ended. */
  function PrintedAt(template: string, i: nat, d: Date): string {
    if i < |template| then Printed(Directive(template[i]), d) else []
  }

  lemma {:induction false} ItemsAt(t: string, i: nat, d: Date)
    requires i < |t|
    ensures t[i] != '%' ==> PrintedAll(Items(Rest(t, i)), d) == [t[i]] + PrintedAll(Items(Rest(t, i + 1)), d)
    ensures t[i] == '%' ==>
      PrintedAll(Items(Rest(t, i)), d) == PrintedAt(t, i + 1, d) + PrintedAll(Items(Rest(t, i + 2)), d)
  {
    assert t[i..][1..] == t[i + 1..];
    if i + 1 < |t| { assert t[i..][2..] == t[i + 2..]; }
    if t[i] != '%' { LiteralPrinted(t[i], d); }
  }

  lemma {:induction false} SubstringNext(t: string, j: nat, i: nat)
    requires j <= i < |t|
    ensures Substring(t, j, i + 1) == Substring(t, j, i) + [t[i]]
    ensures Substring(t, i, i) == [] && Substring(t, i + 1, i + 1) == [] && Substring(t, i + 2, i + 2) == []
  {}

  /** `format(date)`: what is before a percent sign is copied in one piece. */
  method Format(template: string, date: Date) returns (text: string)
    requires Modelled(Items(template))
    ensures text == PrintedAll(Items(template), date)
  {
    hide Printed, PrintedAll, PrintedAt, Modelled, Items, Substring, Rest;
    text := [];
    var i: nat, j: nat := 0, 0;
    FormatEnds(template, date);
    while i < |template|
      invariant j <= i <= |template| + 1
      invariant PrintedAll(Items(template), date) ==
        text + Substring(template, j, i) + PrintedAll(Items(Rest(template, i)), date)
    {
      ItemsAt(template, i, date);
      SubstringNext(template, j, i);
      if template[i] == '%' {
        text := text + Substring(template, j, i);
        text := text + PrintedAt(template, i + 1, date);
        i := i + 1;
        j := i + 1;
      }
      i := i + 1;
    }
    FormatEnd(template, i, date);
    text := text + Substring(template, j, i);
  }

  lemma FormatEnds(t: string, d: Date)
    ensures Rest(t, 0) == t && Substring(t, 0, 0) == []
  {}

  lemma FormatEnd(t: string, i: nat, d: Date)
    requires |t| <= i
    ensures PrintedAll(Items(Rest(t, i)), d) == []
  {}

  /** The object the parsers fill in. */
  class DateFields {
    var y: int
    var m: int
    var d: int
    var hh: int
    var mm: int
    var ss: int
    var ll: int

    constructor ()
      ensures View() == DEFAULTS
    {
      y, m, d, hh, mm, ss, ll := 1900, 0, 1, 0, 0, 0, 0;
    }

    function View(): Fields
      reads this
    {
      Fields(y, m, d, hh, mm, ss, ll)
    }

    /** The parser of a numeric directive: the position after the number, or -1. */
    method Parser(c: char, s: string, i: nat) returns (next: int)
      requires c in NUMERIC
      modifies this
      ensures var r := ParseNumber(c, s, i, old(View()));
              if r.Some? then View() == r.value.0 && next == r.value.1 else next == -1
    {
      hide FirstNumber, NumberValue, Substring;
      var n := FirstNumber(Substring(s, i, i + Width(c)));
      if n.None? { return -1; }
      var value := NumberValue(n.value);
      match c {
        case 'Y' => y := value;
        case 'm' => m := value - 1;
        case 'd' => d := value;
        case 'e' => d := value;
        case 'H' => hh := value;
        case 'M' => mm := value;
        case 'S' => ss := value;
        case _ => ll := value;
      }
      next := i + |n.value|;
    }

    /** `d3_time_parse`: the position where the template ends, or -1. */
    method ParseTemplate(template: string, s: string, start: nat) returns (j: int)
      requires Modelled(Items(template))
      modifies this
      ensures var r := ParsedAll(Items(template), s, start, old(View()));
              if r.Some? then View() == r.value.0 && j == r.value.1 else j == -1
    {
      hide ParseNumber, ParsedAll, Modelled, Items, Rest;
      var i: nat := 0;
      j := start;
      ghost var r := ParsedAll(Items(template), s, start, View());
      FormatEnds(template, Date(0, 0, 1, 0, 0, 0, 0));
      while i < |template|
        invariant i <= |template| && j >= 0 && r == ParsedAll(Items(Rest(template, i)), s, j, View())
        invariant Modelled(Items(Rest(template, i)))
      {
        ItemsFrom(template, i, s, j, View());
        if j >= |s| { return -1; }
        var c := template[i];
        i := i + 1;
        if c == '%' {
          if i == |template| || template[i] !in NUMERIC { return -1; }
          var directive := template[i];
          i := i + 1;
          j := Parser(directive, s, j);
          if j < 0 { return -1; }
        } else {
          if c != s[j] { return -1; }
          j := j + 1;
        }
      }
      ParseEnds(template, s, j, View());
    }
  }

  lemma ParseEnds(t: string, s: string, j: nat, f: Fields)
    ensures ParsedAll(Items(Rest(t, |t|)), s, j, f) == Some((f, j))
  {}

  lemma {:induction false} ItemsFrom(t: string, i: nat, s: string, j: nat, f: Fields)
    requires i < |t| && Modelled(Items(Rest(t, i)))
    ensures var r := ParsedAll(Items(Rest(t, i)), s, j, f);
      if j >= |s| || (t[i] != '%' && t[i] != s[j]) then r == None
      else if t[i] == '%' && (i + 1 == |t| || t[i + 1] !in NUMERIC) then r == None
      else if t[i] != '%' then r == ParsedAll(Items(Rest(t, i + 1)), s, j + 1, f) && Modelled(Items(Rest(t, i + 1)))
      else
        var n := ParseNumber(t[i + 1], s, j, f);
        && Modelled(Items(Rest(t, i + 2)))
        && r == if n.None? then None else ParsedAll(Items(Rest(t, i + 2)), s, n.value.1, n.value.0)
  {
    hide ParseNumber;
    var items := Items(Rest(t, i));
    assert t[i..][1..] == t[i + 1..];
    assert i + 1 < |t| ==> t[i..][2..] == t[i + 2..];
    assert items[1..] == if t[i] == '%' && i + 1 < |t| then Items(Rest(t, i + 2)) else Items(Rest(t, i + 1));
    assert forall k :: 0 <= k < |items[1..]| ==> items[1..][k] == items[k + 1];
  }

  // ---------------------------------------------------------------------------
  // The date that is returned
  // ---------------------------------------------------------------------------

  /** The date made of parsed fields; what is out of range carries over. */
  function AsDate(f: Fields, now: Date): Date {
    WithTime(WithDay(now, DayOf(f.y, f.m, f.d)), Millis(f.hh, f.mm, f.ss, f.ll))
  }

  function Getters(d: Date): Fields {
    Fields(d.year, d.month, d.day, d.hours, d.minutes, d.seconds, d.millis)
  }

  /** 29 February, with the month and the day in the template but not the year. */
  predicate LeapDayLost(items: seq<Item>, d: Date) {
    && d.month == 1 && d.day == 29
    && Mentions(items, 'm') && (Mentions(items, 'd') || Mentions(items, 'e')) && !Mentions(items, 'Y')
  }

  /** The date shows what was recovered, except for a leap day without its year: that is
      1 March of 1900, which is no leap year. */
  lemma {:induction false} DateRecovered(items: seq<Item>, d: Date, now: Date)
    requires Proper(d) && Proper(now) && ReadsBack(items, d)
    ensures var f := Recovered(items, d, DEFAULTS); var r := AsDate(f, now);
      && (Getters(r) == f <==> !LeapDayLost(items, d))
      && (LeapDayLost(items, d) ==> Getters(r) == f.(m := 2, d := 1))
  {
    hide DayOf, WithTime, WithDay, Millis, Mentions, Leap, Remainder;
    var f := Recovered(items, d, DEFAULTS);
    if LeapDayLost(items, d) {
      LeapDayCarries();
      InRangeKept(Day(1900, 2, 1), f.hh, f.mm, f.ss, f.ll, now);
    } else {
      if Mentions(items, 'Y') { SameLeap(d.year); }
      NoLeapDay();
      InRangeKept(Day(f.y, f.m, f.d), f.hh, f.mm, f.ss, f.ll, now);
    }
  }

  lemma LeapDayCarries()
    ensures DayOf(1900, 1, 29) == Day(1900, 2, 1) && ProperDay(Day(1900, 2, 1))
  {
    hide YearStart, MonthStart, Serial;
    assert DaysIn(1900, 1) == 28;
    assert Carried(Day(1900, 1, 29)) == Carried(Day(1900, 2, 1));
    DayKept(Day(1900, 2, 1));
  }

  lemma NoLeapDay()
    ensures !Leap(1900)
  {}

  /** The last four digits of a year decide whether it is a leap year. */
  lemma SameLeap(year: int)
    requires Remainder(year, 10000) >= 0
    ensures Leap(Remainder(year, 10000)) == Leap(year)
  {
    var q := year / 10000;
    if year < 0 { assert (-year) % 10000 == 0; NegatedMultiple(year); }
    assert year == 10000 * q + year % 10000;
    ShiftByFour(year % 10000, 2500 * q);
    ShiftByHundred(year % 10000, 100 * q);
    ShiftByFourHundred(year % 10000, 25 * q);
  }

  lemma NegatedMultiple(year: int)
    requires (-year) % 10000 == 0
    ensures year % 10000 == 0
  {
    assert year == 10000 * -((-year) / 10000);
  }

  lemma ShiftByFour(r: int, k: int)
    ensures (4 * k + r) % 4 == r % 4
  {}

  lemma ShiftByHundred(r: int, k: int)
    ensures (100 * k + r) % 100 == r % 100
  {}

  lemma ShiftByFourHundred(r: int, k: int)
    ensures (400 * k + r) % 400 == r % 400
  {}

  /** `format.parse`: the date, or none when the string does not fit the template from
      end to end. What time it was before does not matter. */
  method Parse(template: string, s: string, now: Date) returns (parsed: Option<Date>)
    requires Modelled(Items(template)) && Proper(now)
    ensures var f := Fit(ParsedAll(Items(template), s, 0, DEFAULTS), |s|);
            parsed == if f.Some? then Some(AsDate(f.value, now)) else None
    ensures parsed.Some? ==> Proper(parsed.value)
  {
    hide ParsedAll, Items, Modelled, DayOf, WithTime, WithDay, Millis, Proper;
    var d := new DateFields();
    var i := d.ParseTemplate(template, s, 0);
    if i != |s| { return None; }
    var date := new DateObject(now);
    date.SetFullYear(d.y, d.m, d.d);
    date.SetHours(d.hh, d.mm, d.ss, d.ll);
    parsed := Some(date.date);
  }

  /** Printing and parsing by the same template succeeds exactly when no item is a stray
      percent sign, an unknown directive or a negative year, and then gives a date with
      every field the template mentions and the default of every other one, unless it is
      a leap day whose year the template does not mention. */
  method RoundTrip(template: string, date: Date, now: Date) returns (parsed: Option<Date>)
    requires Modelled(Items(template)) && Proper(date) && Proper(now)
    ensures var items := Items(template);
      && (parsed.Some? <==> ReadsBack(items, date))
      && (parsed.Some? ==> (Getters(parsed.value) == Recovered(items, date, DEFAULTS) <==> !LeapDayLost(items, date)))
      && (parsed.Some? && LeapDayLost(items, date) ==>
            Getters(parsed.value) == Recovered(items, date, DEFAULTS).(m := 2, d := 1))
  {
    hide ParsedAll, Items, PrintedAll, Modelled, Recovered, LeapDayLost, ReadsBack, AsDate, Getters, Proper, Fit;
    var text := Format(template, date);
    parsed := Parse(template, text, now);
    PrintedReadsBack(Items(template), date, "", DEFAULTS);
    assert "" + PrintedAll(Items(template), date) == PrintedAll(Items(template), date);
    if ReadsBack(Items(template), date) { DateRecovered(Items(template), date, now); }
  }

  /** The leap day of 2012 through `%m/%d`. */
  lemma LeapDayOf2012(now: Date)
    requires Proper(now)
    ensures var items, d := Items("%m/%d"), Date(2012, 1, 29, 0, 0, 0, 0);
      && Proper(d) && Modelled(items) && ReadsBack(items, d)
      && Getters(AsDate(Recovered(items, d, DEFAULTS), now)) == Fields(1900, 2, 1, 0, 0, 0, 0)
  {
    hide AsDate, Items;
    MonthAndDay();
    DateRecovered(Items("%m/%d"), Date(2012, 1, 29, 0, 0, 0, 0), now);
  }

  lemma MonthAndDay()
    ensures Items("%m/%d") == [Directive('m'), Literal('/'), Directive('d')]
  {
    assert "%m/%d"[2..] == "/%d" && "/%d"[1..] == "%d";
  }

  /** `%%` prints a percent sign and never parses one. */
  lemma PercentIsNotRead(d: Date, s: string)
    ensures PrintedAll(Items("%%"), d) == "%" && ParsedAll(Items("%%"), s, 0, DEFAULTS) == None
  {
    assert Items("%%") == [Directive('%')];
  }
}
