/** `d3.csv.parseRows` and `d3.csv.format`: a tokeniser that remembers where its
    separator expression stopped, and a printer that quotes when it thinks it must. */
module Csv {

  type Row = seq<string>

  /** `charCodeAt`, with -1 for the NaN it gives beyond the end. */
  function CodeAt(s: string, i: nat): int {
    if i < |s| then s[i] as int else -1
  }

  const QUOTE := 34
  const CR := 13
  const LF := 10

  // ---------------------------------------------------------------------------
  // Printing
  // ---------------------------------------------------------------------------

  predicate NeedsQuotes(f: string) { '"' in f || ',' in f || '\n' in f }

  function Escape(s: string): (r: string) {
    if s == "" then "" else (if s[0] == '"' then "\"\"" else [s[0]]) + Escape(s[1..])
  }

  function FormatValue(f: string): string {
    if NeedsQuotes(f) then "\"" + Escape(f) + "\"" else f
  }

  function FormatRow(row: Row): string {
    if row == [] then "" else if |row| == 1 then FormatValue(row[0])
    else FormatValue(row[0]) + "," + FormatRow(row[1..])
  }

  function Format(rows: seq<Row>): string {
    if rows == [] then "" else if |rows| == 1 then FormatRow(rows[0])
    else FormatRow(rows[0]) + "\n" + Format(rows[1..])
  }

  // ---------------------------------------------------------------------------
  // Reading, as a function of the text that is left
  // ---------------------------------------------------------------------------

  /** Index reached by the scan for the closing quote from index `i`; past the end
      when there is none. */
  function CloseQuote(s: string, i: nat): (k: nat)
    ensures i < k <= |s| + 1 || i < k == i + 1
    decreases |s| - i
  {
    if i >= |s| then i + 1
    else if CodeAt(s, i + 1) == QUOTE then
      if CodeAt(s, i + 2) != QUOTE then i + 1 else CloseQuote(s, i + 2)
    else CloseQuote(s, i + 1)
  }

  function Unescape(s: string): string {
    if s == "" then ""
    else if s[0] == '"' && CodeAt(s, 1) == QUOTE then "\"" + Unescape(s[2..])
    else [s[0]] + Unescape(s[1..])
  }

  predicate IsSeparator(c: char) { c == ',' || c == '\r' || c == '\n' }

  function FirstSeparator(s: string): (k: nat)
    ensures k <= |s| && (k < |s| ==> IsSeparator(s[k]))
    ensures forall i :: 0 <= i < k ==> !IsSeparator(s[i])
  {
    if s == "" || IsSeparator(s[0]) then 0 else 1 + FirstSeparator(s[1..])
  }

  function Drop(s: string, n: nat): (r: string)
    ensures |r| <= |s| && (n > 0 && s != "" ==> |r| < |s|)
  {
    if n <= |s| then s[n..] else ""
  }

  /** A field, whether it ends its line, and what follows it. */
  datatype Field = Field(text: string, eol: bool, rest: string)

  function QuotedField(s: string): (r: Field)
    requires s != ""
    ensures |r.rest| < |s|
  {
    var i := CloseQuote(s, 0);
    var c := CodeAt(s, i + 1);
    Field(Unescape(s[1..if i <= |s| then i else |s|]), c == CR || c == LF,
          Drop(s, if c == CR && CodeAt(s, i + 2) == LF then i + 3 else i + 2))
  }

  function PlainField(s: string): (r: Field)
    requires s != ""
    ensures |r.rest| < |s|
  {
    var k := FirstSeparator(s);
    if k == |s| then Field(s, false, "")
    else Field(s[..k], s[k] != ',', Drop(s, if s[k] == '\r' && CodeAt(s, k + 1) == LF then k + 2 else k + 1))
  }

  function NextField(s: string): (r: Field)
    requires s != ""
    ensures |r.rest| < |s|
  {
    if CodeAt(s, 0) == QUOTE then QuotedField(s) else PlainField(s)
  }

  function ParseRow(s: string): (r: (Row, string))
    requires s != ""
    ensures |r.1| < |s| && |r.0| >= 1
    decreases |s|
  {
    var t := NextField(s);
    if t.eol || t.rest == "" then ([t.text], t.rest)
    else var r := ParseRow(t.rest); ([t.text] + r.0, r.1)
  }

  function Parse(s: string): (rows: seq<Row>)
    ensures forall i :: 0 <= i < |rows| ==> rows[i] != []
    decreases |s|
  {
    if s == "" then [] else var r := ParseRow(s); [r.0] + Parse(r.1)
  }

  // ---------------------------------------------------------------------------
  // The reader itself
  // ---------------------------------------------------------------------------

  datatype Token = EOF | EOL | Text(text: string)

  class Reader {
    const text: string
    var lastIndex: nat   // of the separator expression
    var eol: bool        // the token read last ended its line

    constructor (text: string)
      ensures this.text == text && lastIndex == 0 && !eol
    {
      this.text := text;
      lastIndex, eol := 0, false;
    }

    ghost function Rest(): string
      reads this
    {
      Drop(text, lastIndex)
    }

    /** The next token: end of file before a pending end of line, and that before a field. */
    method Next() returns (t: Token)
      modifies this
      ensures old(Rest()) == "" ==> t == EOF && Rest() == "" && eol == old(eol)
      ensures old(Rest()) != "" && old(eol) ==> t == EOL && Rest() == old(Rest()) && !eol
      ensures old(Rest()) != "" && !old(eol) ==>
                var f := NextField(old(Rest()));
                t == Text(f.text) && eol == f.eol && Rest() == f.rest
    {
      hide QuotedField, PlainField;
      if lastIndex >= |text| { return EOF; }
      if eol {
        eol := false;
        return EOL;
      }
      if CodeAt(text, lastIndex) == QUOTE {
        t := NextQuoted();
      } else {
        t := NextPlain();
      }
    }

    method NextQuoted() returns (t: Token)
      requires lastIndex < |text| && !eol
      modifies this
      ensures var f := QuotedField(old(Rest())); t == Text(f.text) && eol == f.eol && Rest() == f.rest
    {
      hide CloseQuote, Unescape, CodeAt, Drop;
      ghost var s := Rest();
      var j := lastIndex;
      assert s == text[j..] by { DropInside(text, j); }
      var i := ScanQuote(text, j);
      CodeOfRest(text, j, i + 1 - j);
      CodeOfRest(text, j, i + 2 - j);
      lastIndex := i + 2;
      var c := CodeAt(text, i + 1);
      if c == CR {
        eol := true;
        if CodeAt(text, i + 2) == LF { lastIndex := lastIndex + 1; }
      } else if c == LF {
        eol := true;
      }
      DropOfRest(text, j, lastIndex - j);
      var end := if i <= |text| then i else |text|;
      SliceOfRest(text, j, j + 1, end);
      t := Text(Unescape(text[j + 1..end]));
    }

    method NextPlain() returns (t: Token)
      requires lastIndex < |text| && !eol
      modifies this
      ensures var f := PlainField(old(Rest())); t == Text(f.text) && eol == f.eol && Rest() == f.rest
    {
      hide FirstSeparator, CodeAt, Drop;
      ghost var s := Rest();
      var j := lastIndex;
      assert s == text[j..] by { DropInside(text, j); }
      var k := ScanSeparator(text, j);
      if k < |text| {
        CodeOfRest(text, j, k + 1 - j);
        lastIndex := if text[k] == '\r' && CodeAt(text, k + 1) == LF then k + 2 else k + 1;
        DropOfRest(text, j, lastIndex - j);
        eol := text[k] != ',';
        SliceOfRest(text, j, j, k);
        t := Text(text[j..k]);
      } else {
        lastIndex := |text|;
        DropInside(text, |text|);
        t := Text(text[j..]);
      }
    }
  }

  lemma DropInside(text: string, j: nat)
    requires j <= |text|
    ensures Drop(text, j) == text[j..]
  {}

  lemma SliceOfRest(text: string, j: nat, m: nat, n: nat)
    requires j <= m <= n <= |text|
    ensures text[m..n] == text[j..][m - j..n - j]
  {}

  lemma CodeOfRest(text: string, j: nat, i: nat)
    requires j <= |text|
    ensures CodeAt(text, j + i) == CodeAt(text[j..], i)
  {}

  lemma DropOfRest(text: string, j: nat, i: nat)
    requires j <= |text|
    ensures Drop(text, j + i) == Drop(text[j..], i)
  {}

  method ScanQuote(text: string, j: nat) returns (i: nat)
    requires j < |text|
    ensures i >= j && i - j == CloseQuote(text[j..], 0)
  {
    i := j;
    while i < |text|
      invariant i >= j && CloseQuote(text[j..], i - j) == CloseQuote(text[j..], 0)
      decreases |text| - i
    {
      i := i + 1;
      if CodeAt(text, i) == QUOTE {
        if CodeAt(text, i + 1) != QUOTE { return; }
        i := i + 1;
      }
    }
    i := i + 1;
  }

  /** The match index of the separator expression from `j` on; the end if none. */
  method ScanSeparator(text: string, j: nat) returns (k: nat)
    requires j < |text|
    ensures j <= k <= |text| && k - j == FirstSeparator(text[j..])
  {
    k := j;
    while k < |text| && !IsSeparator(text[k])
      invariant j <= k <= |text|
      invariant forall i :: j <= i < k ==> !IsSeparator(text[i])
    {
      k := k + 1;
    }
  }

  /** The token is what a fresh call on `s` gives, and the reader stands after it. */
  ghost predicate After(re: Reader, s: string, t: Token)
    reads re
  {
    if s == "" then t == EOF && re.Rest() == ""
    else var f := NextField(s); t == Text(f.text) && re.eol == f.eol && re.Rest() == f.rest
  }

  /** The inner loop: the fields of one row. */
  method ReadRow(re: Reader, ghost s0: string, t0: Token) returns (a: Row)
    requires s0 != "" && After(re, s0, t0)
    modifies re
    ensures (a, re.Rest()) == ParseRow(s0)
    ensures re.Rest() != "" ==> !re.eol
  {
    hide NextField, Drop;
    a := [];
    var t := t0;
    ghost var s := s0;
    assert a + ParseRow(s).0 == ParseRow(s).0;
    while t != EOL && t != EOF
      invariant t.Text? ==> s != "" && After(re, s, t) && ParseRow(s0) == (a + ParseRow(s).0, ParseRow(s).1)
      invariant !t.Text? ==> ParseRow(s0) == (a, re.Rest()) && (re.Rest() != "" ==> !re.eol)
      decreases t.Text?, |s|
    {
      ghost var f, a0 := NextField(s), a;
      a := a + [t.text];
      t := re.Next();
      if !f.eol && f.rest != "" {
        assert a0 + ([f.text] + ParseRow(f.rest).0) == a + ParseRow(f.rest).0;
      }
      s := f.rest;
    }
  }

  method ParseRows(text: string) returns (rows: seq<Row>)
    ensures rows == Parse(text)
  {
    hide NextField, ParseRow, Drop;
    var re := new Reader(text);
    rows := [];
    DropInside(text, 0);
    var t := re.Next();
    ghost var s := text;   // what was left before `t`
    while t != EOF
      invariant After(re, s, t) && rows + Parse(s) == Parse(text)
      decreases |s|
    {
      var a := ReadRow(re, s, t);
      assert (rows + [a]) + Parse(ParseRow(s).1) == rows + ([a] + Parse(ParseRow(s).1));
      rows := rows + [a];
      s := re.Rest();
      t := re.Next();
    }
  }

  // ---------------------------------------------------------------------------
  // The round trip
  // ---------------------------------------------------------------------------

  /** Printed so that a carriage return in it does not read as a line end. */
  predicate Safe(f: string) { '\r' in f ==> '"' in f || ',' in f || '\n' in f }

  /** The ends of a line, among which a line feed after a carriage return is never one of
      its own. */
  const LINE_ENDS := {"\n", "\r", "\r\n"}

  predicate EndsLine(tail: string, rest: string) {
    exists end :: end in LINE_ENDS && tail == end + rest && (end == "\r" && rest != "" ==> rest[0] != '\n')
  }

  /** What follows a field: a separator and the rest, or nothing. */
  predicate Follows(tail: string, eol: bool, rest: string) {
    if eol then EndsLine(tail, rest) else tail == "," + rest || tail == rest == ""
  }

  lemma EndsNothing(rest: string)
    ensures !EndsLine("", rest)
  {}

  lemma FollowsIs(tail: string, eol: bool, rest: string)
    requires Follows(tail, eol, rest)
    ensures tail == "" ==> !eol && rest == ""
    ensures tail != "" ==> IsSeparator(tail[0]) && (eol <==> tail[0] != ',')
    ensures tail != "" ==> rest == Drop(tail, if tail[0] == '\r' && CodeAt(tail, 1) == LF then 2 else 1)
  {
    if eol {
      var end :| end in LINE_ENDS && tail == end + rest && (end == "\r" && rest != "" ==> rest[0] != '\n');
      assert end == "\n" || end == "\r" || end == "\r\n";
    }
  }

  /** The rows that survive printing and reading back. */
  ghost predicate Faithful(rows: seq<Row>) {
    && (forall i :: 0 <= i < |rows| ==> rows[i] != [])
    && (forall i, j :: 0 <= i < |rows| && 0 <= j < |rows[i]| ==> Safe(rows[i][j]))
    && (rows != [] ==> var last := rows[|rows| - 1]; last != [] && last[|last| - 1] != "")
  }

  lemma {:induction false} EscapedReadsBack(f: string, tail: string)
    requires CodeAt(tail, 0) != QUOTE
    ensures var s := "\"" + Escape(f) + "\"" + tail;
            CloseQuote(s, 0) == |Escape(f)| + 1
    ensures Unescape(Escape(f)) == f
  {
    var s := "\"" + Escape(f) + "\"" + tail;
    ScanEscaped(f, "\"", tail);
    assert "\"" + Escape(f) + "\"" + tail == "\"" + (Escape(f) + "\"" + tail);
    UnescapeEscaped(f);
  }

  lemma {:induction false} UnescapeEscaped(f: string)
    ensures Unescape(Escape(f)) == f
  {
    if f != "" {
      UnescapeEscaped(f[1..]);
      var e := Escape(f[1..]);
      if f[0] == '"' {
        assert ("\"\"" + e)[2..] == e;
      } else {
        assert ([f[0]] + e)[1..] == e;
      }
    }
  }

  /** The scan passes over escaped text: doubled quotes do not stop it. */
  lemma {:induction false} ScanEscaped(f: string, front: string, tail: string)
    requires CodeAt(tail, 0) != QUOTE && |front| >= 1
    ensures var s := front + (Escape(f) + "\"" + tail);
            CloseQuote(s, |front| - 1) == |front| + |Escape(f)|
    decreases |f|
  {
    var s := front + (Escape(f) + "\"" + tail);
    var n := |front|;
    if f == "" {
      assert s == front + ("\"" + tail);
      assert CodeAt(s, n) == QUOTE;
      assert CodeAt(s, n + 1) == CodeAt(tail, 0);
    } else {
      var head := if f[0] == '"' then "\"\"" else [f[0]];
      assert s == (front + head) + (Escape(f[1..]) + "\"" + tail);
      ScanEscaped(f[1..], front + head, tail);
      assert s[n] == head[0];
      if f[0] == '"' {
        assert s[n + 1] == '"';
        assert CloseQuote(s, n - 1) == CloseQuote(s, n + 1);
      } else {
        assert CloseQuote(s, n - 1) == CloseQuote(s, n);
      }
    }
  }

  lemma SeparatorAfter(f: string, tail: string)
    requires forall i :: 0 <= i < |f| ==> !IsSeparator(f[i])
    requires tail == "" || IsSeparator(tail[0])
    ensures FirstSeparator(f + tail) == |f|
  {
    var k := FirstSeparator(f + tail);
    assert forall i :: 0 <= i < |f| ==> (f + tail)[i] == f[i];
    if tail != "" { assert (f + tail)[|f|] == tail[0]; }
  }

  lemma AfterAppend(a: string, b: string, i: nat)
    ensures CodeAt(a + b, |a| + i) == CodeAt(b, i)
    ensures Drop(a + b, |a| + i) == Drop(b, i)
  {}

  /** A closing quote: what follows it decides the end of line, and one character or a
      carriage return with its line feed is consumed. */
  lemma QuotedFieldIs(f: string, tail: string)
    requires tail == "" || tail[0] != '"'
    ensures QuotedField("\"" + Escape(f) + "\"" + tail)
         == Field(f, tail != "" && (tail[0] == '\r' || tail[0] == '\n'),
                  Drop(tail, if tail != "" && tail[0] == '\r' && CodeAt(tail, 1) == LF then 2 else 1))
  {
    hide CloseQuote, Unescape, Escape, CodeAt, Drop;
    var s, n := "\"" + Escape(f) + "\"" + tail, |Escape(f)| + 1;
    assert CodeAt(tail, 0) == if tail == "" then -1 else tail[0] as int by { CodeAtStart(tail); }
    EscapedReadsBack(f, tail);
    assert s == ("\"" + Escape(f) + "\"") + tail;
    AfterAppend("\"" + Escape(f) + "\"", tail, 0);
    AfterAppend("\"" + Escape(f) + "\"", tail, 1);
    AfterAppend("\"" + Escape(f) + "\"", tail, 2);
    assert s[1..n] == Escape(f);
  }

  lemma QuotedFieldReadsBack(f: string, tail: string, eol: bool, rest: string)
    requires Follows(tail, eol, rest)
    ensures NextField("\"" + Escape(f) + "\"" + tail) == Field(f, eol, rest)
  {
    hide Follows, QuotedField, Escape;
    FollowsIs(tail, eol, rest);
    QuotedFieldIs(f, tail);
  }

  /** Between the closing quote and the next separator one character is lost. */
  lemma JunkIsSkipped(f: string, c: char, rest: string)
    requires c != '"' && !IsSeparator(c)
    ensures NextField("\"" + Escape(f) + "\"" + ([c] + rest)) == Field(f, false, rest)
  {
    hide QuotedField, Escape;
    QuotedFieldIs(f, [c] + rest);
  }

  /** Without a closing quote the field goes to the end of the text. */
  lemma {:induction false} UnclosedTakesAll(f: string)
    ensures NextField("\"" + Escape(f)) == Field(f, false, "")
  {
    hide Unescape;
    hide Escape, CloseQuote;
    var s := "\"" + Escape(f);
    UnclosedScan(f, "\"");
    UnescapeEscaped(f);
    assert s[0] == '"' && s[1..] == Escape(f) && s[1..|s|] == s[1..];
    assert CodeAt(s, |s| + 2) == -1 && Drop(s, |s| + 3) == "";
  }

  lemma {:induction false} UnclosedScan(f: string, front: string)
    requires |front| >= 1
    ensures CloseQuote(front + Escape(f), |front| - 1) == |front| + |Escape(f)| + 1
    decreases |f|
  {
    var s, n := front + Escape(f), |front|;
    if f != "" {
      var head := if f[0] == '"' then "\"\"" else [f[0]];
      assert s == (front + head) + Escape(f[1..]);
      UnclosedScan(f[1..], front + head);
      assert s[n] == head[0];
      if f[0] == '"' {
        assert s[n + 1] == '"';
      }
    }
  }

  lemma CodeAtStart(s: string)
    ensures CodeAt(s, 0) == if s == "" then -1 else s[0] as int
  {}

  lemma PlainFieldReadsBack(f: string, tail: string, eol: bool, rest: string)
    requires (forall i :: 0 <= i < |f| ==> !IsSeparator(f[i])) && f + tail != "" && Follows(tail, eol, rest)
    ensures PlainField(f + tail) == Field(f, eol, rest)
  {
    hide FirstSeparator, CodeAt, Drop, Follows;
    var s := f + tail;
    FollowsIs(tail, eol, rest);
    SeparatorAfter(f, tail);
    if tail == "" {
      assert s == f;
    } else {
      assert s[|f|] == tail[0];
      assert s[..|f|] == f;
      AfterAppend(f, tail, 1);
      AfterAppend(f, tail, 2);
    }
  }

  /** A safe field is read back, whatever may follow a field in printed text. */
  lemma SafeFieldReadsBack(f: string, tail: string, eol: bool, rest: string)
    requires Safe(f) && FormatValue(f) + tail != "" && Follows(tail, eol, rest)
    ensures NextField(FormatValue(f) + tail) == Field(f, eol, rest)
  {
    hide QuotedField, PlainField, Escape, Follows;
    var s := FormatValue(f) + tail;
    FollowsIs(tail, eol, rest);
    if NeedsQuotes(f) {
      QuotedFieldReadsBack(f, tail, eol, rest);
    } else {
      assert forall i :: 0 <= i < |f| ==> f[i] in f;
      PlainFieldReadsBack(f, tail, eol, rest);
      assert s[0] == if f == "" then tail[0] else f[0];
    }
  }

  /** Exactly the fields with a quote, a comma or a line feed are not printed as they are. */
  lemma {:induction false} PrintedAsIs(f: string)
    ensures FormatValue(f) == f <==> forall i :: 0 <= i < |f| ==> f[i] != '"' && f[i] != ',' && f[i] != '\n'
  {
    assert forall i :: 0 <= i < |f| ==> f[i] in f;
    EscapeIsLonger(f);
  }

  lemma {:induction false} EscapeIsLonger(f: string)
    ensures |Escape(f)| >= |f|
  {
    if f != "" { EscapeIsLonger(f[1..]); }
  }

  /** An unquoted carriage return cuts its field short. */
  lemma UnsafeFieldIsCut(f: string, tail: string)
    requires !Safe(f)
    ensures f != "" && NextField(f + tail).text != f && NextField(f + tail).eol
  {
    var k :| 0 <= k < |f| && f[k] == '\r';
    var s := f + tail;
    assert s[k] == '\r' && s[0] == f[0];
    assert f[0] in f;
    var m := FirstSeparator(s);
    assert m <= k;
    assert s[m] == f[m] && f[m] in f;
  }

  /** The first of several fields, and what is read of the others. */
  lemma {:induction false} FirstReadsBack(row: Row, tail: string)
    requires |row| > 1 && Safe(row[0])
    ensures var more := FormatRow(row[1..]) + tail;
            ParseRow(FormatRow(row) + tail) ==
              if more == "" then ([row[0]], "") else ([row[0]] + ParseRow(more).0, ParseRow(more).1)
  {
    hide NextField, FormatValue;
    var more := FormatRow(row[1..]) + tail;
    assert FormatRow(row) + tail == FormatValue(row[0]) + ("," + more);
    SafeFieldReadsBack(row[0], "," + more, false, more);
  }

  /** One printed row, at the end of the text or before the end of the line. */
  lemma {:induction false} RowReadsBack(row: Row, tail: string, rest: string)
    requires row != [] && FormatRow(row) + tail != ""
    requires EndsLine(tail, rest) || tail == rest == ""
    requires forall j :: 0 <= j < |row| ==> Safe(row[j])
    ensures var r := ParseRow(FormatRow(row) + tail);
            if tail != "" then r == (row, rest)
            else r == (if row[|row| - 1] != "" then row else row[..|row| - 1], "")
    decreases |row|
  {
    hide NextField, FormatValue, ParseRow, FormatRow, Safe, EndsLine;
    if |row| == 1 {
      LastReadsBack(row, tail, rest);
    } else {
      FirstReadsBack(row, tail);
      assert [row[0]] + row[1..] == row;
      if FormatRow(row[1..]) + tail != "" {
        RowReadsBack(row[1..], tail, rest);
        assert [row[0]] + row[1..][..|row| - 2] == row[..|row| - 1];
      } else {
        EmptyRowText(row[1..]);
        assert [row[0]] == row[..|row| - 1];
      }
    }
  }

  lemma LastReadsBack(row: Row, tail: string, rest: string)
    requires |row| == 1 && Safe(row[0]) && FormatRow(row) + tail != ""
    requires EndsLine(tail, rest) || tail == rest == ""
    ensures var r := ParseRow(FormatRow(row) + tail);
            if tail != "" then r == (row, rest) else r == (if row[0] != "" then row else [], "")
  {
    hide NextField, FormatValue, EndsLine;
    EndsNothing(rest);
    SafeFieldReadsBack(row[0], tail, EndsLine(tail, rest), rest);
    assert [row[0]] == row;
    EmptyPrintsEmpty();
  }

  lemma EmptyPrintsEmpty()
    ensures FormatValue("") == ""
  {}

  lemma EmptyRowText(row: Row)
    requires row != [] && FormatRow(row) == ""
    ensures row == [""]
  {
    assert FormatValue(row[0]) == "" ==> row[0] == "";
  }

  /** A row with an unsafe field is not read back. */
  lemma {:induction false} UnsafeRowIsCut(row: Row, tail: string)
    requires exists j :: 0 <= j < |row| && !Safe(row[j])
    ensures FormatRow(row) != "" && ParseRow(FormatRow(row) + tail).0 != row
    decreases |row|
  {
    hide NextField, FormatValue, FormatRow, ParseRow, Safe;
    if Safe(row[0]) {
      var j :| 0 <= j < |row| && !Safe(row[j]);
      assert row[1..][j - 1] == row[j];
      UnsafeRowIsCut(row[1..], tail);
      FirstReadsBack(row, tail);
      NonEmptyRow(row);
      var r := ParseRow(FormatRow(row[1..]) + tail).0;
      assert ([row[0]] + r)[1..] == r;
    } else {
      UnsafeFirstIsCut(row, tail);
    }
  }

  lemma NonEmptyRow(row: Row)
    requires |row| > 1
    ensures FormatRow(row) != ""
  {}

  lemma UnsafeFirstIsCut(row: Row, tail: string)
    requires row != [] && !Safe(row[0])
    ensures FormatRow(row) != "" && ParseRow(FormatRow(row) + tail).0 != row
  {
    hide NextField, FormatValue;
    var more := if |row| == 1 then tail else "," + FormatRow(row[1..]) + tail;
    assert FormatRow(row) + tail == FormatValue(row[0]) + more;
    UnsafePrintsRaw(row[0]);
    UnsafeFieldIsCut(row[0], more);
  }

  lemma UnsafePrintsRaw(f: string)
    requires !Safe(f)
    ensures FormatValue(f) == f
  {}

  /** Whether a longer list survives depends on its first row and the others alone. */
  lemma FaithfulStep(row: Row, rest: seq<Row>)
    requires rest != [] && row != [] && forall j :: 0 <= j < |row| ==> Safe(row[j])
    ensures Faithful([row] + rest) <==> Faithful(rest)
  {
    var rows := [row] + rest;
    assert forall i :: 0 <= i < |rest| ==> rest[i] == rows[i + 1];
    assert rows[|rows| - 1] == rest[|rest| - 1];
  }

  /** The printed rows with any end of line between them. */
  function Lines(rows: seq<Row>, end: string): string {
    if rows == [] then "" else if |rows| == 1 then FormatRow(rows[0])
    else FormatRow(rows[0]) + end + Lines(rows[1..], end)
  }

  lemma {:induction false} FormatIsLines(rows: seq<Row>)
    ensures Format(rows) == Lines(rows, "\n")
  {
    if |rows| > 1 { FormatIsLines(rows[1..]); }
  }

  /** Reading back what was printed gives the same rows exactly for faithful rows. */
  lemma {:induction false} RoundTrip(rows: seq<Row>)
    ensures Parse(Format(rows)) == rows <==> Faithful(rows)
  {
    FormatIsLines(rows);
    LinesReadBack(rows, "\n");
  }

  /** So does reading them with other ends of line: exactly faithful rows are read back. */
  lemma {:induction false} LinesReadBack(rows: seq<Row>, end: string)
    requires end in LINE_ENDS
    ensures Parse(Lines(rows, end)) == rows <==> Faithful(rows)
    decreases |rows|
  {
    hide ParseRow, FormatRow, Safe, EndsLine;
    if rows != [] && rows[0] != [] {
      var row, rest := rows[0], rows[1..];
      var more := Lines(rest, end);
      var tail := if rest == [] then "" else end + more;
      var s := Lines(rows, end);
      assert s == FormatRow(row) + tail;
      if exists j :: 0 <= j < |row| && !Safe(row[j]) {
        UnsafeRowIsCut(row, tail);
        assert Parse(s)[0] != rows[0];
      } else if rest == [] {
        LastRowRoundTrip(row);
        assert rows == [row];
      } else {
        hide Faithful;
        LineEndsThere(rest, end);
        RowReadsBack(row, tail, more);
        LinesReadBack(rest, end);
        assert Parse(s) == [row] + Parse(more);
        assert rows == [row] + rest;
        assert Parse(s)[1..] == Parse(more);
        FaithfulStep(row, rest);
      }
    }
  }

  /** No printed line starts with a line feed. */
  lemma {:induction false} LineEndsThere(rest: seq<Row>, end: string)
    requires end in LINE_ENDS
    ensures EndsLine(end + Lines(rest, end), Lines(rest, end))
  {
    hide FormatRow;
    var more := Lines(rest, end);
    if rest != [] { RowStart(rest[0]); }
    assert end == "\n" || end == "\r" || end == "\r\n";
  }

  lemma RowStart(row: Row)
    ensures FormatRow(row) == "" || FormatRow(row)[0] != '\n'
  {
    if row != [] {
      var f := row[0];
      assert f != "" ==> f[0] in f;
    }
  }

  lemma LastRowRoundTrip(row: Row)
    requires row != [] && forall j :: 0 <= j < |row| ==> Safe(row[j])
    ensures Parse(FormatRow(row)) == [row] <==> Faithful([row])
  {
    hide ParseRow, FormatRow, Safe, Faithful, EndsLine;
    var s := FormatRow(row);
    assert s + "" == s;
    LastFieldDecides(row);
    if s == "" {
      EmptyRowText(row);
    } else {
      RowReadsBack(row, "", "");
      OneRowParsed(s);
    }
  }

  lemma LastFieldDecides(row: Row)
    requires row != [] && forall j :: 0 <= j < |row| ==> Safe(row[j])
    ensures Faithful([row]) <==> row[|row| - 1] != ""
  {
    hide Safe;
  }

  lemma OneRowParsed(s: string)
    requires s != "" && ParseRow(s).1 == ""
    ensures Parse(s) == [ParseRow(s).0]
  {
    hide ParseRow;
  }

  /** A carriage return alone is not quoted, and is read as the end of the row. */
  lemma CarriageReturnExample()
    ensures Format([["a\rb"]]) == "a\rb" && Parse("a\rb") == [["a"], ["b"]]
  {
    var s := "a\rb";
    assert FirstSeparator("\rb") == 0 && FirstSeparator(s) == 1 by { assert s[1..] == "\rb"; }
    assert FirstSeparator("b") == 1 by { assert "b"[1..] == ""; }
    assert PlainField(s) == Field("a", true, "b");
    assert PlainField("b") == Field("b", false, "");
    assert ParseRow(s) == (["a"], "b");
    assert ParseRow("b") == (["b"], "");
    assert Parse("b") == [["b"]];
    assert Parse(s) == [["a"]] + Parse("b");
  }
}
