/** `d3.interpolateString`: a template of strings and number holes, built from the
    numbers found in `b` and coalesced in place where `a` has the same number. */
module InterpolateString {

  /** A number found by the expression: where it starts and its text. */
  datatype Match = Match(start: nat, text: string)

  /** An element of `s`: a string, or `null` for a number to be filled in. */
  datatype Slot = Lit(text: string) | Hole

  /** What stands for a number: its text as in `b`, or an interpolator between two texts. */
  datatype Value = Text(text: string) | Between(from: string, to: string)

  /** An element of `q`. */
  datatype Entry = Entry(i: int, x: Value)

  /** What is returned: a lone number interpolator, the constant `b`, or a template. */
  datatype Interpolator = Number(x: Value) | Constant(text: string) | Template(s: seq<Slot>, q: seq<Entry>)

  ghost predicate Matches(b: string, ms: seq<Match>) {
    && (forall k :: 0 <= k < |ms| ==> ms[k].text != "" && ms[k].text <= b[Clamp(b, ms[k].start)..])
    && (forall k, l :: 0 <= k < l < |ms| ==> ms[k].start + |ms[k].text| <= ms[l].start)
  }

  function Clamp(b: string, i: nat): nat { if i <= |b| then i else |b| }

  // ---------------------------------------------------------------------------
  // The meaning: characters and numbers in a row
  // ---------------------------------------------------------------------------

  datatype Atom = Char(c: char) | Num(from: string, to: string)

  function Chars(s: string): (r: seq<Atom>)
    ensures |r| == |s| && forall i :: 0 <= i < |s| ==> r[i] == Char(s[i])
  {
    seq(|s|, i requires 0 <= i < |s| => Char(s[i]))
  }

  function Atoms(x: Value): seq<Atom> {
    match x case Text(t) => Chars(t) case Between(f, t) => [Num(f, t)]
  }

  /** Literals with values between them. */
  function Flat(lits: seq<string>, xs: seq<Value>): seq<Atom>
    requires |lits| == |xs| + 1
  {
    if xs == [] then Chars(lits[0])
    else Flat(lits[..|xs|], xs[..|xs| - 1]) + Atoms(xs[|xs| - 1]) + Chars(lits[|xs|])
  }

  /** The text around the matches of `b`, from `from` on. */
  function Gaps(b: string, ms: seq<Match>, from: nat): (g: seq<string>)
    ensures |g| == |ms| + 1
  {
    if ms == [] then [b[Clamp(b, from)..]]
    else
      var lo, hi := Clamp(b, from), Clamp(b, ms[0].start);
      [if lo <= hi then b[lo..hi] else ""] + Gaps(b, ms[1..], ms[0].start + |ms[0].text|)
  }

  /** Number `k` of `b` is interpolated when `a` has a number `k` spelled differently. */
  function Decide(ms: seq<Match>, am: seq<string>, k: nat): Value
    requires k < |ms|
  {
    if k < |am| && am[k] != ms[k].text then Between(am[k], ms[k].text) else Text(ms[k].text)
  }

  function Decided(ms: seq<Match>, am: seq<string>): (xs: seq<Value>)
    ensures |xs| == |ms| && forall k :: 0 <= k < |ms| ==> xs[k] == Decide(ms, am, k)
  {
    seq(|ms|, k requires 0 <= k < |ms| => Decide(ms, am, k))
  }

  /** What the interpolator is to show. */
  function Expected(b: string, ms: seq<Match>, am: seq<string>): seq<Atom> {
    Flat(Gaps(b, ms, 0), Decided(ms, am))
  }

  function Show(atoms: seq<Atom>, show: (string, string) -> string): string {
    if atoms == [] then ""
    else (match atoms[0] case Char(c) => [c] case Num(f, t) => show(f, t)) + Show(atoms[1..], show)
  }

  lemma ShowAppend(a: seq<Atom>, b: seq<Atom>, show: (string, string) -> string)
    ensures Show(a + b, show) == Show(a, show) + Show(b, show)
  {
    if a == [] {
      assert a + b == b;
    } else {
      assert (a + b)[1..] == a[1..] + b;
      ShowAppend(a[1..], b, show);
    }
  }

  lemma ShowChars(s: string, show: (string, string) -> string)
    ensures Show(Chars(s), show) == s
  {
    if s != "" {
      assert Chars(s)[1..] == Chars(s[1..]);
      ShowChars(s[1..], show);
    }
  }

  lemma CharsAppend(s: string, t: string)
    ensures Chars(s + t) == Chars(s) + Chars(t)
  {}

  // ---------------------------------------------------------------------------
  // The gaps and the texts make up `b`
  // ---------------------------------------------------------------------------

  lemma {:induction false} FlatFirst(lits: seq<string>, xs: seq<Value>)
    requires |lits| == |xs| + 1 && xs != []
    ensures Flat(lits, xs) == Chars(lits[0]) + Atoms(xs[0]) + Flat(lits[1..], xs[1..])
    decreases |xs|
  {
    hide Chars, Atoms;
    var n := |xs|;
    if n == 1 {
      assert lits[..1] == [lits[0]] && lits[1..] == [lits[1]];
    } else {
      FlatFirst(lits[..n], xs[..n - 1]);
      var mid := Flat(lits[1..][..n - 1], xs[1..][..n - 2]);
      assert lits[..n][1..] == lits[1..][..n - 1] && xs[..n - 1][1..] == xs[1..][..n - 2];
      assert Flat(lits[1..], xs[1..]) == mid + Atoms(xs[n - 1]) + Chars(lits[n]);
      Associate(Chars(lits[0]) + Atoms(xs[0]), mid, Atoms(xs[n - 1]), Chars(lits[n]));
    }
  }

  lemma Associate(a: seq<Atom>, b: seq<Atom>, c: seq<Atom>, d: seq<Atom>)
    ensures a + b + c + d == a + (b + c + d)
  {}

  lemma FirstMatch(b: string, ms: seq<Match>)
    requires Matches(b, ms) && ms != []
    ensures var m := ms[0];
            m.start + |m.text| <= |b| && b[m.start..m.start + |m.text|] == m.text
    ensures Matches(b, ms[1..]) && (|ms| > 1 ==> ms[0].start + |ms[0].text| <= ms[1].start)
  {
    assert ms[0].text <= b[Clamp(b, ms[0].start)..];
    assert forall k :: 0 <= k < |ms[1..]| ==> ms[1..][k] == ms[k + 1];
  }

  lemma {:induction false} GapsAndTexts(b: string, ms: seq<Match>, from: nat)
    requires Matches(b, ms) && from <= |b| && (ms != [] ==> from <= ms[0].start)
    ensures Flat(Gaps(b, ms, from), Decided(ms, [])) == Chars(b[from..])
    decreases |ms|
  {
    hide Chars, Flat, Matches;
    if ms == [] {
      assert Flat([b[from..]], []) == Chars(b[from..]) by { FlatNone(b[from..]); }
    } else {
      FirstMatch(b, ms);
      var m, rest := ms[0], ms[1..];
      var gap, end := b[from..m.start], m.start + |m.text|;
      GapsAndTexts(b, rest, end);
      assert Gaps(b, ms, from) == [gap] + Gaps(b, rest, end);
      assert Decided(ms, [])[0] == Text(m.text) && Decided(ms, [])[1..] == Decided(rest, []);
      FlatFirst(Gaps(b, ms, from), Decided(ms, []));
      assert b[from..] == gap + m.text + b[end..] by { SplitText(b, from, m.start, end); }
      CharsAppend(gap + m.text, b[end..]);
      CharsAppend(gap, m.text);
    }
  }

  lemma FlatNone(s: string)
    ensures Flat([s], []) == Chars(s)
  {}

  lemma SplitText(b: string, i: nat, j: nat, k: nat)
    requires i <= j <= k <= |b|
    ensures b[i..] == b[i..j] + b[j..k] + b[k..]
  {}

  /** With nothing interpolated the meaning is `b` itself. */
  lemma ExpectedIsText(b: string, ms: seq<Match>, am: seq<string>)
    requires Matches(b, ms) && forall k :: 0 <= k < |ms| ==> Decide(ms, am, k).Text?
    ensures Expected(b, ms, am) == Chars(b)
  {
    assert Decided(ms, am) == Decided(ms, []);
    GapsAndTexts(b, ms, 0);
    assert b[0..] == b;
  }

  // ---------------------------------------------------------------------------
  // The shape of `s` and `q`
  // ---------------------------------------------------------------------------

  /** Where literal `j` and hole `j` are. */
  function LitAt(j: int, first: bool): int { 2 * j - (if first then 0 else 1) }

  function HoleAt(j: int, first: bool): int { 2 * j + (if first then 1 else 0) }

  /** `s` holds the literals with a hole between neighbours; the first is left out
      when `first` is false, the last when `last` is false, and then they are empty. */
  ghost predicate Shape(s: seq<Slot>, lits: seq<string>, first: bool, last: bool) {
    var n, d := |lits| - 1, if first then 0 else 1;
    && n >= 0 && (n == 0 ==> last)
    && |s| == 2 * n + (if last then 1 else 0) - d
    && (!first ==> lits[0] == "") && (!last ==> lits[n] == "")
    && (forall j :: 0 <= j <= n && (j > 0 || first) && (j < n || last) ==> s[LitAt(j, first)] == Lit(lits[j]))
    && (forall j :: 0 <= j < n ==> s[HoleAt(j, first)] == Hole)
  }

  /** Entry `j` points at hole `j`. */
  ghost predicate Points(q: seq<Entry>, first: bool) {
    forall j :: 0 <= j < |q| ==> q[j].i == HoleAt(j, first)
  }

  function Values(q: seq<Entry>): (xs: seq<Value>)
    ensures |xs| == |q| && forall j :: 0 <= j < |q| ==> xs[j] == q[j].x
  {
    seq(|q|, j requires 0 <= j < |q| => q[j].x)
  }

  predicate IsString(s: seq<Slot>, i: int) { 0 <= i < |s| && s[i].Lit? }

  // ---------------------------------------------------------------------------
  // Numbers in `b`
  // ---------------------------------------------------------------------------

  /** Where gap `k` of `b` begins and ends. */
  function GapStart(ms: seq<Match>, from: nat, k: nat): nat
    requires k <= |ms|
  {
    if k == 0 then from else ms[k - 1].start + |ms[k - 1].text|
  }

  function GapEnd(b: string, ms: seq<Match>, k: nat): nat
    requires k <= |ms|
  {
    if k == |ms| then |b| else ms[k].start
  }

  lemma {:induction false} GapAt(b: string, ms: seq<Match>, from: nat, k: nat)
    requires k <= |ms| && Matches(b, ms) && from <= |b| && (ms != [] ==> from <= ms[0].start)
    ensures GapStart(ms, from, k) <= GapEnd(b, ms, k) <= |b|
    ensures Gaps(b, ms, from)[k] == b[GapStart(ms, from, k)..GapEnd(b, ms, k)]
    decreases |ms|
  {
    hide Matches;
    if ms == [] {
      assert Gaps(b, ms, from) == [b[from..]];
    } else {
      FirstMatch(b, ms);
      var end, rest := ms[0].start + |ms[0].text|, ms[1..];
      var g := Gaps(b, rest, end);
      assert Gaps(b, ms, from) == [b[from..ms[0].start]] + g;
      if k > 0 {
        hide Gaps;
        GapAt(b, rest, end, k - 1);
        assert Gaps(b, ms, from)[k] == g[k - 1];
        assert GapStart(rest, end, k - 1) == GapStart(ms, from, k) && GapEnd(b, rest, k - 1) == GapEnd(b, ms, k);
      }
    }
  }

  /** Splits `b` at its numbers. */
  method Split(b: string, ms: seq<Match>) returns (s: seq<Slot>, q: seq<Entry>, ghost first: bool, ghost last: bool)
    requires Matches(b, ms)
    ensures Shape(s, Gaps(b, ms, 0), first, last) && Points(q, first) && Values(q) == Decided(ms, [])
  {
    hide Shape, Gaps, Matches;
    ghost var g := Gaps(b, ms, 0);
    s, q := [], [];
    var s0 := 0;
    first := ms != [] && ms[0].start != 0;
    for k := 0 to |ms|
      invariant |q| == k && Points(q, first) && forall j :: 0 <= j < k ==> q[j].x == Text(ms[j].text)
      invariant s0 == if k == 0 then 0 else ms[k - 1].start + |ms[k - 1].text|
      invariant |s| == if k == 0 then 0 else HoleAt(k - 1, first) + 1
      invariant if k == 0 then s == [] else Shape(s, g[..k] + [""], first, false)
    {
      StartsInOrder(b, ms, k);
      GapAt(b, ms, 0, k);
      ghost var before := s;
      var m := ms[k];
      if m.start != 0 { s := s + [Lit(b[s0..m.start])]; }
      q := q + [Entry(|s|, Text(m.text))];
      s := s + [Hole];
      s0 := m.start + |m.text|;
      SplitStep(before, s, g, k, first);
    }
    GapAt(b, ms, 0, |ms|);
    ghost var before := s;
    if s0 < |b| { s := s + [Lit(b[s0..])]; }
    last := |ms| == 0 || s0 < |b|;
    if ms == [] { first := s0 < |b|; }
    assert before + [] == before && b[s0..] == b[s0..|b|];
    SplitEnd(before, s, g, first, last);
    assert Values(q) == Decided(ms, []);
  }

  lemma StartsInOrder(b: string, ms: seq<Match>, k: nat)
    requires Matches(b, ms) && k < |ms|
    ensures k > 0 ==> ms[k].start > 0 && ms[k - 1].start + |ms[k - 1].text| <= ms[k].start
  {}

  lemma SplitEnd(before: seq<Slot>, s: seq<Slot>, g: seq<string>, first: bool, last: bool)
    requires |g| >= 1
    requires if |g| == 1 then before == [] && last else Shape(before, g[..|g| - 1] + [""], first, false)
    requires s == before + (if |g| == 1 then if first then [Lit(g[0])] else []
                            else if last then [Lit(g[|g| - 1])] else [])
    requires (|g| == 1 && !first) || !last ==> g[|g| - 1] == ""
    ensures Shape(s, g, first, last)
  {
    var n := |g| - 1;
    var lits := g[..n] + [""];
    if n > 0 {
      forall j | 0 <= j <= n && (j > 0 || first) && (j < n || last) ensures s[LitAt(j, first)] == Lit(g[j]) {
        if j < n { assert before[LitAt(j, first)] == Lit(lits[j]); }
      }
      forall j | 0 <= j < n ensures s[HoleAt(j, first)] == Hole {
        assert before[HoleAt(j, first)] == Hole;
      }
      assert lits[0] == g[0];
    }
  }

  lemma SplitStep(before: seq<Slot>, s: seq<Slot>, g: seq<string>, k: nat, first: bool)
    requires k + 1 < |g|
    requires if k == 0 then before == [] else Shape(before, g[..k] + [""], first, false)
    requires s == before + (if k > 0 || first then [Lit(g[k])] else []) + [Hole]
    requires k == 0 && !first ==> g[0] == ""
    ensures Shape(s, g[..k + 1] + [""], first, false)
  {
    var lits, more := g[..k] + [""], g[..k + 1] + [""];
    forall j | 0 <= j <= k && (j > 0 || first) ensures s[LitAt(j, first)] == Lit(more[j]) {
      if j < k { assert before[LitAt(j, first)] == Lit(lits[j]); }
    }
    forall j | 0 <= j <= k ensures s[HoleAt(j, first)] == Hole {
      if j < k { assert before[HoleAt(j, first)] == Hole; }
    }
  }

  // ---------------------------------------------------------------------------
  // Numbers in `a`
  // ---------------------------------------------------------------------------

  /** `for (; j < n; ++j) q[j].i -= by`. */
  method ShiftFrom(q0: seq<Entry>, from: nat, by_: int) returns (q: seq<Entry>)
    requires from <= |q0|
    ensures |q| == |q0| && forall j :: 0 <= j < |q| ==> q[j] == if j < from then q0[j] else q0[j].(i := q0[j].i - by_)
  {
    q := q0;
    for j := from to |q|
      invariant |q| == |q0|
      invariant forall k :: 0 <= k < |q| ==> q[k] == if from <= k < j then q0[k].(i := q0[k].i - by_) else q0[k]
    {
      q := q[j := q[j].(i := q[j].i - by_)];
    }
  }

  /** Literals `k` and `k + 1` and the number between them become one literal. */
  function Merge(lits: seq<string>, k: nat, x: string): seq<string>
    requires k + 1 < |lits|
  {
    lits[..k] + [lits[k] + x + lits[k + 1]] + lits[k + 2..]
  }

  /** The text of a hole joins the strings around it; `by_` is how far what follows moves. */
  method JoinHole(s0: seq<Slot>, h: int, x: string, ghost before: string, ghost after: string)
      returns (s: seq<Slot>, by_: int)
    requires 0 <= h < |s0|
    requires if h > 0 then s0[h - 1] == Lit(before) else before == ""
    requires if h + 1 < |s0| then s0[h + 1] == Lit(after) else after == ""
    ensures Merged(s0, s, h, before + x + after)
    ensures by_ == if h > 0 then if h + 1 < |s0| then 2 else 1 else if h + 1 < |s0| then 1 else 0
  {
    hide Merged;
    s := s0;
    JoinText(before, x, after);
    if h != 0 {
      if !IsString(s, h + 1) { // a hole comes next, so the text goes to the left
        s := s[h - 1 := Lit(s[h - 1].text + x)];
        s := s[..h] + s[h + 1..];
        by_ := 1;
      } else { // both neighbours are text and become one
        s := s[h - 1 := Lit(s[h - 1].text + (x + s[h + 1].text))];
        s := s[..h] + s[h + 2..];
        by_ := 2;
      }
    } else {
      if !IsString(s, h + 1) {
        s := s[h := Lit(x)];
        by_ := 0;
      } else {
        s := s[h := Lit(x + s[h + 1].text)];
        s := s[..h + 1] + s[h + 2..];
        by_ := 1;
      }
    }
    assert s == (if h > 0 then s0[..h - 1] else []) + [Lit(before + x + after)]
              + (if h + 2 <= |s0| then s0[h + 2..] else []);
    MergedSlots(s0, s, h, before + x + after);
  }

  /** Both numbers are the same: entry `k` goes, and its text joins its neighbours. */
  method Coalesce(s0: seq<Slot>, q0: seq<Entry>, k: nat, ghost lits: seq<string>, ghost first0: bool, ghost last0: bool)
    returns (s: seq<Slot>, q: seq<Entry>, ghost first: bool, ghost last: bool)
    requires Shape(s0, lits, first0, last0) && Points(q0, first0) && |lits| == |q0| + 1
    requires k < |q0| && q0[k].x.Text?
    ensures Shape(s, Merge(lits, k, q0[k].x.text), first, last) && Points(q, first)
    ensures Values(q) == Values(q0)[..k] + Values(q0)[k + 1..]
  {
    hide Shape, Merge, Merged;
    var o := q0[k];
    Around(s0, lits, first0, last0, k);
    var by_;
    s, by_ := JoinHole(s0, o.i, o.x.text, lits[k], lits[k + 1]);
    q := ShiftFrom(q0, k + 1, by_);
    q := q[..k] + q[k + 1..];
    first, last := first0 || k == 0, last0 || k + 1 == |q0|;
    WithoutEntry(q0, q, k);
    MergedShape(s0, s, lits, first0, last0, k, o.x.text);
  }

  lemma WithoutEntry(q0: seq<Entry>, q: seq<Entry>, k: nat)
    requires k < |q0| && |q| == |q0| - 1
    requires forall j :: 0 <= j < |q| ==> q[j].x == q0[if j < k then j else j + 1].x
    ensures Values(q) == Values(q0)[..k] + Values(q0)[k + 1..]
  {
    var a, b := Values(q), Values(q0)[..k] + Values(q0)[k + 1..];
    forall j | 0 <= j < |q| ensures a[j] == b[j] {
      assert a[j] == q[j].x;
      assert Values(q0)[if j < k then j else j + 1] == q0[if j < k then j else j + 1].x;
    }
  }

  lemma JoinText(a: string, x: string, c: string)
    ensures a + (x + c) == a + x + c && (a == "" ==> x + c == a + x + c && x == a + x)
    ensures c == "" ==> a + x == a + x + c
  {}

  /** What is next to hole `k`: a string before it unless it comes first, and one
      after it unless it comes last. */
  lemma Around(s: seq<Slot>, lits: seq<string>, first: bool, last: bool, k: nat)
    requires Shape(s, lits, first, last) && k + 1 < |lits|
    ensures 0 <= HoleAt(k, first) < |s| && s[HoleAt(k, first)] == Hole
    ensures if k > 0 || first then HoleAt(k, first) > 0 && s[HoleAt(k, first) - 1] == Lit(lits[k])
            else HoleAt(k, first) == 0 && lits[k] == ""
    ensures if k + 2 < |lits| || last then HoleAt(k, first) + 1 < |s| && s[HoleAt(k, first) + 1] == Lit(lits[k + 1])
            else HoleAt(k, first) + 1 == |s| && lits[k + 1] == ""
  {
    assert LitAt(k, first) == HoleAt(k, first) - 1 && LitAt(k + 1, first) == HoleAt(k, first) + 1;
    if k > 0 || first { assert s[LitAt(k, first)] == Lit(lits[k]); }
    if k + 2 < |lits| || last { assert s[LitAt(k + 1, first)] == Lit(lits[k + 1]); }
  }

  /** The slots after coalescing at `h`: one string `t` for what was around the hole. */
  ghost predicate Merged(s0: seq<Slot>, s: seq<Slot>, h: int, t: string) {
    && 0 <= h < |s0| && |s| == |s0| - (if h > 0 then 1 else 0) - (if h + 2 <= |s0| then 1 else 0)
    && forall i {:trigger s[i]} :: 0 <= i < |s| ==>
         s[i] == if i < h - 1 then s0[i] else if i == h - 1 || i == h == 0 then Lit(t)
                 else s0[if h > 0 then i + 2 else i + 1]
  }

  lemma MergedSlots(s0: seq<Slot>, s: seq<Slot>, h: int, t: string)
    requires 0 <= h < |s0|
    requires s == (if h > 0 then s0[..h - 1] else []) + [Lit(t)] + (if h + 2 <= |s0| then s0[h + 2..] else [])
    ensures Merged(s0, s, h, t)
  {}

  lemma MergedShape(s0: seq<Slot>, s: seq<Slot>, lits: seq<string>, first: bool, last: bool, k: nat, x: string)
    requires Shape(s0, lits, first, last) && k + 1 < |lits|
    requires Merged(s0, s, HoleAt(k, first), lits[k] + x + lits[k + 1])
    ensures Shape(s, Merge(lits, k, x), first || k == 0, last || k + 2 == |lits|)
  {
    hide Merge, Merged;
    var first', last', more := first || k == 0, last || k + 2 == |lits|, Merge(lits, k, x);
    MergeAt(lits, k, x, 0);
    var n := |more| - 1;
    MergeAt(lits, k, x, n);
    MergedLength(s0, s, lits, first, last, k, x);
    forall j | 0 <= j <= n && (j > 0 || first') && (j < n || last') ensures s[LitAt(j, first')] == Lit(more[j]) {
      MergedLit(s0, s, lits, first, last, k, x, j);
    }
    forall j | 0 <= j < n ensures s[HoleAt(j, first')] == Hole {
      MergedHole(s0, s, lits, first, last, k, x, j);
    }
  }

  lemma MergedLength(s0: seq<Slot>, s: seq<Slot>, lits: seq<string>, first: bool, last: bool, k: nat, x: string)
    requires Shape(s0, lits, first, last) && k + 1 < |lits|
    requires Merged(s0, s, HoleAt(k, first), lits[k] + x + lits[k + 1])
    ensures |s| == 2 * (|lits| - 2) + (if last || k + 2 == |lits| then 1 else 0) - (if first || k == 0 then 0 else 1)
  {}

  lemma MergedLit(s0: seq<Slot>, s: seq<Slot>, lits: seq<string>, first: bool, last: bool, k: nat, x: string, j: nat)
    requires Shape(s0, lits, first, last) && k + 1 < |lits|
    requires Merged(s0, s, HoleAt(k, first), lits[k] + x + lits[k + 1])
    requires j <= |lits| - 2 && (j > 0 || first || k == 0) && (j < |lits| - 2 || last || k + 2 == |lits|)
    ensures 0 <= LitAt(j, first || k == 0) < |s| && |Merge(lits, k, x)| == |lits| - 1
    ensures s[LitAt(j, first || k == 0)] == Lit(Merge(lits, k, x)[j])
  {
    hide Merge;
    MergedLength(s0, s, lits, first, last, k, x);
    MergeAt(lits, k, x, j);
    if j < k {
      assert s0[LitAt(j, first)] == Lit(lits[j]);
    } else if j > k {
      assert s0[LitAt(j + 1, first)] == Lit(lits[j + 1]);
    }
  }

  lemma MergedHole(s0: seq<Slot>, s: seq<Slot>, lits: seq<string>, first: bool, last: bool, k: nat, x: string, j: nat)
    requires Shape(s0, lits, first, last) && k + 1 < |lits| && j < |lits| - 2
    requires Merged(s0, s, HoleAt(k, first), lits[k] + x + lits[k + 1])
    ensures 0 <= HoleAt(j, first || k == 0) < |s| && s[HoleAt(j, first || k == 0)] == Hole
  {
    MergedLength(s0, s, lits, first, last, k, x);
    assert s0[HoleAt(if j < k then j else j + 1, first)] == Hole;
  }

  lemma MergeAt(lits: seq<string>, k: nat, x: string, j: nat)
    requires k + 1 < |lits| && j < |lits| - 1
    ensures |Merge(lits, k, x)| == |lits| - 1
    ensures Merge(lits, k, x)[j] == if j < k then lits[j] else if j == k then lits[k] + x + lits[k + 1] else lits[j + 1]
  {}

  lemma Slices<T>(s: seq<T>, i: nat, n: nat)
    requires i <= n <= |s|
    ensures s[..n][i..] == s[i..][..n - i] && s[..n][..i] == s[..i]
  {}

  /** A value and a literal after each other, for every position. */
  function Rest(lits: seq<string>, xs: seq<Value>): seq<Atom>
    requires |lits| == |xs|
  {
    if xs == [] then []
    else Rest(lits[..|xs| - 1], xs[..|xs| - 1]) + Atoms(xs[|xs| - 1]) + Chars(lits[|xs| - 1])
  }

  lemma {:induction false} FlatSplit(lits: seq<string>, xs: seq<Value>, i: nat)
    requires |lits| == |xs| + 1 && i <= |xs|
    ensures Flat(lits, xs) == Flat(lits[..i + 1], xs[..i]) + Rest(lits[i + 1..], xs[i..])
    decreases |xs|
  {
    hide Chars, Atoms;
    var n := |xs|;
    if i == n {
      assert lits[..n + 1] == lits && xs[..n] == xs && xs[n..] == [];
    } else {
      var l, x := lits[..n], xs[..n - 1];
      FlatSplit(l, x, i);
      Slices(lits, i + 1, n);
      Slices(xs, i, n - 1);
      Associate(Flat(lits[..i + 1], xs[..i]), Rest(l[i + 1..], x[i..]), Atoms(xs[n - 1]), Chars(lits[n]));
    }
  }

  /** What the pairing loop keeps after `c` numbers of `a`, `i` of them kept in `q`. */
  ghost predicate Paired(lits: seq<string>, xs: seq<Value>, g: seq<string>, ds: seq<Value>, all: seq<Value>,
        i: nat, c: nat) {
    && |lits| == |xs| + 1 && |g| == |ds| + 1 && |all| == |ds|
    && i <= |xs| && c <= |ds| && |xs| - i == |ds| - c
    && xs[i..] == all[c..] && lits[i + 1..] == g[c + 1..]
    && Flat(lits[..i + 1], xs[..i]) == Flat(g[..c + 1], ds[..c])
    && (forall j :: 0 <= j < i ==> xs[j].Between?)
    && (i == 0 ==> forall k :: 0 <= k < c ==> ds[k].Text?)
  }

  lemma PairedStart(g: seq<string>, ds: seq<Value>, all: seq<Value>)
    requires |g| == |ds| + 1 && |all| == |ds|
    ensures Paired(g, all, g, ds, all, 0, 0)
  {
    assert all[..0] == ds[..0];
  }

  lemma FlatSnoc(lits: seq<string>, xs: seq<Value>, i: nat)
    requires |lits| == |xs| + 1 && i < |xs|
    ensures Flat(lits[..i + 2], xs[..i + 1]) == Flat(lits[..i + 1], xs[..i]) + Atoms(xs[i]) + Chars(lits[i + 1])
  {
    hide Chars, Atoms;
    assert lits[..i + 2][..i + 1] == lits[..i + 1] && xs[..i + 1][..i] == xs[..i];
  }

  /** Keeping entry `i` as an interpolator. */
  lemma PairedKeep(lits: seq<string>, xs: seq<Value>, xs': seq<Value>, g: seq<string>, ds: seq<Value>,
        all: seq<Value>, i: nat, c: nat)
    requires Paired(lits, xs, g, ds, all, i, c) && i < |xs|
    requires ds[c].Between? && xs' == xs[i := ds[c]]
    ensures Paired(lits, xs', g, ds, all, i + 1, c + 1)
  {
    hide Chars, Atoms, Flat;
    FlatSnoc(lits, xs', i);
    FlatSnoc(g, ds, c);
    assert xs'[..i] == xs[..i] && xs'[i + 1..] == xs[i..][1..] && all[c..][1..] == all[c + 1..];
    assert lits[i + 1..][1..] == lits[i + 2..] && g[c + 1..][1..] == g[c + 2..];
    assert lits[i + 1] == lits[i + 1..][0] && g[c + 1] == g[c + 1..][0];
  }

  /** Coalescing entry `i`. */
  lemma PairedMerge(lits: seq<string>, xs: seq<Value>, g: seq<string>, ds: seq<Value>, all: seq<Value>, i: nat, c: nat)
    requires Paired(lits, xs, g, ds, all, i, c) && i < |xs|
    requires ds[c] == xs[i] == all[c] && xs[i].Text?
    ensures Paired(Merge(lits, i, xs[i].text), xs[..i] + xs[i + 1..], g, ds, all, i, c + 1)
  {
    hide Chars, Atoms, Flat;
    var lits', xs' := Merge(lits, i, xs[i].text), xs[..i] + xs[i + 1..];
    assert lits[i + 1] == lits[i + 1..][0] == g[c + 1..][0] == g[c + 1];
    MergedFlat(lits, xs, i);
    FlatSnoc(g, ds, c);
    assert xs'[i..] == xs[i..][1..] && all[c..][1..] == all[c + 1..];
    assert lits'[i + 1..] == lits[i + 1..][1..] && g[c + 1..][1..] == g[c + 2..];
    assert xs'[..i] == xs[..i];
  }

  lemma MergedFlat(lits: seq<string>, xs: seq<Value>, i: nat)
    requires |lits| == |xs| + 1 && i < |xs| && xs[i].Text?
    ensures Flat(Merge(lits, i, xs[i].text)[..i + 1], xs[..i])
         == Flat(lits[..i + 1], xs[..i]) + Atoms(xs[i]) + Chars(lits[i + 1])
  {
    hide Chars, Flat;
    var x, t := xs[i].text, lits[i + 1];
    assert lits[..i + 1] == lits[..i] + [lits[i]];
    assert Merge(lits, i, x)[..i + 1] == lits[..i] + [lits[i] + (x + t)] by { JoinText(lits[i], x, t); }
    LastLonger(lits[..i], lits[i], x + t, xs[..i]);
    CharsAppend(x, t);
  }

  lemma LastLonger(front: seq<string>, l: string, t: string, xs: seq<Value>)
    requires |front| == |xs|
    ensures Flat(front + [l + t], xs) == Flat(front + [l], xs) + Chars(t)
  {
    hide Atoms;
    var n := |xs|;
    CharsAppend(l, t);
    if n > 0 {
      assert (front + [l + t])[..n] == front == (front + [l])[..n];
    }
  }

  /** The loop over the numbers of `a`: equal ones are coalesced, others interpolated. */
  method PairUp(b: string, ms: seq<Match>, am: seq<string>, s0: seq<Slot>, q0: seq<Entry>, ghost first0: bool,
        ghost last0: bool)
    returns (s: seq<Slot>, q: seq<Entry>, i: nat, ghost lits: seq<string>, ghost first: bool, ghost last: bool)
    requires Shape(s0, Gaps(b, ms, 0), first0, last0) && Points(q0, first0) && Values(q0) == Decided(ms, [])
    ensures Shape(s, lits, first, last) && Points(q, first) && |lits| == |q| + 1 && i <= |q|
    ensures Flat(lits, Values(q)) == Expected(b, ms, am)
    ensures forall j :: 0 <= j < |q| ==> (q[j].x.Between? <==> j < i)
    ensures i == 0 ==> forall k :: 0 <= k < |ms| ==> Decide(ms, am, k).Text?
  {
    hide Shape, Points, Paired, Merge, Flat;
    s, q, i, lits, first, last := s0, q0, 0, Gaps(b, ms, 0), first0, last0;
    var c := 0;
    ghost var g, ds, all := Gaps(b, ms, 0), Decided(ms, am), Decided(ms, []);
    PairedStart(g, ds, all);
    while c < |am| && i < |q|
      invariant c <= |am| && i <= |q| && Shape(s, lits, first, last) && Points(q, first) && |lits| == |q| + 1
      invariant Paired(lits, Values(q), g, ds, all, i, c)
      decreases |am| - c
    {
      PairedNext(lits, Values(q), g, ds, all, i, c);
      assert q[i].x == Values(q)[i];
      if q[i].x == Text(am[c]) { // both texts have the same number here, so the hole is filled
        PairedMerge(lits, Values(q), g, ds, all, i, c);
        ghost var lits', x := Merge(lits, i, q[i].x.text), q[i].x.text;
        ghost var q', l := q, lits;
        s, q, first, last := Coalesce(s, q, i, lits, first, last);
        MergeAt(l, i, x, 0);
        lits := lits';
      } else {
        ghost var q' := q;
        q := q[i := q[i].(x := Between(am[c], q[i].x.text))];
        assert Values(q) == Values(q')[i := ds[c]];
        PairedKeep(lits, Values(q'), Values(q), g, ds, all, i, c);
        PointsUpdate(q', q, first);
        i := i + 1;
      }
      c := c + 1;
    }
    PairedEnd(b, ms, am, lits, Values(q), i, c);
  }

  lemma PointsUpdate(q: seq<Entry>, q': seq<Entry>, first: bool)
    requires Points(q, first) && |q'| == |q| && forall j :: 0 <= j < |q| ==> q'[j].i == q[j].i
    ensures Points(q', first)
  {}

  lemma PairedNext(lits: seq<string>, xs: seq<Value>, g: seq<string>, ds: seq<Value>, all: seq<Value>, i: nat, c: nat)
    requires Paired(lits, xs, g, ds, all, i, c) && i < |xs|
    ensures c < |ds| && xs[i] == all[c]
  {
    assert xs[i] == xs[i..][0] && all[c] == all[c..][0];
  }

  lemma PairedEnd(b: string, ms: seq<Match>, am: seq<string>, lits: seq<string>, xs: seq<Value>, i: nat, c: nat)
    requires Paired(lits, xs, Gaps(b, ms, 0), Decided(ms, am), Decided(ms, []), i, c)
    requires c == |am| || i == |xs|
    ensures Flat(lits, xs) == Expected(b, ms, am)
    ensures forall j :: 0 <= j < |xs| ==> (xs[j].Between? <==> j < i)
    ensures i == 0 ==> forall k :: 0 <= k < |ms| ==> Decide(ms, am, k).Text?
  {
    hide Chars, Atoms, Flat;
    var g, ds, all := Gaps(b, ms, 0), Decided(ms, am), Decided(ms, []);
    assert ds[c..] == all[c..];
    FlatSplit(lits, xs, i);
    FlatSplit(g, ds, c);
    forall j | i <= j < |xs| ensures xs[j].Text? {
      assert xs[j] == xs[i..][j - i] == all[c..][j - i];
    }
  }

  // ---------------------------------------------------------------------------
  // Evaluation
  // ---------------------------------------------------------------------------

  function ShowValue(x: Value, show: (string, string) -> string): string {
    match x case Text(t) => t case Between(f, t) => show(f, t)
  }

  /** `s` after the loop that writes every number into its slot. */
  function Filled(s: seq<Slot>, q: seq<Entry>, show: (string, string) -> string): (r: seq<Slot>)
    ensures |r| == |s|
  {
    if q == [] then s
    else
      var r, o := Filled(s, q[..|q| - 1], show), q[|q| - 1];
      if 0 <= o.i < |r| then r[o.i := Lit(ShowValue(o.x, show))] else r
  }

  /** `s.join("")`, which shows `null` as nothing. */
  function Joined(s: seq<Slot>): string {
    if s == [] then "" else Joined(s[..|s| - 1]) + (if s[|s| - 1].Lit? then s[|s| - 1].text else "")
  }

  /** What the returned interpolator shows when numbers show as `show` says. */
  function Rendered(r: Interpolator, show: (string, string) -> string): string {
    match r
    case Number(x) => ShowValue(x, show)
    case Constant(t) => t
    case Template(s, q) => Joined(Filled(s, q, show))
  }

  lemma {:induction false} JoinedAppend(a: seq<Slot>, b: seq<Slot>)
    ensures Joined(a + b) == Joined(a) + Joined(b)
    decreases |b|
  {
    if b == [] {
      assert a + b == a;
    } else {
      assert (a + b)[..|a + b| - 1] == a + b[..|b| - 1];
      JoinedAppend(a, b[..|b| - 1]);
    }
  }

  lemma {:induction false} FilledPrefix(a: seq<Slot>, b: seq<Slot>, q: seq<Entry>, show: (string, string) -> string)
    requires forall j :: 0 <= j < |q| ==> q[j].i < |a|
    ensures Filled(a + b, q, show) == Filled(a, q, show) + b
    decreases |q|
  {
    if q != [] { FilledPrefix(a, b, q[..|q| - 1], show); }
  }

  lemma ShowAtoms(x: Value, show: (string, string) -> string)
    ensures Show(Atoms(x), show) == ShowValue(x, show)
  {
    match x
    case Text(t) => ShowChars(t, show);
    case Between(f, t) =>
      assert [Num(f, t)][1..] == [];
      assert Show([Num(f, t)], show) == show(f, t) + Show([], show);
  }

  lemma ShapePrefix(s: seq<Slot>, lits: seq<string>, first: bool, last: bool)
    requires Shape(s, lits, first, last) && |lits| >= 2
    ensures var n := |lits| - 1; var h := HoleAt(n - 1, first);
            && 0 <= h < |s| && Shape(s[..h], lits[..n], first, true)
            && s == s[..h] + [Hole] + (if last then [Lit(lits[n])] else [])
            && (!last ==> lits[n] == "")
  {
    var n := |lits| - 1;
    var h := HoleAt(n - 1, first);
    Around(s, lits, first, last, n - 1);
    forall j | 0 <= j <= n - 1 && (j > 0 || first) ensures s[..h][LitAt(j, first)] == Lit(lits[..n][j]) {
      assert s[LitAt(j, first)] == Lit(lits[j]);
    }
    forall j | 0 <= j < n - 1 ensures s[..h][HoleAt(j, first)] == Hole {
      assert s[HoleAt(j, first)] == Hole;
    }
  }

  /** Filling the holes and joining shows the literals and values in turn. */
  lemma {:induction false} JoinShape(s: seq<Slot>, q: seq<Entry>, lits: seq<string>, first: bool, last: bool,
                                     show: (string, string) -> string)
    requires Shape(s, lits, first, last) && Points(q, first) && |lits| == |q| + 1
    ensures Joined(Filled(s, q, show)) == Show(Flat(lits, Values(q)), show)
    decreases |q|
  {
    hide Shape, Chars, Atoms, Points, Flat, Filled, Joined, Show, ShowValue, Values, HoleAt, LitAt;
    var n := |q|;
    if n == 0 {
      JoinNone(s, q, lits, first, last, show);
    } else {
      var h, post := HoleAt(n - 1, first), if last then [Lit(lits[n])] else [];
      ShapePrefix(s, lits, first, last);
      LastEntry(q, first);
      var pre := s[..h];
      JoinShape(pre, q[..n - 1], lits[..n], first, true, show);
      FilledLast(pre, post, q, lits[n], show);
      ShowLastEntry(lits, q, show);
    }
  }

  lemma JoinNone(s: seq<Slot>, q: seq<Entry>, lits: seq<string>, first: bool, last: bool,
                 show: (string, string) -> string)
    requires Shape(s, lits, first, last) && q == [] && |lits| == 1
    ensures Joined(Filled(s, q, show)) == Show(Flat(lits, Values(q)), show)
  {
    hide Shape, Joined, Show, Flat;
    JoinNoHole(s, lits, first, last, show);
    assert Values(q) == [];
  }

  lemma ShowLastEntry(lits: seq<string>, q: seq<Entry>, show: (string, string) -> string)
    requires |lits| == |q| + 1 && q != []
    ensures var n := |q|;
      Show(Flat(lits, Values(q)), show)
      == Show(Flat(lits[..n], Values(q[..n - 1])), show) + (ShowValue(q[n - 1].x, show) + lits[n])
  {
    hide Show, Flat, ShowValue;
    var n := |q|;
    ShowFlatLast(lits, Values(q), show);
    assert Values(q)[..n - 1] == Values(q[..n - 1]);
  }

  lemma {:induction false} FilledLast(pre: seq<Slot>, post: seq<Slot>, q: seq<Entry>, t: string,
        show: (string, string) -> string)
    requires q != [] && q[|q| - 1].i == |pre| && forall j :: 0 <= j < |q| - 1 ==> q[j].i < |pre|
    requires post == [Lit(t)] || (post == [] && t == "")
    ensures Joined(Filled(pre + [Hole] + post, q, show))
         == Joined(Filled(pre, q[..|q| - 1], show)) + (ShowValue(q[|q| - 1].x, show) + t)
  {
    hide Joined, ShowValue;
    var q', v := q[..|q| - 1], ShowValue(q[|q| - 1].x, show);
    assert pre + [Hole] + post == pre + ([Hole] + post);
    FilledPrefix(pre, [Hole] + post, q', show);
    assert Filled(pre + [Hole] + post, q, show) == Filled(pre, q', show) + ([Lit(v)] + post);
    JoinedAppend(Filled(pre, q', show), [Lit(v)] + post);
    JoinTwo(v, post, t);
  }

  lemma LastEntry(q: seq<Entry>, first: bool)
    requires Points(q, first) && q != []
    ensures Points(q[..|q| - 1], first) && q[|q| - 1].i == HoleAt(|q| - 1, first)
    ensures forall j :: 0 <= j < |q| - 1 ==> q[j].i < HoleAt(|q| - 1, first)
  {}

  lemma JoinTwo(v: string, post: seq<Slot>, t: string)
    requires post == [Lit(t)] || (post == [] && t == "")
    ensures Joined([Lit(v)] + post) == v + t
  {
    JoinedAppend([Lit(v)], post);
    JoinOne(v);
    if post != [] { JoinOne(t); }
  }

  lemma JoinOne(v: string)
    ensures Joined([Lit(v)]) == v
  {
    assert [Lit(v)][..0] == [];
    assert Joined([Lit(v)]) == Joined([]) + v;
  }

  lemma {:induction false} ShowFlatLast(lits: seq<string>, xs: seq<Value>, show: (string, string) -> string)
    requires |lits| == |xs| + 1 && xs != []
    ensures var n := |xs|;
            Show(Flat(lits, xs), show) ==
              Show(Flat(lits[..n], xs[..n - 1]), show) + (ShowValue(xs[n - 1], show) + lits[n])
  {
    hide Atoms, Chars, Show, ShowValue;
    var n := |xs|;
    ShowThree(Flat(lits[..n], xs[..n - 1]), Atoms(xs[n - 1]), Chars(lits[n]), show);
    ShowAtoms(xs[n - 1], show);
    ShowChars(lits[n], show);
  }

  lemma {:induction false} ShowThree(a: seq<Atom>, v: seq<Atom>, t: seq<Atom>, show: (string, string) -> string)
    ensures Show(a + v + t, show) == Show(a, show) + (Show(v, show) + Show(t, show))
  {
    ShowAppend(a + v, t, show);
    ShowAppend(a, v, show);
  }

  lemma JoinNoHole(s: seq<Slot>, lits: seq<string>, first: bool, last: bool, show: (string, string) -> string)
    requires Shape(s, lits, first, last) && |lits| == 1
    ensures Joined(s) == Show(Flat(lits, []), show)
  {
    ShowChars(lits[0], show);
    if first {
      assert s[LitAt(0, first)] == Lit(lits[0]);
      assert s == [Lit(lits[0])];
      JoinOne(lits[0]);
    }
  }

  // ---------------------------------------------------------------------------
  // Numbers of `b` that `a` does not have
  // ---------------------------------------------------------------------------

  /** While the numbers after the `i` kept ones are turned back into text: `body` has
      the shape of what is left, and the strings in `tail` say the rest. */
  ghost predicate Unwound(s: seq<Slot>, q: seq<Entry>, body: seq<Slot>, tail: seq<Slot>, lits: seq<string>,
                          first: bool, last: bool, meaning: seq<Atom>) {
    && s == body + tail && (forall k :: 0 <= k < |tail| ==> tail[k].Lit?)
    && Shape(body, lits, first, last) && Points(q, first) && |lits| == |q| + 1 && (!last ==> tail == [])
    && meaning == Flat(lits, Values(q)) + Chars(Joined(tail))
  }

  lemma UnwindStart(s: seq<Slot>, q: seq<Entry>, lits: seq<string>, first: bool, last: bool)
    requires Shape(s, lits, first, last) && Points(q, first) && |lits| == |q| + 1
    ensures Unwound(s, q, s, [], lits, first, last, Flat(lits, Values(q)))
  {
    hide Shape, Points, Flat;
    assert s == s + [];
    assert Chars(Joined([])) == [];
  }

  lemma {:induction false} UnwindStep(s: seq<Slot>, q: seq<Entry>, body: seq<Slot>, tail: seq<Slot>, lits: seq<string>,
                   first: bool, last: bool, meaning: seq<Atom>)
    requires Unwound(s, q, body, tail, lits, first, last, meaning) && q != [] && q[|q| - 1].x.Text?
    ensures var n := |q|; var h := q[n - 1].i; var x := q[n - 1].x.text;
      && 0 <= h < |body| && h == HoleAt(n - 1, first)
      && (IsString(s, h + 1) <==> last) && (last ==> s[h + 1] == Lit(lits[n]))
      && Unwound(s[..h] + [Lit(x + lits[n])] + s[if last then h + 2 else h + 1..], q[..n - 1],
                 body[..h], [Lit(x + lits[n])] + tail, lits[..n], first, true, meaning)
      && (!last ==> lits[n] == "")
  {
    hide Shape, Points, Flat, Joined, Values, Chars, HoleAt;
    var n := |q|;
    var h, x := q[n - 1].i, q[n - 1].x.text;
    LastEntry(q, first);
    ShapePrefix(body, lits, first, last);
    UnwindSlots(s, body, tail, h, lits[n], x, last);
    UnwindMeaning(q, lits, tail, x);
  }

  /** The slots: what follows the last hole joins the number's text. */
  lemma UnwindSlots(s: seq<Slot>, body: seq<Slot>, tail: seq<Slot>, h: int, lit: string, x: string, last: bool)
    requires s == body + tail && (!last ==> tail == []) && 0 <= h < |body|
    requires body == body[..h] + [Hole] + (if last then [Lit(lit)] else [])
    ensures (IsString(s, h + 1) <==> last) && (last ==> s[h + 1] == Lit(lit))
    ensures s[..h] + [Lit(x + lit)] + s[if last then h + 2 else h + 1..] == body[..h] + ([Lit(x + lit)] + tail)
  {
    assert s == body[..h] + [Hole] + (if last then [Lit(lit)] else []) + tail;
    assert s[if last then h + 2 else h + 1..] == tail;
    assert s[..h] == body[..h];
  }

  /** The meaning: the text moves from the last entry to the strings behind. */
  lemma UnwindMeaning(q: seq<Entry>, lits: seq<string>, tail: seq<Slot>, x: string)
    requires q != [] && |lits| == |q| + 1 && q[|q| - 1].x == Text(x)
    ensures var n := |q|;
      Flat(lits, Values(q)) + Chars(Joined(tail))
      == Flat(lits[..n], Values(q[..n - 1])) + Chars(Joined([Lit(x + lits[n])] + tail))
  {
    hide Chars, Joined;
    var n := |q|;
    var a := Flat(lits[..n], Values(q[..n - 1]));
    JoinedAppend([Lit(x + lits[n])], tail);
    JoinOne(x + lits[n]);
    CharsAppend(x + lits[n], Joined(tail));
    CharsAppend(x, lits[n]);
    assert Values(q)[..n - 1] == Values(q[..n - 1]);
    assert Flat(lits, Values(q)) == a + Chars(x) + Chars(lits[n]);
    Associate4(a, Chars(x), Chars(lits[n]), Chars(Joined(tail)));
  }

  lemma Associate4(a: seq<Atom>, b: seq<Atom>, c: seq<Atom>, d: seq<Atom>)
    ensures a + b + c + d == a + ((b + c) + d)
  {}

  /** `d3.interpolateString(a, b)`, given the numbers found in the two strings. */
  method Interpolate(b: string, ms: seq<Match>, am: seq<string>) returns (r: Interpolator)
    requires Matches(b, ms)
    ensures forall show :: Rendered(r, show) == Show(Expected(b, ms, am), show)
    ensures r.Template? ==> forall j :: 0 <= j < |r.q| ==>
      0 <= r.q[j].i < |r.s| && r.s[r.q[j].i] == Hole && r.q[j].x.Between?
  {
    hide Shape, Points, Flat, Matches, Rendered, Expected, Chars, Joined, Gaps, Decided;
    ghost var first, last, lits;
    var s, q, i;
    s, q, first, last := Split(b, ms);
    s, q, i, lits, first, last := PairUp(b, ms, am, s, q, first, last);
    ghost var body, tail := s, [];
    ghost var meaning := Expected(b, ms, am);
    UnwindStart(s, q, lits, first, last);
    while i < |q|
      invariant i <= |q| && Unwound(s, q, body, tail, lits, first, last, meaning)
      invariant forall j :: 0 <= j < |q| ==> (q[j].x.Between? <==> j < i)
      decreases |q|
    {
      UnwindStep(s, q, body, tail, lits, first, last, meaning);
      var o := q[|q| - 1];
      q := q[..|q| - 1];
      body, tail, lits := body[..o.i], [Lit(o.x.text + lits[|q| + 1])] + tail, lits[..|q| + 1];
      if !IsString(s, o.i + 1) { // a hole comes next, so the text goes to the left
        assert o.x.text + "" == o.x.text;
        s := s[..o.i] + [Lit(o.x.text)] + s[o.i + 1..];
      } else { // both neighbours are text and become one
        s := s[..o.i] + [Lit(o.x.text + s[o.i + 1].text)] + s[o.i + 2..];
      }
      last := true;
    }
    UnwoundRenders(b, ms, am, s, q, body, tail, lits, first, last);
    // one hole and nothing around it
    if |s| == 1 {
      return if s[0] == Hole then Number(q[0].x) else Constant(b);
    }
    return Template(s, q);
  }

  lemma {:induction false} UnwoundRenders(b: string, ms: seq<Match>, am: seq<string>, s: seq<Slot>, q: seq<Entry>,
                       body: seq<Slot>, tail: seq<Slot>, lits: seq<string>, first: bool, last: bool)
    requires Matches(b, ms) && Unwound(s, q, body, tail, lits, first, last, Expected(b, ms, am))
    requires forall j :: 0 <= j < |q| ==> q[j].x.Between?
    requires q == [] ==> forall k :: 0 <= k < |ms| ==> Decide(ms, am, k).Text?
    ensures forall show :: Rendered(Template(s, q), show) == Show(Expected(b, ms, am), show)
    ensures forall j :: 0 <= j < |q| ==> 0 <= q[j].i < |s| && s[q[j].i] == Hole
    ensures |s| == 1 && s[0] == Hole ==>
      |q| == 1 && forall show :: Rendered(Number(q[0].x), show) == Show(Expected(b, ms, am), show)
    ensures |s| == 1 && s[0] != Hole ==> forall show :: Rendered(Constant(b), show) == Show(Expected(b, ms, am), show)
  {
    hide Shape, Points, Flat, Matches, Expected, Chars, Filled, Joined, Show, Rendered;
    HolesOfShape(body, q, lits, first, last);
    assert forall i :: 0 <= i < |body| ==> s[i] == body[i];
    assert |s| == 1 && s[0] == Hole ==> |tail| == 0;
    forall show ensures Rendered(Template(s, q), show) == Show(Expected(b, ms, am), show) {
      TemplateRenders(s, q, body, tail, lits, first, last, Expected(b, ms, am), show);
    }
    if |s| == 1 && s[0] == Hole {
      forall show ensures Rendered(Number(q[0].x), show) == Show(Expected(b, ms, am), show) {
        assert Rendered(Template(s, q), show) == Show(Expected(b, ms, am), show);
        LoneHole(s, q, show);
      }
    }
    if |s| == 1 && s[0] != Hole {
      ExpectedIsText(b, ms, am);
      forall show ensures Rendered(Constant(b), show) == Show(Expected(b, ms, am), show) {
        ConstantRenders(b, show);
      }
    }
  }

  lemma ConstantRenders(b: string, show: (string, string) -> string)
    ensures Rendered(Constant(b), show) == Show(Chars(b), show)
  {
    ShowChars(b, show);
  }

  lemma {:induction false} TemplateRenders(s: seq<Slot>, q: seq<Entry>, body: seq<Slot>, tail: seq<Slot>,
        lits: seq<string>, first: bool, last: bool, meaning: seq<Atom>, show: (string, string) -> string)
    requires Unwound(s, q, body, tail, lits, first, last, meaning)
    requires forall j :: 0 <= j < |q| ==> q[j].i < |body|
    ensures Rendered(Template(s, q), show) == Show(meaning, show)
  {
    hide Shape, Points, Flat, Chars, Filled, Joined, Show;
    FilledPrefix(body, tail, q, show);
    JoinedAppend(Filled(body, q, show), tail);
    JoinShape(body, q, lits, first, last, show);
    ShowAppend(Flat(lits, Values(q)), Chars(Joined(tail)), show);
    ShowChars(Joined(tail), show);
  }

  lemma LoneHole(s: seq<Slot>, q: seq<Entry>, show: (string, string) -> string)
    requires |s| == |q| == 1 && q[0].i == 0
    ensures Rendered(Template(s, q), show) == Rendered(Number(q[0].x), show)
  {
    assert q[..0] == [];
    assert Filled(s, q, show) == [Lit(ShowValue(q[0].x, show))];
    JoinOne(ShowValue(q[0].x, show));
  }

  lemma HolesOfShape(s: seq<Slot>, q: seq<Entry>, lits: seq<string>, first: bool, last: bool)
    requires Shape(s, lits, first, last) && Points(q, first) && |lits| == |q| + 1
    ensures forall j :: 0 <= j < |q| ==> 0 <= q[j].i < |s| && s[q[j].i] == Hole
    ensures |s| == 1 && s[0] == Hole ==> |q| == 1
    ensures |s| == 1 && s[0] != Hole ==> q == []
    ensures |s| == 0 ==> q == []
  {
    if q != [] { assert s[HoleAt(0, first)] == Hole; }
    if q == [] && first { assert s[LitAt(0, first)] == Lit(lits[0]); }
  }

  // ---------------------------------------------------------------------------
  // The ends of the interpolation
  // ---------------------------------------------------------------------------

  /** `d3.interpolateNumber(a, b)` at `t`. */
  function InterpolateNumber(a: real, b: real, t: real): real { a + (b - a) * t }

  /** The texts of `b` in place, the interpolated ones spelled as numbers are printed. */
  function Respelled(b: string, ms: seq<Match>, am: seq<string>, spell: string -> string): seq<string> {
    seq(|ms|, k requires 0 <= k < |ms| =>
      match Decide(ms, am, k) case Text(t) => t case Between(f, t) => spell(t))
  }

  function Woven(lits: seq<string>, texts: seq<string>): string
    requires |lits| == |texts| + 1
  {
    if texts == [] then lits[0]
    else Woven(lits[..|texts|], texts[..|texts| - 1]) + texts[|texts| - 1] + lits[|texts|]
  }

  /** At `t = 1` the interpolator shows `b`, with every interpolated number respelled. */
  lemma AtOne(b: string, ms: seq<Match>, am: seq<string>, r: Interpolator,
              parse: string -> real, print_: real -> string)
    requires Matches(b, ms)
    requires forall show :: Rendered(r, show) == Show(Expected(b, ms, am), show)
    ensures Rendered(r, (f, t) => print_(InterpolateNumber(parse(f), parse(t), 1.0)))
         == Woven(Gaps(b, ms, 0), Respelled(b, ms, am, t => print_(parse(t))))
  {
    var show := (f, t) => print_(InterpolateNumber(parse(f), parse(t), 1.0));
    var texts := Respelled(b, ms, am, t => print_(parse(t)));
    forall k | 0 <= k < |ms| ensures ShowValue(Decided(ms, am)[k], show) == texts[k] {
      var x := Decide(ms, am, k);
      if x.Between? { assert InterpolateNumber(parse(x.from), parse(x.to), 1.0) == parse(x.to); }
    }
    ShowIsWoven(Gaps(b, ms, 0), Decided(ms, am), texts, show);
  }

  lemma {:induction false} ShowIsWoven(lits: seq<string>, xs: seq<Value>, texts: seq<string>,
                                       show: (string, string) -> string)
    requires |lits| == |xs| + 1 && |texts| == |xs|
    requires forall k :: 0 <= k < |xs| ==> ShowValue(xs[k], show) == texts[k]
    ensures Show(Flat(lits, xs), show) == Woven(lits, texts)
    decreases |xs|
  {
    hide Show, Flat, Woven, ShowValue;
    var n := |xs|;
    if n == 0 {
      WovenNone(lits, xs, texts, show);
    } else {
      ShowIsWoven(lits[..n], xs[..n - 1], texts[..n - 1], show);
      ShowFlatLast(lits, xs, show);
      WovenLast(lits, texts);
    }
  }

  lemma WovenNone(lits: seq<string>, xs: seq<Value>, texts: seq<string>, show: (string, string) -> string)
    requires |lits| == 1 && xs == [] && texts == []
    ensures Show(Flat(lits, xs), show) == Woven(lits, texts)
  {
    hide Show;
    ShowChars(lits[0], show);
  }

  lemma WovenLast(lits: seq<string>, texts: seq<string>)
    requires |lits| == |texts| + 1 && texts != []
    ensures var n := |texts|; Woven(lits, texts) == Woven(lits[..n], texts[..n - 1]) + (texts[n - 1] + lits[n])
  {}

  /** When numbers print as they were spelled, that is `b` itself. */
  lemma AtOneIsTarget(b: string, ms: seq<Match>, am: seq<string>, r: Interpolator,
                      parse: string -> real, print_: real -> string)
    requires Matches(b, ms)
    requires forall show :: Rendered(r, show) == Show(Expected(b, ms, am), show)
    requires forall k :: 0 <= k < |ms| ==> print_(parse(ms[k].text)) == ms[k].text
    ensures Rendered(r, (f, t) => print_(InterpolateNumber(parse(f), parse(t), 1.0))) == b
  {
    AtOne(b, ms, am, r, parse, print_);
    var texts := Respelled(b, ms, am, t => print_(parse(t)));
    forall k | 0 <= k < |ms| ensures texts[k] == ms[k].text {}
    WovenIsText(b, ms, texts);
  }

  lemma WovenIsText(b: string, ms: seq<Match>, texts: seq<string>)
    requires Matches(b, ms) && |texts| == |ms| && forall k :: 0 <= k < |ms| ==> texts[k] == ms[k].text
    ensures Woven(Gaps(b, ms, 0), texts) == b
  {
    hide Matches, Gaps, Woven, Flat, Chars, Show;
    var show := (f: string, t: string) => t;
    ShowIsWoven(Gaps(b, ms, 0), Decided(ms, []), texts, show);
    GapsAndTexts(b, ms, 0);
    assert b[0..] == b;
    ShowChars(b, show);
  }

  /** The numbers of `b` on the way from those of `a`: each has its counterpart's share
      `1 - t` and its own share `t`, and stays where it has no counterpart. */
  function Mixed(ms: seq<Match>, am: seq<string>, parse: string -> real, print_: real -> string, t: real):
      (texts: seq<string>)
  {
    seq(|ms|, k requires 0 <= k < |ms| =>
      if k < |am| then print_(Blend(parse(am[k]), parse(ms[k].text), t)) else ms[k].text)
  }

  function Blend(x: real, y: real, t: real): real { (1.0 - t) * x + t * y }

  /** At any time the interpolator shows `b` with its numbers so far on their way, if those
      that are spelled alike in both print as they are spelled. */
  lemma {:induction false} AtTime(b: string, ms: seq<Match>, am: seq<string>, r: Interpolator,
                                  parse: string -> real, print_: real -> string, t: real)
    requires Matches(b, ms)
    requires forall show :: Rendered(r, show) == Show(Expected(b, ms, am), show)
    requires forall k :: 0 <= k < |ms| && k < |am| && am[k] == ms[k].text ==> print_(parse(am[k])) == am[k]
    ensures Rendered(r, (x, y) => print_(InterpolateNumber(parse(x), parse(y), t)))
         == Woven(Gaps(b, ms, 0), Mixed(ms, am, parse, print_, t))
  {
    hide InterpolateNumber, Mixed, ShowValue, Flat, Show, Rendered, Woven, Matches, Gaps;
    var show := (x, y) => print_(InterpolateNumber(parse(x), parse(y), t));
    var texts := Mixed(ms, am, parse, print_, t);
    MixedLength(ms, am, parse, print_, t);
    forall k | 0 <= k < |ms| ensures ShowValue(Decided(ms, am)[k], show) == texts[k] {
      MixedAt(ms, am, parse, print_, t, show, k);
    }
    ShowIsWoven(Gaps(b, ms, 0), Decided(ms, am), texts, show);
  }

  lemma MixedLength(ms: seq<Match>, am: seq<string>, parse: string -> real, print_: real -> string, t: real)
    ensures |Mixed(ms, am, parse, print_, t)| == |ms|
  {}

  lemma MixedAt(ms: seq<Match>, am: seq<string>, parse: string -> real, print_: real -> string, t: real,
        show: (string, string) -> string, k: nat)
    requires k < |ms| && (k < |am| && am[k] == ms[k].text ==> print_(parse(am[k])) == am[k])
    requires k < |am| ==> show(am[k], ms[k].text) == print_(InterpolateNumber(parse(am[k]), parse(ms[k].text), t))
    ensures |Mixed(ms, am, parse, print_, t)| == |ms|
    ensures ShowValue(Decide(ms, am, k), show) == Mixed(ms, am, parse, print_, t)[k]
  {
    hide InterpolateNumber, Blend;
    if k < |am| { Mixture(parse(am[k]), parse(ms[k].text), t); }
  }

  lemma Mixture(x: real, y: real, t: real)
    ensures InterpolateNumber(x, y, t) == Blend(x, y, t)
    ensures x == y ==> Blend(x, y, t) == x
    ensures Blend(x, y, 0.0) == x && Blend(x, y, 1.0) == y
  {
    assert (y - x) * t == y * t - x * t;
  }

  /** At `t = 0` that is `b` with the numbers of `a` in the place of its own, as far as `a`
      has any. */
  lemma {:induction false} AtZero(b: string, ms: seq<Match>, am: seq<string>, r: Interpolator,
                                  parse: string -> real, print_: real -> string, texts: seq<string>)
    requires Matches(b, ms)
    requires forall show :: Rendered(r, show) == Show(Expected(b, ms, am), show)
    requires forall k :: 0 <= k < |am| ==> print_(parse(am[k])) == am[k]
    requires |texts| == |ms|
    requires forall k :: 0 <= k < |ms| ==> texts[k] == if k < |am| then am[k] else ms[k].text
    ensures Rendered(r, (x, y) => print_(InterpolateNumber(parse(x), parse(y), 0.0))) == Woven(Gaps(b, ms, 0), texts)
  {
    hide Matches, Expected, Show, Rendered, InterpolateNumber, Blend, Woven, Gaps;
    AtTime(b, ms, am, r, parse, print_, 0.0);
    forall k | 0 <= k < |ms| ensures Mixed(ms, am, parse, print_, 0.0)[k] == texts[k] {
      if k < |am| { Mixture(parse(am[k]), parse(ms[k].text), 0.0); }
    }
    assert Mixed(ms, am, parse, print_, 0.0) == texts;
  }

  /** The returned closure: writes each number into its slot and joins. */
  method Apply(s0: seq<Slot>, q: seq<Entry>, show: (string, string) -> string) returns (text: string)
    requires forall j :: 0 <= j < |q| ==> 0 <= q[j].i < |s0|
    ensures text == Rendered(Template(s0, q), show)
  {
    var s := s0;
    assert q[..0] == [];
    for i := 0 to |q|
      invariant s == Filled(s0, q[..i], show)
    {
      assert q[..i + 1][..i] == q[..i];
      var o := q[i];
      s := s[o.i := Lit(ShowValue(o.x, show))];
    }
    assert q[..|q|] == q;
    text := "";
    for k := 0 to |s|
      invariant text == Joined(s[..k])
    {
      assert s[..k + 1][..k] == s[..k];
      if s[k].Lit? { text := text + s[k].text; }
    }
    assert s[..|s|] == s;
  }
}
