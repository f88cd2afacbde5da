/** The fact filter of the PuppetDB facts terminus, and the part of `save` that copies,
    filters and splits the facts before they are sent. */
module FactFilter {

  import opened Decimals
  import opened Options

  /** A hash key prints the same whether it is a symbol or a string, but the two differ. */
  datatype Key = Symbol(name: string) | Text(name: string)

  datatype Scalar = Nil | False | Other(text: string)

  /** A hash lists its keys in the order in which they were first set. */
  datatype Value = Leaf(scalar: Scalar) | Hash(order: seq<Key>, entries: map<Key, Value>) | Array(items: seq<Value>)

  /** The two configured blocklists: full paths, and regular expressions, each given by
      what it matches. */
  datatype Blocklist = Blocklist(paths: set<string>, patterns: seq<string -> bool>)

  // ---------------------------------------------------------------------------
  // Paths
  // ---------------------------------------------------------------------------

  function Joined(path: seq<string>): string {
    if path == [] then ""
    else if |path| == 1 then path[0]
    else Joined(path[..|path| - 1]) + "." + path[|path| - 1]
  }

  predicate Blocked(b: Blocklist, path: seq<string>) {
    || Joined(path) in b.paths
    || exists i :: 0 <= i < |b.patterns| && b.patterns[i](Joined(path))
  }

  /** The parts of a text between its dots. */
  function Parts(s: string): (r: seq<string>)
    ensures r != []
  {
    if s == "" then [""]
    else
      var r := Parts(s[1..]);
      if s[0] == '.' then [""] + r else [[s[0]] + r[0]] + r[1..]
  }

  /** The parts of the names of a path: the names themselves, if they have no dots. */
  function NameParts(path: seq<string>): seq<string> {
    if path == [] then [] else NameParts(path[..|path| - 1]) + Parts(path[|path| - 1])
  }

  lemma PartsHead(s: string)
    requires s != ""
    ensures var p, q := Parts(s), Parts(s[1..]);
            if s[0] == '.' then p == [""] + q && p[0] == "" && p[1..] == q
            else p[0] == [s[0]] + q[0] && p[0][0] == s[0] && p[0][1..] == q[0] && p[1..] == q[1..]
  {}

  lemma {:induction false} WithoutDots(s: string)
    requires '.' !in s
    ensures Parts(s) == [s]
  {
    if s == "" {
    } else {
      hide Parts;
      PartsHead(s);
      WithoutDots(s[1..]);
      var p := Parts(s);
      assert s[0] in s && s == [s[0]] + s[1..];
      assert p == [p[0]] + p[1..];
    }
  }

  lemma {:induction false} NamesWithoutDots(path: seq<string>)
    requires forall i :: 0 <= i < |path| ==> '.' !in path[i]
    ensures NameParts(path) == path
    decreases |path|
  {
    if path != [] {
      NamesWithoutDots(path[..|path| - 1]);
      WithoutDots(path[|path| - 1]);
    }
  }

  lemma {:induction false} PartsOfTwo(s: string, t: string)
    ensures Parts(s + "." + t) == Parts(s) + Parts(t)
  {
    hide Parts;
    var all := s + "." + t;
    PartsHead(all);
    if s == "" {
      assert all[1..] == t;
      WithoutDots("");
    } else {
      PartsHead(s);
      PartsOfTwo(s[1..], t);
      assert all[1..] == s[1..] + "." + t;
      ConsIsSame(Parts(all), Parts(s) + Parts(t));
      ConcatHead(Parts(s), Parts(t));
      ConcatHead(Parts(s[1..]), Parts(t));
    }
  }

  lemma ConsIsSame(p: seq<string>, q: seq<string>)
    requires p != [] && q != []
    ensures p == q <==> p[0] == q[0] && p[1..] == q[1..]
  {
    assert p == [p[0]] + p[1..] && q == [q[0]] + q[1..];
  }

  lemma ConcatHead(p: seq<string>, q: seq<string>)
    requires p != []
    ensures (p + q)[0] == p[0] && (p + q)[1..] == p[1..] + q
  {}

  lemma {:induction false} PartsOfJoined(path: seq<string>)
    requires path != []
    ensures Parts(Joined(path)) == NameParts(path)
    decreases |path|
  {
    var n := |path| - 1;
    if n == 0 {
      assert NameParts(path[..0]) == [];
    } else {
      PartsOfJoined(path[..n]);
      PartsOfTwo(Joined(path[..n]), path[n]);
    }
  }

  /** A text is known by its parts. */
  lemma {:induction false} SameParts(s: string, t: string)
    requires Parts(s) == Parts(t)
    ensures s == t
  {
    if s == "" || t == "" {
      if s != "" { PartsOfSome(s); }
      if t != "" { PartsOfSome(t); }
    } else {
      hide Parts;
      PartsHead(s);
      PartsHead(t);
      ConsIsSame(Parts(s[1..]), Parts(t[1..]));
      SameParts(s[1..], t[1..]);
    }
  }

  lemma PartsOfSome(s: string)
    requires s != ""
    ensures Parts(s) != [""]
  {}

  /** A path is blocked if an entry has its names for parts, or if a pattern matches the
      text that has; names with dots count as several. */
  lemma {:induction false} BlockedIff(b: Blocklist, path: seq<string>, text: string)
    requires path != []
    ensures Parts(Joined(path)) == NameParts(path)
    ensures Parts(text) == NameParts(path) ==>
      (Blocked(b, path) <==> text in b.paths || exists i :: 0 <= i < |b.patterns| && b.patterns[i](text))
    ensures (exists entry :: entry in b.paths && Parts(entry) == NameParts(path)) ==> Blocked(b, path)
  {
    hide Parts, NameParts, Joined;
    PartsOfJoined(path);
    if Parts(text) == NameParts(path) { SameParts(text, Joined(path)); }
    if entry :| entry in b.paths && Parts(entry) == NameParts(path) { SameParts(entry, Joined(path)); }
  }

  // ---------------------------------------------------------------------------
  // The filter
  // ---------------------------------------------------------------------------

  function Filter(v: Value, b: Blocklist, path: seq<string>): (r: Value)
    decreases v
  {
    match v
    case Leaf(_) => v
    case Hash(order, m) =>
      Hash(OpenKeys(order, b, path), map k | k in m && !Blocked(b, path + [k.name]) :: Filter(m[k], b, path + [k.name]))
    case Array(items) => Array(seq(|items|, i requires 0 <= i < |items| => Filter(items[i], b, path + [Decimal(i)])))
  }

  function OpenKeys(order: seq<Key>, b: Blocklist, path: seq<string>): (r: seq<Key>)
    ensures forall k :: k in r <==> k in order && !Blocked(b, path + [k.name])
  {
    if order == [] then []
    else
      var n := |order| - 1;
      var r := OpenKeys(order[..n], b, path);
      if Blocked(b, path + [order[n].name]) then r else r + [order[n]]
  }

  ghost predicate Before(order: seq<Key>, k: Key, l: Key) {
    exists i, j :: 0 <= i < j < |order| && order[i] == k && order[j] == l
  }

  lemma BeforeLast(order: seq<Key>, x: Key, k: Key, l: Key)
    ensures Before(order + [x], k, l) <==> Before(order, k, l) || (l == x && k in order)
  {
    var more := order + [x];
    if k in order {
      var i :| 0 <= i < |order| && order[i] == k;
      assert more[i] == k && more[|order|] == x;
    }
    if Before(order, k, l) {
      var i, j :| 0 <= i < j < |order| && order[i] == k && order[j] == l;
      assert more[i] == k && more[j] == l;
    }
    if Before(more, k, l) {
      var i, j :| 0 <= i < j < |more| && more[i] == k && more[j] == l;
      assert order[i] == k;
      assert j < |order| ==> order[j] == l;
    }
  }

  /** The keys that stay are in the order they were in. */
  lemma {:induction false} OrderKept(order: seq<Key>, b: Blocklist, path: seq<string>, k: Key, l: Key)
    ensures Before(OpenKeys(order, b, path), k, l)
       <==> Before(order, k, l) && !Blocked(b, path + [k.name]) && !Blocked(b, path + [l.name])
  {
    hide Before, Blocked;
    if order == [] {
      NothingBefore(k, l);
    } else {
      var n := |order| - 1;
      OrderKept(order[..n], b, path, k, l);
      assert order == order[..n] + [order[n]];
      BeforeLast(order[..n], order[n], k, l);
      BeforeLast(OpenKeys(order[..n], b, path), order[n], k, l);
    }
  }

  lemma NothingBefore(k: Key, l: Key)
    ensures !Before([], k, l)
  {}

  /** Each key once, and all of them. */
  ghost predicate Listed(order: seq<Key>, keys: set<Key>) {
    Once(order) && forall k :: k in order <==> k in keys
  }

  ghost predicate Once(order: seq<Key>) {
    forall i, j :: 0 <= i < j < |order| ==> order[i] != order[j]
  }

  lemma ListedHas(order: seq<Key>, keys: set<Key>, i: nat)
    requires Listed(order, keys) && i < |order|
    ensures order[i] in keys && order[i] !in order[..i]
  {}

  lemma ListedAll(order: seq<Key>, keys: set<Key>)
    requires Listed(order, keys)
    ensures forall k :: k in order <==> k in keys
  {}

  lemma OpenKeysNone(b: Blocklist, path: seq<string>)
    ensures OpenKeys([], b, path) == []
  {}

  lemma OpenKeysMore(order: seq<Key>, x: Key, b: Blocklist, path: seq<string>)
    ensures OpenKeys(order + [x], b, path)
         == if Blocked(b, path + [x.name]) then OpenKeys(order, b, path) else OpenKeys(order, b, path) + [x]
  {
    hide Blocked;
    assert (order + [x])[..|order|] == order;
  }

  lemma OnceMore(r: seq<Key>, x: Key)
    ensures Once(r + [x]) <==> Once(r) && x !in r
  {
    var more := r + [x];
    assert forall i :: 0 <= i < |r| ==> more[i] == r[i];
    if x in r {
      var i :| 0 <= i < |r| && r[i] == x;
      assert more[i] == more[|r|];
    }
    if Once(more) {
      forall i, j | 0 <= i < j < |r| ensures r[i] != r[j] {
        assert more[i] != more[j];
      }
    }
  }

  lemma {:induction false} OpenKeysOnce(order: seq<Key>, b: Blocklist, path: seq<string>)
    requires Once(order)
    ensures Once(OpenKeys(order, b, path))
  {
    hide Blocked, Once;
    if order == [] {
    } else {
      var n := |order| - 1;
      assert order == order[..n] + [order[n]];
      OnceMore(order[..n], order[n]);
      OpenKeysOnce(order[..n], b, path);
      OnceMore(OpenKeys(order[..n], b, path), order[n]);
    }
  }

  lemma FilteredHash(v: Value, b: Blocklist, path: seq<string>)
    requires v.Hash?
    ensures var r := Filter(v, b, path);
      && r.Hash? && r.order == OpenKeys(v.order, b, path)
      && (forall k :: k in r.entries <==> k in v.entries && !Blocked(b, path + [k.name]))
      && (forall k :: k in r.entries ==> r.entries[k] == Filter(v.entries[k], b, path + [k.name]))
  {
    hide Blocked;
  }

  lemma OpenKeysListed(v: Value, b: Blocklist, path: seq<string>)
    requires v.Hash? && Listed(v.order, v.entries.Keys)
    ensures var r := Filter(v, b, path); r.Hash? && Listed(r.order, r.entries.Keys)
  {
    hide Blocked, Once, Filter, OpenKeys;
    OpenKeysOnce(v.order, b, path);
    FilteredHash(v, b, path);
  }

  /** One step into a value, and the name it adds to the path. */
  datatype Step = AtKey(key: Key) | AtIndex(index: nat)

  function Name(s: Step): string {
    match s
    case AtKey(k) => k.name
    case AtIndex(i) => Decimal(i)
  }

  function Names(steps: seq<Step>): (r: seq<string>)
    ensures |r| == |steps|
  {
    seq(|steps|, i requires 0 <= i < |steps| => Name(steps[i]))
  }

  /** A key below an array is named with the index in its path. */
  lemma IndexInPath(first: Key, last: Key)
    requires first.name == "disks" && last.name == "serial"
    ensures Joined(Names([AtKey(first), AtIndex(0), AtKey(last)])) == "disks.0.serial"
    ensures Joined(Names([AtKey(first), AtIndex(12), AtKey(last)])) == "disks.12.serial"
  {
    hide Joined;
    var a, b := Names([AtKey(first), AtIndex(0), AtKey(last)]), Names([AtKey(first), AtIndex(12), AtKey(last)]);
    assert Decimal(0) == "0" && Decimal(1) == "1" && Decimal(12) == "12";
    assert a == ["disks", "0", "serial"] && b == ["disks", "12", "serial"];
    JoinedThree("disks", "0", "serial");
    JoinedThree("disks", "12", "serial");
    assert "disks" + "." + "0" + "." + "serial" == "disks.0.serial";
    assert "disks" + "." + "12" + "." + "serial" == "disks.12.serial";
  }

  lemma JoinedThree(a: string, b: string, c: string)
    ensures Joined([a, b, c]) == a + "." + b + "." + c
  {
    assert [a, b, c][..2] == [a, b] && [a, b][..1] == [a];
    assert Joined([a, b]) == a + "." + b;
  }

  function Child(v: Value, s: Step): Option<Value> {
    match s
    case AtKey(k) => if v.Hash? && k in v.entries then Some(v.entries[k]) else None
    case AtIndex(i) => if v.Array? && i < |v.items| then Some(v.items[i]) else None
  }

  /** What the steps lead to. */
  function Get(v: Value, steps: seq<Step>): Option<Value>
    decreases |steps|
  {
    if steps == [] then Some(v)
    else
      var c := Child(v, steps[0]);
      if c.None? then None else Get(c.value, steps[1..])
  }

  /** No part of the way that ends at a hash key is blocked. */
  ghost predicate Open(b: Blocklist, path: seq<string>, steps: seq<Step>) {
    forall n :: 0 < n <= |steps| && steps[n - 1].AtKey? ==> !BlockedAt(b, path, steps, n)
  }

  ghost predicate BlockedAt(b: Blocklist, path: seq<string>, steps: seq<Step>, n: nat)
    requires n <= |steps|
  {
    Blocked(b, path + Names(steps[..n]))
  }

  lemma {:induction false} OpenFirst(b: Blocklist, path: seq<string>, steps: seq<Step>)
    requires steps != []
    ensures Open(b, path, steps) <==>
      (steps[0].AtKey? ==> !Blocked(b, path + [Name(steps[0])])) && Open(b, path + [Name(steps[0])], steps[1..])
  {
    hide Blocked;
    var rest, name := steps[1..], Name(steps[0]);
    assert path + Names(steps[..1]) == path + [name];
    forall n: nat | n <= |rest|
      ensures BlockedAt(b, path, steps, n + 1) <==> BlockedAt(b, path + [name], rest, n)
    {
      assert path + Names(steps[..n + 1]) == path + [name] + Names(rest[..n]);
    }
    if Open(b, path, steps) {
      assert steps[0].AtKey? ==> !BlockedAt(b, path, steps, 1);
      forall n | 0 < n <= |rest| && rest[n - 1].AtKey? ensures !BlockedAt(b, path + [name], rest, n) {
        assert steps[n].AtKey?;
        assert !BlockedAt(b, path, steps, n + 1);
      }
    } else {
      var n :| 0 < n <= |steps| && steps[n - 1].AtKey? && BlockedAt(b, path, steps, n);
      if n > 1 {
        assert rest[n - 2].AtKey? && BlockedAt(b, path + [name], rest, n - 1);
      }
    }
  }

  lemma FilteredChild(v: Value, b: Blocklist, path: seq<string>, s: Step)
    ensures Child(Filter(v, b, path), s)
         == if Child(v, s).None? || (s.AtKey? && Blocked(b, path + [Name(s)])) then None
            else Some(Filter(Child(v, s).value, b, path + [Name(s)]))
  {
    hide Blocked;
  }

  /** What survives the filter, and as what: the value at the end of some steps is there
      exactly if it was there before and no part of the way to it is blocked. */
  lemma {:induction false} GetFiltered(v: Value, b: Blocklist, path: seq<string>, steps: seq<Step>)
    ensures Get(Filter(v, b, path), steps)
         == if Get(v, steps).None? || !Open(b, path, steps) then None
            else Some(Filter(Get(v, steps).value, b, path + Names(steps)))
    decreases |steps|
  {
    hide Filter, Child, Open, Blocked;
    if steps == [] {
      assert path + Names(steps) == path;
      AlwaysOpen(b, path);
    } else {
      FilteredChild(v, b, path, steps[0]);
      OpenFirst(b, path, steps);
      var c, p := Child(v, steps[0]), path + [Name(steps[0])];
      if c.Some? {
        GetFiltered(c.value, b, p, steps[1..]);
        assert p + Names(steps[1..]) == path + Names(steps);
      }
    }
  }

  lemma AlwaysOpen(b: Blocklist, path: seq<string>)
    ensures Open(b, path, [])
  {}

  /** Arrays keep their length, so that indexes keep their meaning; scalars stay. */
  lemma ShapeKept(v: Value, b: Blocklist, path: seq<string>)
    ensures var r := Filter(v, b, path);
      && (v.Leaf? ==> r == v)
      && (v.Array? ==> r.Array? && |r.items| == |v.items|)
      && (v.Hash? ==> r.Hash? && r.entries.Keys <= v.entries.Keys)
  {}

  lemma {:induction false} OpenKeysTwice(order: seq<Key>, a: Blocklist, b: Blocklist, both: Blocklist,
        path: seq<string>)
    requires forall p :: Blocked(both, p) <==> Blocked(a, p) || Blocked(b, p)
    ensures OpenKeys(OpenKeys(order, a, path), b, path) == OpenKeys(order, both, path)
  {
    hide Blocked, OpenKeys;
    if order == [] {
      OpenKeysNone(a, path);
      OpenKeysNone(b, path);
      OpenKeysNone(both, path);
    } else {
      var n := |order| - 1;
      var r, x := OpenKeys(order[..n], a, path), order[n];
      OpenKeysTwice(order[..n], a, b, both, path);
      assert order == order[..n] + [x];
      OpenKeysMore(order[..n], x, a, path);
      OpenKeysMore(order[..n], x, both, path);
      OpenKeysMore(r, x, b, path);
    }
  }

  lemma {:induction false} OpenKeysAll(order: seq<Key>, b: Blocklist, path: seq<string>)
    requires forall p :: !Blocked(b, p)
    ensures OpenKeys(order, b, path) == order
  {
    hide Blocked;
    if order == [] {
    } else {
      OpenKeysAll(order[..|order| - 1], b, path);
    }
  }

  /** Filtering by `a` and then by `b` is filtering once by whatever blocks what either
      of them blocks. */
  lemma {:induction false} FilterTwice(v: Value, a: Blocklist, b: Blocklist, both: Blocklist, path: seq<string>)
    requires forall p :: Blocked(both, p) <==> Blocked(a, p) || Blocked(b, p)
    ensures Filter(Filter(v, a, path), b, path) == Filter(v, both, path)
    decreases v, 1
  {
    hide Blocked, OpenKeys;
    match v
    case Leaf(_) =>
    case Hash(_, _) => HashTwice(v, a, b, both, path);
    case Array(items) =>
      forall i | 0 <= i < |items|
        ensures var p := path + [Decimal(i)]; Filter(Filter(items[i], a, p), b, p) == Filter(items[i], both, p)
      {
        FilterTwice(items[i], a, b, both, path + [Decimal(i)]);
      }
  }

  lemma {:induction false} HashTwice(v: Value, a: Blocklist, b: Blocklist, both: Blocklist, path: seq<string>)
    requires v.Hash? && forall p :: Blocked(both, p) <==> Blocked(a, p) || Blocked(b, p)
    ensures Filter(Filter(v, a, path), b, path) == Filter(v, both, path)
    decreases v, 0
  {
    hide Blocked, OpenKeys, Filter;
    var once, l, r := Filter(v, a, path), Filter(Filter(v, a, path), b, path), Filter(v, both, path);
    OpenKeysTwice(v.order, a, b, both, path);
    FilteredHash(v, a, path);
    FilteredHash(once, b, path);
    FilteredHash(v, both, path);
    assert l.entries.Keys == r.entries.Keys;
    forall k | k in r.entries ensures l.entries[k] == r.entries[k] {
      FilterTwice(v.entries[k], a, b, both, path + [k.name]);
    }
    assert l.entries == r.entries;
  }

  function Union(a: Blocklist, b: Blocklist): Blocklist {
    Blocklist(a.paths + b.paths, a.patterns + b.patterns)
  }

  /** Two filters in a row are one filter by the union of the lists. */
  lemma FilterUnion(v: Value, a: Blocklist, b: Blocklist, path: seq<string>)
    ensures Filter(Filter(v, a, path), b, path) == Filter(v, Union(a, b), path)
  {
    hide Filter, Joined;
    forall p ensures Blocked(Union(a, b), p) <==> Blocked(a, p) || Blocked(b, p) {
      UnionBlocks(a, b, p);
    }
    FilterTwice(v, a, b, Union(a, b), path);
  }

  lemma UnionBlocks(a: Blocklist, b: Blocklist, p: seq<string>)
    ensures Blocked(Union(a, b), p) <==> Blocked(a, p) || Blocked(b, p)
  {
    hide Joined;
    var ps, s := a.patterns + b.patterns, Joined(p);
    forall i | 0 <= i < |b.patterns| && b.patterns[i](s) ensures Blocked(Union(a, b), p) {
      assert ps[|a.patterns| + i](s);
    }
    forall i | 0 <= i < |a.patterns| && a.patterns[i](s) ensures Blocked(Union(a, b), p) {
      assert ps[i](s);
    }
  }

  lemma {:induction false} FilterIdempotent(v: Value, b: Blocklist, path: seq<string>)
    ensures Filter(Filter(v, b, path), b, path) == Filter(v, b, path)
  {
    FilterTwice(v, b, b, b, path);
  }

  /** With empty lists the filter changes nothing. */
  lemma {:induction false} NothingBlocked(v: Value, b: Blocklist, path: seq<string>)
    requires b.paths == {} && b.patterns == []
    ensures Filter(v, b, path) == v
    decreases v
  {
    hide Joined;
    match v
    case Leaf(_) =>
    case Hash(order, m) =>
      OpenKeysAll(order, b, path);
      forall k | k in m ensures Filter(m[k], b, path + [k.name]) == m[k] { NothingBlocked(m[k], b, path + [k.name]); }
      assert Filter(v, b, path).entries == m;
    case Array(items) =>
      forall i | 0 <= i < |items| ensures Filter(items[i], b, path + [Decimal(i)]) == items[i] {
        NothingBlocked(items[i], b, path + [Decimal(i)]);
      }
  }

  // ---------------------------------------------------------------------------
  // What is sent
  // ---------------------------------------------------------------------------

  /** A key that is set again keeps its place, a new one goes to the end. */
  function Placed(order: seq<Key>, k: Key): seq<Key> {
    if k in order then order else order + [k]
  }

  function Without(order: seq<Key>, k: Key): (r: seq<Key>)
    ensures forall l :: l in r <==> l in order && l != k
  {
    if order == [] then []
    else if order[0] == k then Without(order[1..], k)
    else [order[0]] + Without(order[1..], k)
  }

  function Put(v: Value, k: Key, w: Value): (r: Value)
    requires v.Hash?
    ensures r.Hash?
  {
    Hash(Placed(v.order, k), v.entries[k := w])
  }

  function Drop(v: Value, k: Key): (r: Value)
    requires v.Hash?
    ensures r.Hash?
  {
    Hash(Without(v.order, k), v.entries - {k})
  }

  lemma PutListed(order: seq<Key>, keys: set<Key>, k: Key)
    requires Listed(order, keys)
    ensures Listed(Placed(order, k), keys + {k})
  {}

  lemma {:induction false} DropListed(order: seq<Key>, keys: set<Key>, k: Key)
    requires Listed(order, keys)
    ensures Listed(Without(order, k), keys - {k})
  {
    if order == [] {
    } else {
      assert forall l :: l in order <==> l == order[0] || l in order[1..];
      assert Listed(order[1..], keys - {order[0]});
      DropListed(order[1..], keys - {order[0]}, k);
    }
  }

  const TRUSTED := Symbol("trusted")
  const INVENTORY := Text("_puppet_inventory_1")
  const PACKAGES := Text("packages")

  datatype Payload = Payload(values: Value, packages: Option<Value>)

  /** The trusted data are added before, the package inventory is taken out after the
      filter. */
  function Sent(facts: Value, trusted: Value, b: Blocklist): (sent: Payload)
    requires facts.Hash?
    ensures sent.values.Hash?
  {
    var f := Filter(Put(facts, TRUSTED, trusted), b, []);
    Payload(Drop(f, INVENTORY), Packages(f))
  }

  /** The inventory's packages, unless they are missing, `nil` or `false`. */
  function Packages(f: Value): Option<Value> {
    var packages := Get(f, [AtKey(INVENTORY), AtKey(PACKAGES)]);
    if packages.Some? && Truthy(packages.value) then packages else None
  }

  predicate Truthy(v: Value) {
    v != Leaf(Nil) && v != Leaf(False)
  }

  /** Exactly what is not blocked is sent: among the values if it is not in the inventory,
      and in the package inventory if it is in the packages. */
  lemma {:induction false} SentIsFiltered(facts: Value, trusted: Value, b: Blocklist, steps: seq<Step>)
    requires facts.Hash? && steps != []
    ensures var sent := Sent(facts, trusted, b);
            var all := Put(facts, TRUSTED, trusted);
            var way := [AtKey(INVENTORY), AtKey(PACKAGES)] + steps;
      && (Get(sent.values, steps).Some? <==>
        steps[0] != AtKey(INVENTORY) && Get(all, steps).Some? && Open(b, [], steps))
      && (sent.packages.Some? && Get(sent.packages.value, steps).Some? <==> Get(all, way).Some? && Open(b, [], way))
  {
    hide Filter, Open, Blocked, Put;
    var all := Put(facts, TRUSTED, trusted);
    var f := Filter(all, b, []);
    var sent := Sent(facts, trusted, b);
    ShapeKept(all, b, []);
    GetFiltered(all, b, [], steps);
    assert Child(sent.values, steps[0]) == if steps[0] == AtKey(INVENTORY) then None else Child(f, steps[0]);
    var packages := [AtKey(INVENTORY), AtKey(PACKAGES)];
    GetFiltered(all, b, [], packages + steps);
    GetOn(f, packages, steps);
    if Get(f, packages).Some? { OnlyTruthyHasParts(Get(f, packages).value, steps); }
  }

  lemma OnlyTruthyHasParts(v: Value, steps: seq<Step>)
    requires steps != []
    ensures Get(v, steps).Some? ==> Truthy(v)
  {}

  /** The trusted data go with the facts under the symbol `trusted`, filtered like them. */
  lemma {:induction false} TrustedIsSent(facts: Value, trusted: Value, b: Blocklist)
    requires facts.Hash?
    ensures Get(Sent(facts, trusted, b).values, [AtKey(Symbol("trusted"))]) ==
      if Blocked(b, ["trusted"]) then None else Some(Filter(trusted, b, ["trusted"]))
  {
    hide Filter, Blocked, Packages;
    var all, step := Put(facts, TRUSTED, trusted), AtKey(Symbol("trusted"));
    FilteredChild(all, b, [], step);
    ShapeKept(all, b, []);
    assert [] + [Name(step)] == ["trusted"] && [step][1..] == [];
  }

  /** The packages are sent if and only if they are there, not blocked on their way, and
      neither `nil` nor `false`. */
  lemma {:induction false} PackagesAreSent(facts: Value, trusted: Value, b: Blocklist)
    requires facts.Hash?
    ensures var all := Put(facts, TRUSTED, trusted);
            var way := [AtKey(INVENTORY), AtKey(PACKAGES)];
            Sent(facts, trusted, b).packages ==
              if Get(all, way).Some? && Open(b, [], way) && Truthy(Get(all, way).value)
              then Some(Filter(Get(all, way).value, b, Names(way)))
              else None
  {
    hide Open, Blocked, Put;
    var way := [AtKey(INVENTORY), AtKey(PACKAGES)];
    GetFiltered(Put(facts, TRUSTED, trusted), b, [], way);
    assert [] + Names(way) == Names(way);
  }

  lemma {:induction false} GetOn(v: Value, steps: seq<Step>, more: seq<Step>)
    ensures Get(v, steps + more) == if Get(v, steps).None? then None else Get(Get(v, steps).value, more)
    decreases |steps|
  {
    hide Child;
    if steps == [] {
      assert steps + more == more;
    } else {
      assert (steps + more)[1..] == steps[1..] + more;
      if Child(v, steps[0]).Some? { GetOn(Child(v, steps[0]).value, steps[1..], more); }
    }
  }

  /** Blocking the inventory or its packages keeps the package inventory back. */
  lemma {:induction false} InventoryCannotBypass(facts: Value, trusted: Value, b: Blocklist)
    requires facts.Hash?
    requires Blocked(b, ["_puppet_inventory_1"]) || Blocked(b, ["_puppet_inventory_1", "packages"])
    ensures Sent(facts, trusted, b).packages == None
  {
    hide Filter, Blocked, Get;
    var way := [AtKey(INVENTORY), AtKey(PACKAGES)];
    GetFiltered(Put(facts, TRUSTED, trusted), b, [], way);
    assert [] + Names(way[..1]) == ["_puppet_inventory_1"];
    assert [] + Names(way[..2]) == ["_puppet_inventory_1", "packages"];
    assert BlockedAt(b, [], way, 1) || BlockedAt(b, [], way, 2);
  }

  // ---------------------------------------------------------------------------
  // The containers
  // ---------------------------------------------------------------------------

  /** A value as the code has it: hashes and arrays are objects. */
  datatype Ref = ScalarRef(scalar: Scalar) | HashRef(hash: HashObject) | ArrayRef(list: ArrayObject)

  class HashObject {
    var order: seq<Key>
    var entries: map<Key, Ref>

    constructor (order: seq<Key>, entries: map<Key, Ref>)
      ensures this.order == order && this.entries == entries
    {
      this.order, this.entries := order, entries;
    }

    method Set(k: Key, r: Ref)
      modifies this
      ensures order == Placed(old(order), k) && entries == old(entries)[k := r]
    {
      if k !in order { order := order + [k]; }
      entries := entries[k := r];
    }

    method Delete(k: Key) returns (r: Option<Ref>)
      modifies this
      ensures order == Without(old(order), k) && entries == old(entries) - {k}
      ensures r == if k in old(entries) then Some(old(entries)[k]) else None
    {
      r := if k in entries then Some(entries[k]) else None;
      order, entries := Without(order, k), entries - {k};
    }
  }

  class ArrayObject {
    var items: seq<Ref>

    constructor (items: seq<Ref>)
      ensures this.items == items
    {
      this.items := items;
    }
  }

  /** The reference stands for the value, and all containers below are in `repr`. */
  ghost predicate Represents(r: Ref, v: Value, repr: set<object>)
    reads repr
    decreases v, 1
  {
    match v
    case Leaf(s) => r == ScalarRef(s)
    case Hash(_, m) => r.HashRef? && r.hash in repr && Entries(r.hash, v, repr)
    case Array(items) =>
      && r.ArrayRef? && r.list in repr && |r.list.items| == |items|
      && forall i :: 0 <= i < |items| ==> Represents(r.list.items[i], items[i], repr)
  }

  /** The object lists the keys in the same order, and has the values under them. */
  ghost predicate Entries(hash: HashObject, v: Value, repr: set<object>)
    reads hash, repr
    decreases v, 0
  {
    && v.Hash? && hash.order == v.order && Listed(v.order, v.entries.Keys) && hash.entries.Keys == v.entries.Keys
    && forall k :: k in v.entries ==> Represents(hash.entries[k], v.entries[k], repr)
  }

  lemma {:induction false} RepresentsMore(r: Ref, v: Value, small: set<object>, large: set<object>)
    requires Represents(r, v, small) && small <= large
    ensures Represents(r, v, large)
    decreases v
  {
    hide Listed;
    match v
    case Leaf(_) =>
    case Hash(_, m) =>
      forall k | k in m ensures Represents(r.hash.entries[k], m[k], large) {
        RepresentsMore(r.hash.entries[k], m[k], small, large);
      }
    case Array(items) =>
      forall i | 0 <= i < |items| ensures Represents(r.list.items[i], items[i], large) {
        RepresentsMore(r.list.items[i], items[i], small, large);
      }
  }

  lemma {:induction false} EachRepresentsMore(rs: seq<Ref>, vs: seq<Value>, small: set<object>, large: set<object>)
    requires |rs| == |vs| && small <= large && forall i :: 0 <= i < |rs| ==> Represents(rs[i], vs[i], small)
    ensures forall i :: 0 <= i < |rs| ==> Represents(rs[i], vs[i], large)
  {
    hide Represents;
    forall i | 0 <= i < |rs| ensures Represents(rs[i], vs[i], large) { RepresentsMore(rs[i], vs[i], small, large); }
  }

  lemma {:induction false} EntriesRepresentMore(rs: map<Key, Ref>, vs: map<Key, Value>, small: set<object>,
        large: set<object>)
    requires rs.Keys <= vs.Keys && small <= large && forall k :: k in rs ==> Represents(rs[k], vs[k], small)
    ensures forall k :: k in rs ==> Represents(rs[k], vs[k], large)
  {
    hide Represents;
    forall k | k in rs ensures Represents(rs[k], vs[k], large) { RepresentsMore(rs[k], vs[k], small, large); }
  }

  /** A hash object whose own entries do not lead back to it. */
  ghost predicate HashOver(r: Ref, v: Value, repr: set<object>)
    reads repr
  {
    r.HashRef? && r.hash in repr && Entries(r.hash, v, repr - {r.hash})
  }

  lemma HashMade(copy: HashObject, v: Value, made: set<object>)
    requires copy !in made && Entries(copy, v, made)
    ensures Represents(HashRef(copy), v, made + {copy}) && HashOver(HashRef(copy), v, made + {copy})
  {
    hide Listed;
    assert made + {copy} - {copy} == made;
    EntriesRepresentMore(copy.entries, v.entries, made, made + {copy});
  }

  lemma ArrayMade(copy: ArrayObject, vs: seq<Value>, made: set<object>)
    requires |copy.items| == |vs| && forall i :: 0 <= i < |vs| ==> Represents(copy.items[i], vs[i], made)
    ensures Represents(ArrayRef(copy), Array(vs), made + {copy})
  {
    EachRepresentsMore(copy.items, vs, made, made + {copy});
  }

  lemma HashIs(hash: HashObject, v: Value, repr: set<object>)
    requires Represents(HashRef(hash), v, repr)
    ensures v.Hash? && hash in repr && Entries(hash, v, repr)
    ensures hash.order == v.order && Listed(v.order, v.entries.Keys) && hash.entries.Keys == v.entries.Keys
    ensures forall k :: k in v.entries ==> Represents(hash.entries[k], v.entries[k], repr)
  {}

  lemma ArrayIs(list: ArrayObject, v: Value, repr: set<object>)
    requires Represents(ArrayRef(list), v, repr)
    ensures v.Array? && list in repr && |list.items| == |v.items|
    ensures forall i :: 0 <= i < |v.items| ==> Represents(list.items[i], v.items[i], repr)
  {}

  /** `filter_facts`: rebuilds every container, and changes none that was there. */
  method FilterFacts(r: Ref, b: Blocklist, path: seq<string>, ghost v: Value, ghost repr: set<object>)
      returns (filtered: Ref, ghost made: set<object>)
    requires Represents(r, v, repr)
    ensures Represents(filtered, Filter(v, b, path), made) && fresh(made)
    ensures v.Hash? ==> HashOver(filtered, Filter(v, b, path), made)
    decreases v, 1
  {
    match r
    case ScalarRef(_) => filtered, made := r, {};
    case HashRef(hash) => filtered, made := FilterHash(hash, b, path, v, repr);
    case ArrayRef(list) => filtered, made := FilterArray(list, b, path, v, repr);
  }

  ghost predicate PartOf(rs: map<Key, Ref>, vs: map<Key, Value>, repr: set<object>)
    reads repr
  {
    rs.Keys <= vs.Keys && forall k :: k in rs ==> Represents(rs[k], vs[k], repr)
  }

  lemma PartNone(vs: map<Key, Value>)
    ensures PartOf(map[], vs, {})
  {}

  lemma PartMore(rs: map<Key, Ref>, vs: map<Key, Value>, made: set<object>, k: Key, r: Ref, more: set<object>)
    requires PartOf(rs, vs, made) && k in vs && Represents(r, vs[k], more)
    ensures PartOf(rs[k := r], vs, made + more)
  {
    hide Represents;
    EntriesRepresentMore(rs, vs, made, made + more);
    RepresentsMore(r, vs[k], more, made + more);
  }

  lemma PartIsAll(copy: HashObject, v: Value, made: set<object>)
    requires v.Hash? && Listed(v.order, v.entries.Keys)
    requires PartOf(copy.entries, v.entries, made) && copy.entries.Keys == v.entries.Keys && copy.order == v.order
    ensures Entries(copy, v, made)
  {
    hide Represents, Listed;
  }

  /** Takes the entries in the order of the hash, so that those that stay keep it. */
  method FilterHash(hash: HashObject, b: Blocklist, path: seq<string>, ghost v: Value, ghost repr: set<object>)
      returns (filtered: Ref, ghost made: set<object>)
    requires Represents(HashRef(hash), v, repr)
    ensures Represents(filtered, Filter(v, b, path), made) && fresh(made)
    ensures v.Hash? && HashOver(filtered, Filter(v, b, path), made)
    decreases v, 0
  {
    hide Blocked, Represents, HashOver, Filter, Listed, OpenKeys, PartOf, Entries;
    HashIs(hash, v, repr);
    FilteredHash(v, b, path);
    var copy := new HashObject([], map[]);
    ghost var all := Filter(v, b, path);
    OpenKeysNone(b, path);
    made := {};
    PartNone(all.entries);
    for i := 0 to |hash.order|
      invariant fresh(made) && copy !in made
      invariant copy.order == OpenKeys(hash.order[..i], b, path)
      invariant forall k :: k in copy.entries <==> k in copy.order
      invariant PartOf(copy.entries, all.entries, made)
    {
      var key := hash.order[i];
      ListedHas(hash.order, v.entries.Keys, i);
      assert hash.order[..i + 1] == hash.order[..i] + [key];
      OpenKeysMore(hash.order[..i], key, b, path);
      if !Blocked(b, path + [key.name]) {
        var nested;
        ghost var more;
        nested, more := FilterFacts(hash.entries[key], b, path + [key.name], v.entries[key], repr);
        PartMore(copy.entries, all.entries, made, key, nested, more);
        made := made + more;
        copy.Set(key, nested);
      }
    }
    assert hash.order[..|hash.order|] == hash.order;
    OpenKeysListed(v, b, path);
    ListedAll(all.order, all.entries.Keys);
    PartIsAll(copy, all, made);
    HashMade(copy, all, made);
    filtered := HashRef(copy);
    made := made + {copy};
  }

  method FilterArray(list: ArrayObject, b: Blocklist, path: seq<string>, ghost v: Value, ghost repr: set<object>)
      returns (filtered: Ref, ghost made: set<object>)
    requires Represents(ArrayRef(list), v, repr)
    ensures Represents(filtered, Filter(v, b, path), made) && fresh(made)
    decreases v, 0
  {
    hide Blocked, Represents, Decimal;
    ArrayIs(list, v, repr);
    var items: seq<Ref> := [];
    ghost var all := Filter(v, b, path).items;
    made := {};
    for i := 0 to |list.items|
      invariant |items| == i && fresh(made)
      invariant forall k :: 0 <= k < i ==> Represents(items[k], all[k], made)
    {
      var nested;
      ghost var more;
      nested, more := FilterFacts(list.items[i], b, path + [Decimal(i)], v.items[i], repr);
      EachRepresentsMore(items, all[..i], made, made + more);
      RepresentsMore(nested, all[i], more, made + more);
      made := made + more;
      items := items + [nested];
    }
    var copy := new ArrayObject(items);
    ArrayMade(copy, all, made);
    filtered := ArrayRef(copy);
    made := made + {copy};
  }

  // ---------------------------------------------------------------------------
  // save
  // ---------------------------------------------------------------------------

  class FactsObject {
    const name: string
    var values: HashObject

    constructor (name: string, values: HashObject)
      ensures this.name == name && this.values == values
    {
      this.name, this.values := name, values;
    }
  }

  lemma EntriesPut(hash: HashObject, before: map<Key, Ref>, v: Value, k: Key, r: Ref, w: Value, repr: set<object>)
    requires v.Hash? && Listed(v.order, v.entries.Keys) && before.Keys == v.entries.Keys
    requires (forall l :: l in v.entries ==> Represents(before[l], v.entries[l], repr)) && Represents(r, w, repr)
    requires hash.order == Placed(v.order, k) && hash.entries == before[k := r]
    ensures Entries(hash, Put(v, k, w), repr)
  {
    hide Represents, Listed, Placed;
    PutListed(v.order, v.entries.Keys, k);
    assert v.entries[k := w].Keys == v.entries.Keys + {k};
  }

  /** The part of `save` that makes the payload. It changes nothing that was there before,
      and when a blocklist is set it shares no container with the facts it was given. */
  method Save(instance: FactsObject, trusted: Ref, b: Blocklist, ghost values: Value, ghost t: Value,
        ghost repr: set<object>)
      returns (sent: HashObject, packages: Option<Ref>, ghost made: set<object>)
    requires Represents(HashRef(instance.values), values, repr) && Represents(trusted, t, repr)
    ensures fresh(sent) && fresh(made) && sent !in made && values.Hash?
    ensures var reach := if b.paths == {} && b.patterns == [] then repr else made;
            var payload := Sent(values, t, b);
            && Entries(sent, payload.values, reach)
            && (packages.Some? <==> payload.packages.Some?)
            && (packages.Some? ==> Represents(packages.value, payload.packages.value, reach))
    ensures Represents(HashRef(instance.values), values, repr)
  {
    hide Represents, Filter, Blocked, Packages, Listed, Put, Drop;
    HashIs(instance.values, values, repr);
    var facts := new FactsObject(instance.name, instance.values);
    facts.values := new HashObject(facts.values.order, facts.values.entries);
    facts.values.Set(TRUSTED, trusted);
    EntriesPut(facts.values, instance.values.entries, values, TRUSTED, trusted, t, repr);
    ghost var all := Put(values, TRUSTED, t);
    if b.paths == {} && b.patterns == [] {
      NothingBlocked(all, b, []);
      made := {};
      sent := facts.values;
      packages := TakeInventory(sent, all, repr);
    } else {
      facts.values, made := FilterValues(facts.values, b, all, repr);
      sent := facts.values;
      packages := TakeInventory(sent, Filter(all, b, []), made);
    }
  }

  /** The filter on the whole of the facts. */
  method FilterValues(hash: HashObject, b: Blocklist, ghost v: Value, ghost repr: set<object>)
      returns (filtered: HashObject, ghost made: set<object>)
    requires Entries(hash, v, repr) && hash !in repr
    ensures fresh(filtered) && fresh(made) && filtered !in made
    ensures Entries(filtered, Filter(v, b, []), made)
  {
    hide Represents, Filter, Blocked, Listed;
    HashMade(hash, v, repr);
    var r;
    r, made := FilterFacts(HashRef(hash), b, [], v, repr + {hash});
    filtered := r.hash;
    made := made - {filtered};
  }

  /** The inventory leaves the facts, and its packages are kept. */
  method TakeInventory(hash: HashObject, ghost f: Value, ghost repr: set<object>) returns (packages: Option<Ref>)
    requires Entries(hash, f, repr) && hash !in repr
    modifies hash
    ensures Entries(hash, Drop(f, INVENTORY), repr)
    ensures packages.Some? <==> Packages(f).Some?
    ensures packages.Some? ==> Represents(packages.value, Packages(f).value, repr)
  {
    hide Represents, Listed;
    DropListed(f.order, f.entries.Keys, INVENTORY);
    var inventory := hash.Delete(INVENTORY);
    assert (f.entries - {INVENTORY}).Keys == f.entries.Keys - {INVENTORY};
    packages := None;
    PackagesIs(f);
    if inventory.Some? {
      packages := PackagesOf(inventory.value, f.entries[INVENTORY], repr);
    }
  }

  lemma PackagesIs(f: Value)
    requires f.Hash?
    ensures Packages(f).Some? <==>
      && INVENTORY in f.entries && f.entries[INVENTORY].Hash? && PACKAGES in f.entries[INVENTORY].entries
      && Truthy(f.entries[INVENTORY].entries[PACKAGES])
    ensures Packages(f).Some? ==> Packages(f).value == f.entries[INVENTORY].entries[PACKAGES]
  {
    var way := [AtKey(INVENTORY), AtKey(PACKAGES)];
    assert way[1..] == [AtKey(PACKAGES)];
    assert way[1..][1..] == [];
    if INVENTORY in f.entries {
      assert Get(f, way) == Get(f.entries[INVENTORY], [AtKey(PACKAGES)]);
    }
  }

  /** The package inventory of the inventory fact. */
  method PackagesOf(inventory: Ref, ghost v: Value, ghost repr: set<object>) returns (packages: Option<Ref>)
    requires Represents(inventory, v, repr)
    ensures packages.Some? <==> v.Hash? && PACKAGES in v.entries && Truthy(v.entries[PACKAGES])
    ensures packages.Some? ==> Represents(packages.value, v.entries[PACKAGES], repr)
  {
    hide Listed;
    packages := None;
    if inventory.HashRef? && PACKAGES in inventory.hash.entries {
      var r := inventory.hash.entries[PACKAGES];
      assert Represents(r, v.entries[PACKAGES], repr);
      if r != ScalarRef(Nil) && r != ScalarRef(False) { packages := Some(r); }
    }
  }
}
