/** Edge synthesis of the catalog terminus: an imperative pass over the resources
    that turns relationship metaparameters into edges. */
module CatalogEdges {

  import opened Options

  /** A resource named by type and title. */
  datatype Ref = Ref(typ: string, title: string)

  /** The value of a metaparameter: one reference, or nested arrays of them. */
  datatype RefValue = One(ref: string) | Many(refs: seq<RefValue>)

  datatype Resource = Resource(typ: string, title: string, aliases: seq<string>, params: map<string, RefValue>)

  datatype Edge = Edge(source: Ref, target: Ref, relationship: string)

  datatype Relationship = Relationship(param: string, forward: bool, name: string)

  const RELATIONSHIPS: seq<Relationship> :=
    [ Relationship("before", true, "before"), Relationship("require", false, "required-by"),
      Relationship("notify", true, "notifies"), Relationship("subscribe", false, "subscription-of") ]

  datatype Outcome =
    | Done
    | Malformed(from: Ref, param: string, ref: string)
    | NotInCatalog(from: Ref, param: string, ref: string)
    | NotCollected(from: Ref, param: string, ref: string)

  /** What the pass looks up: the resources being sent, whether the catalog knows a
      resource and it is virtual, and the format that references have to have. */
  datatype Catalog = Catalog(resources: seq<Resource>, isVirtual: Ref -> bool, wellFormed: string -> bool)

  // ---------------------------------------------------------------------------
  // References as strings
  // ---------------------------------------------------------------------------

  predicate IsBracket(c: char) { c == '[' || c == ']' }

  /** Where the run of characters that are no brackets ends. */
  function TypeEnd(s: string, i: nat): (j: nat)
    requires i <= |s|
    ensures i <= j <= |s| && (j < |s| ==> IsBracket(s[j]))
    ensures forall k :: i <= k < j ==> !IsBracket(s[k])
    decreases |s| - i
  {
    if i < |s| && !IsBracket(s[i]) then TypeEnd(s, i + 1) else i
  }

  predicate AtLineEnd(s: string, k: nat) { k == |s| || (k < |s| && s[k] == '\n') }

  /** The last closing bracket at a line end, before `hi`; 0 if there is none after `lo`. */
  function LastClose(s: string, lo: nat, hi: nat): (k: nat)
    requires hi <= |s|
    ensures k == 0 || (lo < k < hi && s[k] == ']' && AtLineEnd(s, k + 1))
    ensures k == 0 ==> forall l :: lo < l < hi ==> !(s[l] == ']' && AtLineEnd(s, l + 1))
  {
    if hi <= lo + 1 then 0
    else if s[hi - 1] == ']' && AtLineEnd(s, hi) then hi - 1
    else LastClose(s, lo, hi - 1)
  }

  /** The match of the reference expression from line start `i` on. */
  function ParseFrom(s: string, i: nat): Option<Ref>
    requires i <= |s|
    decreases |s| - i
  {
    var j := TypeEnd(s, i);
    var k := if i < j < |s| && s[j] == '[' then LastClose(s, j + 1, |s|) else 0;
    if k != 0 then Some(Ref(s[i..j], s[j + 1..k]))
    else var n := NextLine(s, i);
      if n <= |s| then ParseFrom(s, n) else None
  }

  function NextLine(s: string, i: nat): (n: nat)
    requires i <= |s|
    ensures i < n <= |s| + 1
    decreases |s| - i
  {
    if i == |s| then |s| + 1 else if s[i] == '\n' then i + 1 else NextLine(s, i + 1)
  }

  /** `resource_ref_to_hash`. */
  function Parse(s: string): Option<Ref> { ParseFrom(s, 0) }

  /** `resource_hash_to_ref`. */
  function Print(r: Ref): string { r.typ + "[" + r.title + "]" }

  /** What is read is a printed reference between the ends of lines. */
  lemma {:induction false} ParseSound(s: string, i: nat)
    requires i <= |s| && (i == 0 || s[i - 1] == '\n') && ParseFrom(s, i).Some?
    ensures var r := ParseFrom(s, i).value;
      && r.typ != "" && r.title != "" && (forall k :: 0 <= k < |r.typ| ==> !IsBracket(r.typ[k]))
      && exists before, after :: s == before + Print(r) + after && LineStarts(before) && AtLineEnd(after, 0)
    decreases |s| - i
  {
    hide LastClose, TypeEnd, NextLine, Print, LineStarts, AtLineEnd;
    var j := TypeEnd(s, i);
    var k := if i < j < |s| && s[j] == '[' then LastClose(s, j + 1, |s|) else 0;
    if k != 0 {
      MatchSound(s, i, j, k);
    } else {
      NextLineIs(s, i);
      ParseSound(s, NextLine(s, i));
    }
  }

  lemma MatchSound(s: string, i: nat, j: nat, k: nat)
    requires i < j < |s| && s[j] == '[' && j + 1 < k < |s| && s[k] == ']' && AtLineEnd(s, k + 1)
    requires i == 0 || s[i - 1] == '\n'
    ensures var r := Ref(s[i..j], s[j + 1..k]);
      s == s[..i] + Print(r) + s[k + 1..] && LineStarts(s[..i]) && AtLineEnd(s[k + 1..], 0)
  {
    assert s[j..j + 1] == "[" && s[k..k + 1] == "]";
    assert s == s[..i] + (s[i..j] + s[j..j + 1] + s[j + 1..k] + s[k..k + 1]) + s[k + 1..];
  }

  predicate LineStarts(before: string) { before == "" || before[|before| - 1] == '\n' }

  lemma {:induction false} NextLineIs(s: string, i: nat)
    requires i <= |s|
    ensures var n := NextLine(s, i); n <= |s| ==> s[n - 1] == '\n'
    decreases |s| - i
  {
    if i < |s| && s[i] != '\n' { NextLineIs(s, i + 1); }
  }

  /** What is printed is read back, whatever brackets and line feeds the title has. */
  lemma ParsePrint(r: Ref)
    requires r.typ != "" && r.title != "" && forall k :: 0 <= k < |r.typ| ==> !IsBracket(r.typ[k])
    ensures Parse(Print(r)) == Some(r)
  {
    var s := Print(r);
    var n := |r.typ|;
    assert forall k :: 0 <= k < n ==> s[k] == r.typ[k];
    assert s[n] == '[' && s[|s| - 1] == ']';
    assert TypeEnd(s, 0) == n;
    assert LastClose(s, n + 1, |s|) == |s| - 1;
    assert s[0..n] == r.typ && s[n + 1..|s| - 1] == r.title;
  }

  // ---------------------------------------------------------------------------
  // Trailing slashes
  // ---------------------------------------------------------------------------

  function SlashEnd(s: string, i: nat): (j: nat)
    requires i <= |s|
    ensures i <= j <= |s| && (i < |s| && s[i] == '/' ==> i < j) && (j < |s| ==> s[j] != '/')
    ensures forall k :: i <= k < j ==> s[k] == '/'
    decreases |s| - i
  {
    if i < |s| && s[i] == '/' then SlashEnd(s, i + 1) else i
  }

  /** `sub(/\/+$/, '')` from index `i` on: the first run of slashes at a line end goes. */
  function StripFrom(s: string, i: nat): string
    requires i <= |s|
    decreases |s| - i
  {
    if i == |s| then s
    else if s[i] == '/' then
      var j := SlashEnd(s, i);
      if AtLineEnd(s, j) then s[..i] + s[j..] else StripFrom(s, j)
    else StripFrom(s, i + 1)
  }

  function StripSlashes(s: string): string { StripFrom(s, 0) }

  function Slashes(n: nat): (s: string)
    ensures |s| == n && forall i :: 0 <= i < n ==> s[i] == '/'
  {
    seq(n, i => '/')
  }

  /** On a title of one line, stripping removes all trailing slashes and nothing else. */
  lemma {:induction false} StripsTrailing(t: string, n: nat, i: nat)
    requires '\n' !in t && (t == "" || t[|t| - 1] != '/') && i <= |t|
    ensures StripFrom(t + Slashes(n), i) == t
    decreases |t| - i
  {
    var s := t + Slashes(n);
    assert forall k :: 0 <= k < |t| ==> s[k] == t[k] && t[k] in t;
    if i == |t| {
      if n > 0 {
        assert s[i] == '/';
        var j := SlashEnd(s, i);
        assert j == |s|;
        assert s[..i] + s[j..] == t;
      } else {
        assert s == t;
      }
    } else if s[i] == '/' {
      var j := SlashEnd(s, i);
      assert j < |t| by { assert s[|t| - 1] != '/'; }
      StripsTrailing(t, n, j);
    } else {
      StripsTrailing(t, n, i + 1);
    }
  }

  // ---------------------------------------------------------------------------
  // What an edge is
  // ---------------------------------------------------------------------------

  function Name(r: Resource): Ref { Ref(r.typ, r.title) }

  predicate Declared(rs: seq<Resource>, name: Ref) { exists k :: 0 <= k < |rs| && Name(rs[k]) == name }

  /** The last resource of the type that has the title as an alias. */
  function AliasOwner(rs: seq<Resource>, name: Ref): Option<Ref> {
    if rs == [] then None
    else
      var r := rs[|rs| - 1];
      if r.typ == name.typ && name.title in r.aliases then Some(Name(r)) else AliasOwner(rs[..|rs| - 1], name)
  }

  /** What a reference stands for: a declared title before an alias, and for files
      the title without its trailing slashes. */
  function Resolve(rs: seq<Resource>, ref: string): Option<Ref> {
    match Parse(ref)
    case None => None
    case Some(h) =>
      var name := Ref(h.typ, if h.typ == "File" then StripSlashes(h.title) else h.title);
      if Declared(rs, name) then Some(name) else AliasOwner(rs, name)
  }

  datatype EdgeResult = Ok(edge: Edge) | Bad(why: Outcome)

  /** The edge that one reference of one metaparameter of a resource calls for. */
  function EdgeFor(c: Catalog, r: Resource, rel: Relationship, ref: string): (e: EdgeResult)
    ensures e.Bad? ==> e.why != Done
  {
    if !c.wellFormed(ref) then Bad(Malformed(Name(r), rel.param, ref))
    else match Resolve(c.resources, ref)
      case None => Bad(NotInCatalog(Name(r), rel.param, ref))
      case Some(other) =>
        if c.isVirtual(other) then Bad(NotCollected(Name(r), rel.param, ref))
        else if rel.forward then Ok(Edge(Name(r), other, rel.name))
        else Ok(Edge(other, Name(r), rel.name))
  }

  /** `[value].flatten`. */
  function Flatten(v: RefValue): seq<string> {
    match v case One(ref) => [ref] case Many(vs) => FlattenAll(vs)
  }

  function FlattenAll(vs: seq<RefValue>): seq<string> {
    if vs == [] then [] else Flatten(vs[0]) + FlattenAll(vs[1..])
  }

  function RefsOf(r: Resource, rel: Relationship): seq<string> {
    if rel.param in r.params then Flatten(r.params[rel.param]) else []
  }

  /** The catalog asks for an edge: a non-virtual resource has the reference. */
  ghost predicate Asks(c: Catalog, r: Resource, rel: Relationship, ref: string) {
    r in c.resources && !c.isVirtual(Name(r)) && rel in RELATIONSHIPS && ref in RefsOf(r, rel)
  }

  lemma {:induction false} ResolvedIsDeclared(rs: seq<Resource>, ref: string)
    ensures var o := Resolve(rs, ref); o.Some? ==> Declared(rs, o.value)
  {
    if Parse(ref).Some? {
      var h := Parse(ref).value;
      AliasOwnerIs(rs, Ref(h.typ, if h.typ == "File" then StripSlashes(h.title) else h.title));
    }
  }

  predicate Owns(r: Resource, name: Ref) { r.typ == name.typ && name.title in r.aliases }

  ghost predicate LastOwner(rs: seq<Resource>, name: Ref, k: int) {
    0 <= k < |rs| && Owns(rs[k], name) && forall j :: k < j < |rs| ==> !Owns(rs[j], name)
  }

  lemma OwnerOfLast(rs: seq<Resource>, name: Ref)
    requires rs != []
    ensures AliasOwner(rs, name) ==
      if Owns(rs[|rs| - 1], name) then Some(Name(rs[|rs| - 1])) else AliasOwner(rs[..|rs| - 1], name)
  {}

  lemma {:induction false} AliasOwnerIs(rs: seq<Resource>, name: Ref)
    ensures var o := AliasOwner(rs, name);
            o.Some? ==> exists k :: LastOwner(rs, name, k) && Name(rs[k]) == o.value
    ensures AliasOwner(rs, name).None? ==> forall k :: 0 <= k < |rs| ==> !Owns(rs[k], name)
    decreases |rs|
  {
    hide Owns;
    if rs == [] {
    } else {
      hide AliasOwner;
      var front, r := rs[..|rs| - 1], rs[|rs| - 1];
      assert rs == front + [r];
      OwnerOfLast(rs, name);
      AliasOwnerIs(front, name);
      if Owns(r, name) {
        assert LastOwner(rs, name, |front|);
      } else if AliasOwner(front, name).Some? {
        var k :| LastOwner(front, name, k) && Name(front[k]) == AliasOwner(front, name).value;
        LastOwnerStays(front, r, name, k);
      }
    }
  }

  lemma LastOwnerStays(front: seq<Resource>, r: Resource, name: Ref, k: int)
    requires LastOwner(front, name, k) && !Owns(r, name)
    ensures LastOwner(front + [r], name, k) && (front + [r])[k] == front[k]
  {
    hide Owns;
  }

  /** A declared resource is found under its own name, except for a file whose title
      ends in slashes: that finds what the title without them stands for, which is the
      file itself only if it owns that title as an alias. */
  lemma OwnNameResolves(rs: seq<Resource>, r: Resource)
    requires r in rs && r.title != "" && r.typ != "" && forall k :: 0 <= k < |r.typ| ==> !IsBracket(r.typ[k])
    ensures r.typ != "File" || StripSlashes(r.title) == r.title ==> Resolve(rs, Print(Name(r))) == Some(Name(r))
    ensures r.typ == "File" ==>
      Resolve(rs, Print(Name(r))) == var bare := Ref("File", StripSlashes(r.title));
                                     if Declared(rs, bare) then Some(bare) else AliasOwner(rs, bare)
    ensures Resolve(rs, Print(Name(r))) == Some(Name(r)) <==>
      var bare := Ref("File", StripSlashes(r.title));
      || r.typ != "File" || bare.title == r.title
      || (!Declared(rs, bare) && AliasOwner(rs, bare) == Some(Name(r)))
  {
    ParsePrint(Name(r));
    var k :| 0 <= k < |rs| && rs[k] == r;
    assert Declared(rs, Name(r));
  }

  // ---------------------------------------------------------------------------
  // The pass as a function
  // ---------------------------------------------------------------------------

  /** Edges made before the first bad reference, and that reference. */
  datatype Run = Run(edges: seq<Edge>, outcome: Outcome)

  function Then(a: Run, b: Run): Run {
    if a.outcome != Done then a else Run(a.edges + b.edges, b.outcome)
  }

  function RunRef(c: Catalog, r: Resource, rel: Relationship, ref: string): Run {
    match EdgeFor(c, r, rel, ref) case Ok(e) => Run([e], Done) case Bad(why) => Run([], why)
  }

  function RunRefs(c: Catalog, r: Resource, rel: Relationship, refs: seq<string>): Run {
    if refs == [] then Run([], Done)
    else Then(RunRefs(c, r, rel, refs[..|refs| - 1]), RunRef(c, r, rel, refs[|refs| - 1]))
  }

  function RunRelationships(c: Catalog, r: Resource, rels: seq<Relationship>): Run {
    if rels == [] then Run([], Done)
    else var rel := rels[|rels| - 1];
      Then(RunRelationships(c, r, rels[..|rels| - 1]), RunRefs(c, r, rel, RefsOf(r, rel)))
  }

  function RunResources(c: Catalog, rs: seq<Resource>): Run {
    if rs == [] then Run([], Done)
    else var r := rs[|rs| - 1];
      Then(RunResources(c, rs[..|rs| - 1]),
           if c.isVirtual(Name(r)) then Run([], Done) else RunRelationships(c, r, RELATIONSHIPS))
  }

  /** `uniq!`: the first of equal elements stays. */
  function Unique(es: seq<Edge>): seq<Edge> {
    if es == [] then []
    else var front := Unique(es[..|es| - 1]); if es[|es| - 1] in front then front else front + [es[|es| - 1]]
  }

  lemma {:induction false} UniqueIs(es: seq<Edge>)
    ensures forall e :: e in Unique(es) <==> e in es
    ensures forall i, j :: 0 <= i < j < |Unique(es)| ==> Unique(es)[i] != Unique(es)[j]
    decreases |es|
  {
    if es != [] {
      UniqueIs(es[..|es| - 1]);
      assert es == es[..|es| - 1] + [es[|es| - 1]];
    }
  }

  // ---------------------------------------------------------------------------
  // The pass makes exactly the edges asked for
  // ---------------------------------------------------------------------------

  lemma {:induction false} RefsAre(c: Catalog, r: Resource, rel: Relationship, refs: seq<string>)
    ensures RunRefs(c, r, rel, refs).outcome == Done <==> forall ref :: ref in refs ==> EdgeFor(c, r, rel, ref).Ok?
    ensures RunRefs(c, r, rel, refs).outcome == Done ==>
      forall e :: e in RunRefs(c, r, rel, refs).edges <==> exists ref :: ref in refs && EdgeFor(c, r, rel, ref) == Ok(e)
    ensures RunRefs(c, r, rel, refs).outcome != Done ==>
      exists ref :: ref in refs && EdgeFor(c, r, rel, ref) == Bad(RunRefs(c, r, rel, refs).outcome)
    decreases |refs|
  {
    hide EdgeFor;
    if refs != [] {
      var front, ref := refs[..|refs| - 1], refs[|refs| - 1];
      RefsAre(c, r, rel, front);
      assert refs == front + [ref];
      assert forall x :: x in refs <==> x in front || x == ref;
    }
  }

  /** Some reference of these relationships gives the edge, or the error. */
  ghost predicate Gives(c: Catalog, r: Resource, rels: seq<Relationship>, e: EdgeResult) {
    exists rel, ref :: rel in rels && ref in RefsOf(r, rel) && EdgeFor(c, r, rel, ref) == e
  }

  lemma {:induction false} RelationshipsAre(c: Catalog, r: Resource, rels: seq<Relationship>)
    ensures var run := RunRelationships(c, r, rels);
      && (run.outcome == Done <==>
        forall rel, ref :: rel in rels && ref in RefsOf(r, rel) ==> EdgeFor(c, r, rel, ref).Ok?)
      && (run.outcome == Done ==> forall e :: e in run.edges <==> Gives(c, r, rels, Ok(e)))
      && (run.outcome != Done ==> Gives(c, r, rels, Bad(run.outcome)))
    decreases |rels|
  {
    hide EdgeFor, RefsOf;
    if rels != [] {
      var front, rel := rels[..|rels| - 1], rels[|rels| - 1];
      RelationshipsAre(c, r, front);
      RefsAre(c, r, rel, RefsOf(r, rel));
      assert rels == front + [rel];
      assert forall x :: x in rels <==> x in front || x == rel;
    }
  }

  /** Some resource of the list that is not virtual gives the edge, or the error. */
  ghost predicate AnyGives(c: Catalog, rs: seq<Resource>, e: EdgeResult) {
    exists r :: r in rs && !c.isVirtual(Name(r)) && Gives(c, r, RELATIONSHIPS, e)
  }

  lemma {:induction false} ResourcesAre(c: Catalog, rs: seq<Resource>)
    ensures var run := RunResources(c, rs);
      && (run.outcome == Done <==>
            forall r, rel, ref :: r in rs && !c.isVirtual(Name(r)) && rel in RELATIONSHIPS && ref in RefsOf(r, rel) ==>
              EdgeFor(c, r, rel, ref).Ok?)
      && (run.outcome == Done ==> forall e :: e in run.edges <==> AnyGives(c, rs, Ok(e)))
      && (run.outcome != Done ==> AnyGives(c, rs, Bad(run.outcome)))
    decreases |rs|
  {
    hide EdgeFor, RefsOf, RunRelationships, Gives, RELATIONSHIPS;
    if rs != [] {
      var front, r := rs[..|rs| - 1], rs[|rs| - 1];
      ResourcesAre(c, front);
      RelationshipsAre(c, r, RELATIONSHIPS);
      assert rs == front + [r];
      assert forall x :: x in rs <==> x in front || x == r;
    }
  }

  /** The pass succeeds iff every reference asked for can become an edge; then the
      edges are those there were and those asked for, each once; otherwise it names
      a reference asked for that is bad. */
  lemma SynthesisIsSpec(c: Catalog, initial: seq<Edge>)
    ensures var run := RunResources(c, c.resources); var all := Unique(initial + run.edges);
      && (run.outcome == Done <==> forall r, rel, ref :: Asks(c, r, rel, ref) ==> EdgeFor(c, r, rel, ref).Ok?)
      && (run.outcome == Done ==>
            forall e :: e in all <==>
              e in initial || exists r, rel, ref :: Asks(c, r, rel, ref) && EdgeFor(c, r, rel, ref) == Ok(e))
      && (forall i, j :: 0 <= i < j < |all| ==> all[i] != all[j])
      && (run.outcome != Done ==>
        exists r, rel, ref :: Asks(c, r, rel, ref) && EdgeFor(c, r, rel, ref) == Bad(run.outcome))
  {
    hide EdgeFor, RefsOf, RunResources, Unique, RELATIONSHIPS;
    var run := RunResources(c, c.resources);
    ResourcesAre(c, c.resources);
    UniqueIs(initial + run.edges);
  }

  // ---------------------------------------------------------------------------
  // What the metaparameters mean
  // ---------------------------------------------------------------------------

  /** The reference stands somewhere in the value, however deeply nested. */
  predicate Occurs(ref: string, v: RefValue) {
    match v case One(x) => x == ref case Many(vs) => exists i :: 0 <= i < |vs| && Occurs(ref, vs[i])
  }

  lemma {:induction false} FlattenIs(ref: string, v: RefValue)
    ensures ref in Flatten(v) <==> Occurs(ref, v)
    decreases v, 1
  {
    match v
    case One(_) =>
    case Many(vs) => FlattenAllIs(ref, vs);
  }

  lemma {:induction false} FlattenAllIs(ref: string, vs: seq<RefValue>)
    ensures ref in FlattenAll(vs) <==> exists i :: 0 <= i < |vs| && Occurs(ref, vs[i])
    decreases vs, 0
  {
    if vs != [] {
      FlattenIs(ref, vs[0]);
      FlattenAllIs(ref, vs[1..]);
      assert forall i :: 0 < i < |vs| ==> vs[i] == vs[1..][i - 1];
      assert forall i :: 0 <= i < |vs| - 1 ==> vs[1..][i] == vs[i + 1];
    }
  }

  ghost predicate Refers(r: Resource, param: string, ref: string) {
    param in r.params && Occurs(ref, r.params[param])
  }

  lemma RefersIs(r: Resource, rel: Relationship, ref: string)
    ensures ref in RefsOf(r, rel) <==> Refers(r, rel.param, ref)
  {
    hide Occurs, Flatten;
    if rel.param in r.params { FlattenIs(ref, r.params[rel.param]); }
  }

  /** The edge between a resource and what one of its references stands for: `before` and
      `notify` point to the other resource, `require` and `subscribe` from it. */
  ghost predicate Relates(r: Resource, ref: string, other: Ref, e: Edge) {
    || (Refers(r, "before", ref) && e == Edge(Name(r), other, "before"))
    || (Refers(r, "notify", ref) && e == Edge(Name(r), other, "notifies"))
    || (Refers(r, "require", ref) && e == Edge(other, Name(r), "required-by"))
    || (Refers(r, "subscribe", ref) && e == Edge(other, Name(r), "subscription-of"))
  }

  /** The reference can become an edge. */
  predicate Usable(c: Catalog, ref: string) {
    var other := Resolve(c.resources, ref);
    c.wellFormed(ref) && other.Some? && !c.isVirtual(other.value)
  }

  /** A reference that cannot, in one of the four metaparameters. */
  ghost predicate Fails(c: Catalog, r: Resource, why: Outcome) {
    && r in c.resources && !c.isVirtual(Name(r))
    && why != Done && why.from == Name(r)
    && (why.param == "before" || why.param == "require" || why.param == "notify" || why.param == "subscribe")
    && Refers(r, why.param, why.ref)
    && var other := Resolve(c.resources, why.ref);
       && (why.Malformed? <==> !c.wellFormed(why.ref))
       && (why.NotInCatalog? <==> c.wellFormed(why.ref) && other.None?)
       && (why.NotCollected? <==> c.wellFormed(why.ref) && other.Some? && c.isVirtual(other.value))
  }

  lemma EdgeForIs(c: Catalog, r: Resource, rel: Relationship, ref: string, e: Edge)
    requires rel in RELATIONSHIPS && ref in RefsOf(r, rel) && EdgeFor(c, r, rel, ref) == Ok(e)
    ensures Usable(c, ref) && Relates(r, ref, Resolve(c.resources, ref).value, e)
  {
    hide Resolve, Refers, RefsOf;
    RefersIs(r, rel, ref);
  }

  lemma RelatesIs(c: Catalog, r: Resource, ref: string, e: Edge) returns (rel: Relationship)
    requires Usable(c, ref) && Relates(r, ref, Resolve(c.resources, ref).value, e)
    ensures rel in RELATIONSHIPS && ref in RefsOf(r, rel) && EdgeFor(c, r, rel, ref) == Ok(e)
  {
    hide Resolve, Refers, RefsOf;
    forall k | 0 <= k < 4 ensures ref in RefsOf(r, RELATIONSHIPS[k]) <==> Refers(r, RELATIONSHIPS[k].param, ref) {
      RefersIs(r, RELATIONSHIPS[k], ref);
    }
    var other := Resolve(c.resources, ref).value;
    var k := if Refers(r, "before", ref) && e == Edge(Name(r), other, "before") then 0
             else if Refers(r, "notify", ref) && e == Edge(Name(r), other, "notifies") then 2
             else if Refers(r, "require", ref) && e == Edge(other, Name(r), "required-by") then 1
             else 3;
    rel := RELATIONSHIPS[k];
  }

  /** After a successful pass the edges are those there were and, for every resource that
      is not virtual, those that its references call for; nothing else. */
  lemma {:induction false} EdgesRelate(c: Catalog, initial: seq<Edge>, e: Edge)
    requires RunResources(c, c.resources).outcome == Done
    ensures e in Unique(initial + RunResources(c, c.resources).edges) <==>
      || e in initial
      || exists r, ref :: r in c.resources && !c.isVirtual(Name(r)) && Usable(c, ref) &&
                          Relates(r, ref, Resolve(c.resources, ref).value, e)
  {
    hide EdgeFor, RefsOf, RunResources, Unique, RELATIONSHIPS, Resolve, Refers, Relates;
    SynthesisIsSpec(c, initial);
    forall r, rel, ref | Asks(c, r, rel, ref) && EdgeFor(c, r, rel, ref) == Ok(e)
      ensures Usable(c, ref) && Relates(r, ref, Resolve(c.resources, ref).value, e)
    {
      EdgeForIs(c, r, rel, ref, e);
    }
    forall r, ref | r in c.resources && !c.isVirtual(Name(r)) && Usable(c, ref) &&
                    Relates(r, ref, Resolve(c.resources, ref).value, e)
      ensures exists rel :: Asks(c, r, rel, ref) && EdgeFor(c, r, rel, ref) == Ok(e)
    {
      var rel := RelatesIs(c, r, ref, e);
    }
  }

  lemma BadIs(c: Catalog, r: Resource, rel: Relationship, ref: string, why: Outcome)
    requires Asks(c, r, rel, ref) && EdgeFor(c, r, rel, ref) == Bad(why)
    ensures Fails(c, r, why)
  {
    hide Resolve, Refers, RefsOf;
    RefersIs(r, rel, ref);
  }

  lemma FailsIs(c: Catalog, r: Resource, why: Outcome) returns (rel: Relationship)
    requires Fails(c, r, why)
    ensures Asks(c, r, rel, why.ref) && EdgeFor(c, r, rel, why.ref).Bad?
  {
    hide Resolve, Refers, RefsOf;
    forall k | 0 <= k < 4
      ensures why.ref in RefsOf(r, RELATIONSHIPS[k]) <==> Refers(r, RELATIONSHIPS[k].param, why.ref)
    {
      RefersIs(r, RELATIONSHIPS[k], why.ref);
    }
    rel := RELATIONSHIPS[if why.param == "before" then 0 else if why.param == "require" then 1
                         else if why.param == "notify" then 2 else 3];
  }

  /** The pass fails if and only if some reference in a metaparameter cannot become an
      edge, and then with the reason for such a one. */
  lemma {:induction false} SynthesisFails(c: Catalog)
    ensures var outcome := RunResources(c, c.resources).outcome;
      && (outcome != Done <==> exists r, why :: Fails(c, r, why))
      && (outcome != Done ==> exists r :: Fails(c, r, outcome))
  {
    hide EdgeFor, RefsOf, RunResources, Unique, RELATIONSHIPS, Resolve, Refers, Asks;
    SynthesisIsSpec(c, []);
    var outcome := RunResources(c, c.resources).outcome;
    if outcome != Done {
      var r, rel, ref :| Asks(c, r, rel, ref) && EdgeFor(c, r, rel, ref) == Bad(outcome);
      BadIs(c, r, rel, ref, outcome);
    }
    forall r, why | Fails(c, r, why) ensures outcome != Done {
      var rel := FailsIs(c, r, why);
      assert !EdgeFor(c, r, rel, why.ref).Ok?;
    }
  }

  /** A run that stops in a prefix is the whole run. */
  lemma {:induction false} RefsStop(c: Catalog, r: Resource, rel: Relationship, refs: seq<string>, i: nat)
    requires i <= |refs| && RunRefs(c, r, rel, refs[..i]).outcome != Done
    ensures RunRefs(c, r, rel, refs) == RunRefs(c, r, rel, refs[..i])
    decreases |refs|
  {
    if i < |refs| {
      assert refs[..|refs| - 1][..i] == refs[..i];
      RefsStop(c, r, rel, refs[..|refs| - 1], i);
    } else {
      assert refs[..i] == refs;
    }
  }

  lemma {:induction false} RelationshipsStop(c: Catalog, r: Resource, rels: seq<Relationship>, i: nat)
    requires i <= |rels| && RunRelationships(c, r, rels[..i]).outcome != Done
    ensures RunRelationships(c, r, rels) == RunRelationships(c, r, rels[..i])
    decreases |rels|
  {
    if i < |rels| {
      assert rels[..|rels| - 1][..i] == rels[..i];
      RelationshipsStop(c, r, rels[..|rels| - 1], i);
    } else {
      assert rels[..i] == rels;
    }
  }

  lemma {:induction false} ResourcesStop(c: Catalog, rs: seq<Resource>, i: nat)
    requires i <= |rs| && RunResources(c, rs[..i]).outcome != Done
    ensures RunResources(c, rs) == RunResources(c, rs[..i])
    decreases |rs|
  {
    if i < |rs| {
      assert rs[..|rs| - 1][..i] == rs[..i];
      ResourcesStop(c, rs[..|rs| - 1], i);
    } else {
      assert rs[..i] == rs;
    }
  }

  method MakeUnique(es: seq<Edge>) returns (us: seq<Edge>)
    ensures us == Unique(es)
  {
    us := [];
    for i := 0 to |es|
      invariant us == Unique(es[..i])
    {
      assert es[..i + 1][..i] == es[..i];
      if es[i] !in us { us := us + [es[i]]; }
    }
    assert es[..|es|] == es;
  }

  // ---------------------------------------------------------------------------
  // The pass itself
  // ---------------------------------------------------------------------------

  class CatalogHash {
    const resources: seq<Resource>
    var edges: seq<Edge>

    constructor (resources: seq<Resource>, edges: seq<Edge>)
      ensures this.resources == resources && this.edges == edges
    {
      this.resources, this.edges := resources, edges;
    }

    /** `map_aliases_to_title`: later resources replace earlier ones. */
    method MapAliases() returns (aliases: map<Ref, Ref>)
      ensures forall n :: AliasOwner(resources, n) == if n in aliases then Some(aliases[n]) else None
    {
      aliases := map[];
      for i := 0 to |resources|
        invariant forall n :: AliasOwner(resources[..i], n) == if n in aliases then Some(aliases[n]) else None
      {
        aliases := AddAliases(aliases, resources[i]);
        assert resources[..i + 1][..i] == resources[..i];
      }
      assert resources[..|resources|] == resources;
    }

    method AddAliases(before: map<Ref, Ref>, r: Resource) returns (aliases: map<Ref, Ref>)
      ensures forall n :: n in aliases <==> n in before || (n.typ == r.typ && n.title in r.aliases)
      ensures forall n :: n in aliases ==>
        aliases[n] == if n.typ == r.typ && n.title in r.aliases then Name(r) else before[n]
    {
      aliases := before;
      for k := 0 to |r.aliases|
        invariant forall n :: n in aliases <==> n in before || (n.typ == r.typ && n.title in r.aliases[..k])
        invariant forall n :: n in aliases ==>
                    aliases[n] == if n.typ == r.typ && n.title in r.aliases[..k] then Name(r) else before[n]
      {
        aliases := aliases[Ref(r.typ, r.aliases[k]) := Name(r)];
      }
      assert r.aliases[..|r.aliases|] == r.aliases;
    }

    method BuildTable() returns (table: map<Ref, Resource>)
      ensures forall n :: n in table <==> Declared(resources, n)
      ensures forall n :: n in table ==> Name(table[n]) == n
    {
      table := map[];
      for i := 0 to |resources|
        invariant forall n :: n in table <==> exists k :: 0 <= k < i && Name(resources[k]) == n
        invariant forall n :: n in table ==> Name(table[n]) == n
      {
        table := table[Name(resources[i]) := resources[i]];
      }
    }

    /** The edge for one reference; the checks come in the order of the original. */
    method MakeEdge(c: Catalog, r: Resource, rel: Relationship, otherRef: string,
                    aliases: map<Ref, Ref>, table: map<Ref, Resource>)
      returns (result: EdgeResult)
      requires c.resources == resources && Lookups(aliases, table)
      ensures result == EdgeFor(c, r, rel, otherRef)
    {
      var resourceHash := Name(r);
      var parsed := Parse(otherRef);
      if !c.wellFormed(otherRef) {
        return Bad(Malformed(resourceHash, rel.param, otherRef));
      }
      if parsed.None? { // neither a title nor an alias is nil
        return Bad(NotInCatalog(resourceHash, rel.param, otherRef));
      }
      var otherHash := parsed.value;
      if otherHash.typ == "File" {
        otherHash := otherHash.(title := StripSlashes(otherHash.title));
      }
      var other: Option<Resource> := None;
      if otherHash in table {
        other := Some(table[otherHash]);
      } else if otherHash in aliases {
        AliasOwnerIs(resources, otherHash);
        assert Declared(resources, aliases[otherHash]);
        other := Some(table[aliases[otherHash]]);
        assert table[aliases[otherHash]].typ == otherHash.typ;
      }
      if other.None? {
        return Bad(NotInCatalog(resourceHash, rel.param, otherRef));
      }
      if c.isVirtual(Name(other.value)) {
        return Bad(NotCollected(resourceHash, rel.param, otherRef));
      }
      otherHash := otherHash.(title := other.value.title);
      var source := if rel.forward then resourceHash else otherHash;
      var target := if rel.forward then otherHash else resourceHash;
      return Ok(Edge(source, target, rel.name));
    }

    /** The lookups that `MapAliases` and `BuildTable` set up. */
    ghost predicate Lookups(aliases: map<Ref, Ref>, table: map<Ref, Resource>) {
      && (forall n :: AliasOwner(resources, n) == if n in aliases then Some(aliases[n]) else None)
      && (forall n :: n in table <==> Declared(resources, n))
      && (forall n :: n in table ==> Name(table[n]) == n)
    }

    method BuildLookups() returns (aliases: map<Ref, Ref>, table: map<Ref, Resource>)
      ensures Lookups(aliases, table)
    {
      aliases := MapAliases();
      table := BuildTable();
    }

    /** The references of one metaparameter. */
    method AddEdges(c: Catalog, r: Resource, rel: Relationship, aliases: map<Ref, Ref>, table: map<Ref, Resource>)
      returns (outcome: Outcome)
      requires c.resources == resources && Lookups(aliases, table)
      modifies this`edges
      ensures var run := RunRefs(c, r, rel, RefsOf(r, rel)); outcome == run.outcome && edges == old(edges) + run.edges
    {
      hide EdgeFor, RefsOf;
      var refs := RefsOf(r, rel);
      assert old(edges) + [] == old(edges);
      for i := 0 to |refs|
        invariant RunRefs(c, r, rel, refs[..i]).outcome == Done
        invariant edges == old(edges) + RunRefs(c, r, rel, refs[..i]).edges
      {
        assert refs[..i + 1][..i] == refs[..i];
        var result := MakeEdge(c, r, rel, refs[i], aliases, table);
        if result.Bad? {
          RefsStop(c, r, rel, refs, i + 1);
          return result.why;
        }
        edges := edges + [result.edge];
      }
      assert refs[..|refs|] == refs;
      outcome := Done;
    }

    /** The metaparameters of one resource. */
    method SynthesizeFrom(c: Catalog, r: Resource, aliases: map<Ref, Ref>, table: map<Ref, Resource>)
      returns (outcome: Outcome)
      requires c.resources == resources && Lookups(aliases, table)
      modifies this`edges
      ensures var run := RunRelationships(c, r, RELATIONSHIPS);
        outcome == run.outcome && edges == old(edges) + run.edges
    {
      hide RunRefs, RefsOf, RELATIONSHIPS, Lookups;
      var rels := RELATIONSHIPS;
      assert old(edges) + [] == old(edges);
      for i := 0 to |rels|
        invariant RunRelationships(c, r, rels[..i]).outcome == Done
        invariant edges == old(edges) + RunRelationships(c, r, rels[..i]).edges
      {
        assert rels[..i + 1][..i] == rels[..i];
        outcome := AddEdges(c, r, rels[i], aliases, table);
        if outcome != Done {
          RelationshipsStop(c, r, rels, i + 1);
          return;
        }
      }
      assert rels[..|rels|] == rels;
      outcome := Done;
    }

    /** `synthesize_edges`: on an error the edges made so far stay behind. */
    method SynthesizeEdges(c: Catalog) returns (outcome: Outcome)
      requires c.resources == resources
      modifies this`edges
      ensures var run := RunResources(c, resources);
        && outcome == run.outcome
        && edges == if run.outcome == Done then Unique(old(edges) + run.edges) else old(edges) + run.edges
    {
      hide RunRelationships, RunResources, Unique, Lookups;
      var aliases, table := BuildLookups();
      RunNone(c);
      assert old(edges) + [] == old(edges);
      for i := 0 to |resources|
        invariant RunResources(c, resources[..i]).outcome == Done
        invariant edges == old(edges) + RunResources(c, resources[..i]).edges
      {
        var r := resources[i];
        RunNext(c, resources, i);
        if !c.isVirtual(Name(r)) {
          ghost var made := RunResources(c, resources[..i]).edges;
          outcome := SynthesizeFrom(c, r, aliases, table);
          AppendTwice(old(edges), made, RunRelationships(c, r, RELATIONSHIPS).edges);
          if outcome != Done {
            ResourcesStop(c, resources, i + 1);
            return;
          }
        }
      }
      assert resources[..|resources|] == resources;
      edges := MakeUnique(edges);
      outcome := Done;
    }
  }

  lemma RunNone(c: Catalog)
    ensures RunResources(c, []) == Run([], Done)
  {}

  lemma RunNext(c: Catalog, rs: seq<Resource>, i: nat)
    requires i < |rs| && RunResources(c, rs[..i]).outcome == Done
    ensures var made := RunResources(c, rs[..i]).edges;
            var run := RunRelationships(c, rs[i], RELATIONSHIPS);
            RunResources(c, rs[..i + 1])
            == if c.isVirtual(Name(rs[i])) then Run(made, Done) else Run(made + run.edges, run.outcome)
  {
    assert rs[..i + 1][..i] == rs[..i];
  }

  lemma AppendTwice(a: seq<Edge>, b: seq<Edge>, c: seq<Edge>)
    ensures a + b + c == a + (b + c)
  {}

  /** A directory declared with a trailing slash is not found under its own name. */
  lemma TrailingSlashExample()
    ensures var rs := [Resource("File", "/tmp/", [], map[])];
            Print(Name(rs[0])) == "File[/tmp/]" && Resolve(rs, "File[/tmp/]") == None
  {
    hide Resolve, Print, StripSlashes;
    var r := Resource("File", "/tmp/", [], map[]);
    var rs := [r];
    assert Print(Name(r)) == "File[/tmp/]" by { PrintIs(Name(r)); }
    OwnNameResolves(rs, r);
    assert "/tmp/" == "/tmp" + Slashes(1);
    StripsTrailing("/tmp", 1, 0);
    StripSlashesIs("/tmp/");
    assert rs[..0] == [];
    AliasOwnerIs(rs, Ref("File", "/tmp"));
  }

  /** With the bare name as an alias, it is found after all. */
  lemma AliasWithoutSlashExample()
    ensures var rs := [Resource("File", "/tmp/", ["/tmp"], map[])]; Resolve(rs, "File[/tmp/]") == Some(Name(rs[0]))
  {
    hide Resolve, Print, StripSlashes;
    var r := Resource("File", "/tmp/", ["/tmp"], map[]);
    var rs := [r];
    assert Print(Name(r)) == "File[/tmp/]" by { PrintIs(Name(r)); }
    OwnNameResolves(rs, r);
    assert "/tmp/" == "/tmp" + Slashes(1);
    StripsTrailing("/tmp", 1, 0);
    StripSlashesIs("/tmp/");
    assert "/tmp" in r.aliases;
  }

  lemma PrintIs(r: Ref)
    ensures Print(r) == r.typ + "[" + r.title + "]"
  {}

  lemma StripSlashesIs(t: string)
    ensures StripSlashes(t) == StripFrom(t, 0)
  {}
}
