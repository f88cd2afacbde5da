/** d3's data join: the nodes of one group are matched with an array of data, by key or
    by index, and split into update, enter and exit. */
module DataJoin {

  import opened Options

  class Node<D> {
    var data: D

    constructor (data: D)
      ensures this.data == data
    {
      this.data := data;
    }
  }

  /** The three selections; a slot without a node (`null` or a hole) is `null`, and the
      entering placeholders are their data. */
  datatype Join<D> = Join(update: seq<Node?<D>>, enter: seq<Option<D>>, exit: seq<Node?<D>>)

  // ---------------------------------------------------------------------------
  // The keyed join in terms of the keys alone
  // ---------------------------------------------------------------------------

  /** The first place of the key, or the length. */
  function First(keys: seq<string>, k: string): (i: nat)
    ensures i <= |keys| && (i < |keys| ==> keys[i] == k) && k !in keys[..i]
    ensures i < |keys| <==> k in keys
  {
    if keys == [] || keys[0] == k then 0
    else
      var i := 1 + First(keys[1..], k);
      assert keys[..i] == [keys[0]] + keys[1..][..i - 1];
      i
  }

  /** The node the `i`-th datum updates, if any: the first with its key, unless an
      earlier datum took that. */
  function Updated(nodes: seq<string>, data: seq<string>, i: nat): Option<nat>
    requires i < |data|
  {
    if data[i] in nodes && data[i] !in data[..i] then Some(First(nodes, data[i])) else None
  }

  /** The nodes whose key an earlier node has. */
  function Duplicates(nodes: seq<string>): (ds: seq<nat>)
    ensures forall t :: 0 <= t < |ds| ==> ds[t] < |nodes|
  {
    if nodes == [] then []
    else
      var n := |nodes| - 1;
      Duplicates(nodes[..n]) + (if Repeats(nodes, n) then [n] else [])
  }

  /** The node in slot `x` of exit: the node of that index if no datum has its key, and
      else the duplicate that was put there, after the last datum's slot. */
  function Exiting(nodes: seq<string>, data: seq<string>, x: nat): Option<nat> {
    if x < |nodes| && nodes[x] !in data then Some(x)
    else if |data| <= x < |data| + |Duplicates(nodes)| then Some(Duplicates(nodes)[x - |data|])
    else None
  }

  datatype Slot = Update(i: nat) | Exit(x: nat)

  ghost predicate At(nodes: seq<string>, data: seq<string>, slot: Slot, p: nat) {
    match slot
    case Update(i) => i < |data| && Updated(nodes, data, i) == Some(p)
    case Exit(x) => Exiting(nodes, data, x) == Some(p)
  }

  /** The node is in exactly one slot of update and exit together. */
  ghost predicate KeptOnce(nodes: seq<string>, data: seq<string>, p: nat) {
    && (exists slot :: At(nodes, data, slot, p))
    && (forall a, b :: At(nodes, data, a, p) && At(nodes, data, b, p) ==> a == b)
  }

  /** The exit slot of the `t`-th duplicate is taken by the node of that index. */
  ghost predicate Overwritten(nodes: seq<string>, data: seq<string>, t: nat) {
    |data| + t < |nodes| && nodes[|data| + t] !in data
  }

  /** An earlier node has the same key. */
  predicate Repeats(nodes: seq<string>, p: nat) {
    p < |nodes| && nodes[p] in nodes[..p]
  }

  lemma {:induction false} DuplicatesAre(nodes: seq<string>)
    ensures forall p: nat :: p in Duplicates(nodes) <==> Repeats(nodes, p)
    ensures forall s, t :: 0 <= s < t < |Duplicates(nodes)| ==> Duplicates(nodes)[s] < Duplicates(nodes)[t]
    decreases |nodes|
  {
    hide Repeats;
    if nodes == [] {
      NoRepeats();
    } else {
      var n := |nodes| - 1;
      var front := Duplicates(nodes[..n]);
      DuplicatesAre(nodes[..n]);
      RepeatsAre(nodes);
      assert forall t :: 0 <= t < |front| ==> front[t] in front;
    }
  }

  lemma NoRepeats()
    ensures forall p: nat :: !Repeats([], p)
  {}

  lemma RepeatsAre(nodes: seq<string>)
    requires nodes != []
    ensures var n := |nodes| - 1;
      forall p: nat :: Repeats(nodes, p) <==> if p == n then Repeats(nodes, n) else Repeats(nodes[..n], p)
  {
    var n := |nodes| - 1;
    forall p: nat | p < n ensures Repeats(nodes, p) <==> Repeats(nodes[..n], p) {
      assert nodes[..n][..p] == nodes[..p];
    }
  }

  lemma FirstIs(keys: seq<string>, p: nat)
    requires p < |keys| && keys[p] !in keys[..p]
    ensures First(keys, keys[p]) == p
  {
    NotBefore(keys, p, keys[p]);
    NotBefore(keys, First(keys, keys[p]), keys[p]);
  }

  lemma NotBefore(keys: seq<string>, i: nat, k: string)
    requires i <= |keys| && k !in keys[..i]
    ensures forall j :: 0 <= j < i ==> keys[j] != k
  {
    forall j | 0 <= j < i ensures keys[j] != k {
      assert keys[..i][j] in keys[..i];
    }
  }

  /** Where a node with a key of its own, or the first of several, goes. */
  lemma {:induction false} FirstsKeptOnce(nodes: seq<string>, data: seq<string>, p: nat)
    requires p < |nodes| && nodes[p] !in nodes[..p]
    ensures KeptOnce(nodes, data, p)
    ensures nodes[p] in data <==> exists i :: 0 <= i < |data| && Updated(nodes, data, i) == Some(p)
  {
    hide Duplicates, First;
    DuplicatesAre(nodes);
    FirstIs(nodes, p);
    var ds := Duplicates(nodes);
    assert forall t :: 0 <= t < |ds| ==> ds[t] in ds;
    forall i | 0 <= i < |data| && Updated(nodes, data, i) == Some(p)
      ensures data[i] == nodes[p] && data[i] !in data[..i]
    {
      FirstAt(nodes, data[i]);
    }
    if nodes[p] in data {
      var i := First(data, nodes[p]);
      FirstAt(data, nodes[p]);
      assert At(nodes, data, Update(i), p);
      forall j | 0 <= j < |data| && Updated(nodes, data, j) == Some(p) ensures j == i {
        FirstIs(data, j);
      }
    } else {
      assert At(nodes, data, Exit(p), p);
    }
  }

  lemma FirstAt(keys: seq<string>, k: string)
    requires k in keys
    ensures First(keys, k) < |keys| && keys[First(keys, k)] == k && k !in keys[..First(keys, k)]
  {}

  lemma {:induction false} DuplicateKeptOnce(nodes: seq<string>, data: seq<string>, t: nat)
    requires t < |Duplicates(nodes)|
    ensures var p := Duplicates(nodes)[t];
      KeptOnce(nodes, data, p) <==> (nodes[p] in data <==> !Overwritten(nodes, data, t))
  {
    hide Duplicates, First;
    DuplicatesAre(nodes);
    var ds := Duplicates(nodes);
    var p := ds[t];
    assert p in ds;
    forall i | 0 <= i < |data| ensures Updated(nodes, data, i) != Some(p) {
      if data[i] in nodes { FirstAt(nodes, data[i]); }
    }
    forall x: nat
      ensures At(nodes, data, Exit(x), p) <==>
        (x == p && nodes[p] !in data) || (x == |data| + t && !Overwritten(nodes, data, t))
    {
      assert |data| <= x < |data| + |ds| && ds[x - |data|] == p ==> x - |data| == t;
    }
    if nodes[p] !in data { assert At(nodes, data, Exit(p), p); }
    if !Overwritten(nodes, data, t) { assert At(nodes, data, Exit(|data| + t), p); }
  }

  /** Update and exit split the nodes, each in exactly one place, if and only if every
      duplicate with a key among the data has its exit slot to itself, and every other
      duplicate's slot is taken. */
  lemma {:induction false} SplitsNodes(nodes: seq<string>, data: seq<string>)
    ensures (forall p :: 0 <= p < |nodes| ==> KeptOnce(nodes, data, p))
       <==> (forall t :: 0 <= t < |Duplicates(nodes)| ==>
              (nodes[Duplicates(nodes)[t]] in data <==> !Overwritten(nodes, data, t)))
  {
    hide KeptOnce, Duplicates, Overwritten;
    DuplicatesAre(nodes);
    var ds := Duplicates(nodes);
    forall t: nat | t < |ds|
      ensures KeptOnce(nodes, data, ds[t]) <==> (nodes[ds[t]] in data <==> !Overwritten(nodes, data, t))
    {
      DuplicateKeptOnce(nodes, data, t);
    }
    forall p | 0 <= p < |nodes| ensures p in ds || KeptOnce(nodes, data, p) {
      if p !in ds { FirstsKeptOnce(nodes, data, p); }
    }
  }

  /** With pairwise distinct node keys the split is clean, whatever the data keys. */
  lemma DistinctKeysSplit(nodes: seq<string>, data: seq<string>)
    requires forall p, q :: 0 <= p < q < |nodes| ==> nodes[p] != nodes[q]
    ensures Duplicates(nodes) == []
    ensures forall p :: 0 <= p < |nodes| ==> KeptOnce(nodes, data, p)
  {
    hide KeptOnce, Duplicates;
    DuplicatesAre(nodes);
    var ds := Duplicates(nodes);
    forall p | 0 <= p < |nodes| ensures nodes[p] !in nodes[..p] {}
    HeadIn(ds);
    SplitsNodes(nodes, data);
  }

  lemma HeadIn<T>(s: seq<T>)
    ensures s != [] ==> s[0] in s
  {}

  /** A node can be lost: the third has the first one's key, and its exit slot goes to
      the second. */
  lemma LostNode()
    ensures var nodes, data := ["a", "b", "a"], ["a"];
      forall slot :: !At(nodes, data, slot, 2)
  {
    var nodes, data := ["a", "b", "a"], ["a"];
    assert nodes[..2] == ["a", "b"];
    assert Duplicates(nodes[..1]) == [] by { assert nodes[..1] == ["a"]; }
    assert Duplicates(nodes[..2]) == [] by { assert nodes[..2][..1] == ["a"]; }
    assert Duplicates(nodes) == [2];
    FirstIs(nodes, 0);
  }

  /** A node can leave twice: the second is put behind the data as a duplicate, and at its
      own index because no datum has its key. */
  lemma NodeTwice()
    ensures var nodes, data := ["a", "a"], ["x", "y"];
      At(nodes, data, Exit(1), 1) && At(nodes, data, Exit(2), 1)
  {
    var nodes := ["a", "a"];
    assert nodes[..1] == ["a"] && nodes[..1][..0] == [];
    assert Duplicates(nodes[..1]) == [];
    assert Duplicates(nodes) == [1];
  }

  // ---------------------------------------------------------------------------
  // The join by key
  // ---------------------------------------------------------------------------

  /** `a[i] = x` of a JavaScript array: it grows when needed, leaving holes. */
  function Put<T>(a: seq<T>, i: nat, x: T, hole: T): (r: seq<T>)
    ensures |r| == if i < |a| then |a| else i + 1
    ensures forall j :: 0 <= j < |r| ==> r[j] == if j == i then x else if j < |a| then a[j] else hole
  {
    if i < |a| then a[i := x] else a + seq(i - |a|, _ => hole) + [x]
  }

  ghost function NodeOr<D>(group: seq<Node<D>>, p: Option<nat>): Node?<D> {
    if p.Some? && p.value < |group| then group[p.value] else null
  }

  /** The keys before anything is bound, and the keys of the data. */
  ghost function NodeKeys<D>(group: seq<Node<D>>, nodeKey: (Node<D>, D, nat) -> string): (ks: seq<string>)
    reads group
    ensures |ks| == |group| && forall i :: 0 <= i < |group| ==> ks[i] == nodeKey(group[i], group[i].data, i)
  {
    seq(|group|, i requires 0 <= i < |group| reads group => nodeKey(group[i], group[i].data, i))
  }

  function DataKeys<D>(data: seq<D>, dataKey: (D, nat) -> string): (ks: seq<string>)
    ensures |ks| == |data| && forall i :: 0 <= i < |data| ==> ks[i] == dataKey(data[i], i)
  {
    seq(|data|, i requires 0 <= i < |data| => dataKey(data[i], i))
  }

  /** What the selections hold, slot by slot. */
  ghost predicate Joined<D>(group: seq<Node<D>>, data: seq<D>, nodes: seq<string>, keys: seq<string>, join: Join<D>)
    requires |nodes| == |group| && |keys| == |data|
  {
    && |join.update| == |join.enter| == |data| <= |join.exit|
    && (forall i :: 0 <= i < |data| ==> Bound(group, data, join, i, Updated(nodes, keys, i)))
    && (forall x :: 0 <= x < |join.exit| ==> join.exit[x] == NodeOr(group, Exiting(nodes, keys, x)))
    && (forall x: nat :: Exiting(nodes, keys, x).Some? ==> x < |join.exit|)
  }

  /** A datum is in update with the node it found, or in enter without one. */
  ghost predicate Bound<D>(group: seq<Node<D>>, data: seq<D>, join: Join<D>, i: nat, p: Option<nat>)
    requires i < |join.update| && i < |join.enter| && i < |data|
  {
    join.update[i] == NodeOr(group, p) && join.enter[i] == if p.Some? then None else Some(data[i])
  }

  ghost predicate Different<D>(group: seq<Node<D>>) {
    forall p, q :: 0 <= p < q < |group| ==> group[p] != group[q]
  }

  /** The map after the nodes: every key leads to its first node. */
  ghost predicate FirstNodes<D>(byKey: map<string, Node<D>>, group: seq<Node<D>>, nodes: seq<string>,
        taken: seq<string>)
    requires |nodes| <= |group|
  {
    && (forall k :: k in byKey <==> k in nodes && k !in taken)
    && (forall k :: k in byKey ==> First(nodes, k) < |group| && byKey[k] == group[First(nodes, k)])
  }

  /** The duplicates stand after the slots of the data. */
  ghost predicate DuplicatesPut<D>(exit: seq<Node?<D>>, group: seq<Node<D>>, ds: seq<nat>, m: nat) {
    && (ds == [] ==> exit == []) && (ds != [] ==> |exit| == m + |ds|)
    && (forall x :: 0 <= x < |exit| ==> exit[x] == if x < m then null else NodeOr(group, Some(ds[x - m])))
  }

  lemma {:induction false} FirstInPrefix(keys: seq<string>, i: nat, k: string)
    requires i < |keys|
    ensures k in keys[..i] ==> First(keys[..i + 1], k) == First(keys[..i], k)
    ensures k !in keys[..i] && k == keys[i] ==> First(keys[..i + 1], k) == i
  {
    var a, b := keys[..i], keys[..i + 1];
    if k in a {
      FirstAt(a, k);
      assert b[..First(a, k)] == a[..First(a, k)];
      FirstIs(b, First(a, k));
    } else if k == keys[i] {
      assert b[..i] == a;
      FirstIs(b, i);
    }
  }

  lemma {:induction false} DuplicatesNext(nodes: seq<string>, i: nat)
    requires i < |nodes|
    ensures Duplicates(nodes[..i + 1]) == Duplicates(nodes[..i]) + (if nodes[i] in nodes[..i] then [i] else [])
  {
    assert nodes[..i + 1][..i] == nodes[..i] && nodes[..i + 1][i] == nodes[i];
  }

  lemma {:induction false} NodeRegistered<D>(before: map<string, Node<D>>, group: seq<Node<D>>,
        nodes: seq<string>, i: nat, after: map<string, Node<D>>)
    requires i < |nodes| == |group| && FirstNodes(before, group, nodes[..i], [])
    requires after == if nodes[i] in before then before else before[nodes[i] := group[i]]
    ensures FirstNodes(after, group, nodes[..i + 1], [])
    ensures nodes[i] in before <==> nodes[i] in nodes[..i]
  {
    hide First;
    assert nodes[..i + 1] == nodes[..i] + [nodes[i]];
    forall k ensures k in nodes[..i + 1] <==> k in nodes[..i] || k == nodes[i] {}
    forall k | k in after ensures First(nodes[..i + 1], k) < |group| && after[k] == group[First(nodes[..i + 1], k)] {
      FirstInPrefix(nodes, i, k);
    }
  }

  /** The first loop: registers the nodes by key and sets duplicates aside. */
  method Register<D>(group: seq<Node<D>>, nodeKey: (Node<D>, D, nat) -> string, m: nat)
      returns (byKey: map<string, Node<D>>, keyValues: seq<string>, exit: seq<Node?<D>>)
    ensures keyValues == NodeKeys(group, nodeKey) && FirstNodes(byKey, group, keyValues, [])
    ensures DuplicatesPut(exit, group, Duplicates(keyValues), m)
  {
    hide FirstNodes, Duplicates;
    byKey, keyValues, exit := map[], [], [];
    var j := m;
    ghost var nodes := NodeKeys(group, nodeKey);
    NothingRegistered(group);
    for i := 0 to |group|
      invariant keyValues == nodes[..i] && FirstNodes(byKey, group, keyValues, [])
      invariant DuplicatesPut(exit, group, Duplicates(keyValues), m) && j == m + |Duplicates(keyValues)|
    {
      var keyValue := nodeKey(group[i], group[i].data, i);
      ghost var before := byKey;
      if keyValue in byKey {
        exit := Put(exit, j, group[i], null);
        j := j + 1;
      } else {
        byKey := byKey[keyValue := group[i]];
      }
      NodeRegistered(before, group, nodes, i, byKey);
      DuplicatesNext(nodes, i);
      assert nodes[..i + 1] == nodes[..i] + [keyValue];
      keyValues := keyValues + [keyValue];
    }
  }

  lemma NothingRegistered<D>(group: seq<Node<D>>)
    ensures FirstNodes(map[], group, [], []) && Duplicates([]) == []
  {}

  lemma {:induction false} DatumTaken<D>(before: map<string, Node<D>>, group: seq<Node<D>>, nodes: seq<string>,
        keys: seq<string>, i: nat)
    requires |nodes| == |group| && i < |keys| && FirstNodes(before, group, nodes, keys[..i])
    ensures FirstNodes(before - {keys[i]}, group, nodes, keys[..i + 1])
    ensures keys[i] in before <==> Updated(nodes, keys, i).Some?
    ensures keys[i] in before ==> before[keys[i]] == NodeOr(group, Updated(nodes, keys, i))
  {
    hide First;
    assert keys[..i + 1] == keys[..i] + [keys[i]];
  }

  /** With different nodes in the group, two data never bind the same node. */
  lemma {:induction false} TakenOnce<D>(group: seq<Node<D>>, data: seq<D>, nodes: seq<string>,
        keys: seq<string>, join: Join<D>, i: nat)
    requires |nodes| == |group| && |keys| == |data| && i < |data| && |join.update| == |join.enter| == i
    requires forall k :: 0 <= k < i ==> Bound(group, data, join, k, Updated(nodes, keys, k))
    requires Updated(nodes, keys, i).Some? && Different(group)
    ensures NodeOr(group, Updated(nodes, keys, i)) !in join.update
  {
    hide First;
    forall k | 0 <= k < i ensures join.update[k] != NodeOr(group, Updated(nodes, keys, i)) {
      assert Bound(group, data, join, k, Updated(nodes, keys, k));
      assert keys[..i][k] == keys[k];
      FirstAt(nodes, keys[i]);
      if keys[k] in nodes { FirstAt(nodes, keys[k]); }
    }
  }

  lemma NothingBound<D>(data: seq<D>)
    ensures Carries([], data)
  {}

  /** So with different nodes in the group, every updated node carries its own datum. */
  lemma {:induction false} OwnDatum<D>(group: seq<Node<D>>, data: seq<D>, nodes: seq<string>, keys: seq<string>,
                                       join: Join<D>, i: nat)
    requires |nodes| == |group| && |keys| == |data| && Joined(group, data, nodes, keys, join) && Different(group)
    requires Carries(join.update, data) && i < |data| && join.update[i] != null
    ensures join.update[i].data == data[i]
  {
    hide Updated, First, Different;
    forall j | i < j < |data| ensures join.update[j] != join.update[i] {
      assert Bound(group, data, join, i, Updated(nodes, keys, i));
      assert Bound(group, data, join, j, Updated(nodes, keys, j));
      if join.update[j] != null {
        var front := Join(join.update[..j], join.enter[..j], join.exit);
        forall k | 0 <= k < j ensures Bound(group, data, front, k, Updated(nodes, keys, k)) {
          assert Bound(group, data, join, k, Updated(nodes, keys, k));
        }
        TakenOnce(group, data, nodes, keys, front, j);
        assert front.update[i] == join.update[i];
      }
    }
    assert LastAt(join.update, i);
  }

  /** The last loop: the nodes whose keys are still registered leave. */
  method ExitRest<D>(group: seq<Node<D>>, keyValues: seq<string>, byKey: map<string, Node<D>>, aside: seq<Node?<D>>)
      returns (exit: seq<Node?<D>>)
    requires |keyValues| == |group|
    ensures |aside| <= |exit| && forall x :: 0 <= x < |group| && keyValues[x] in byKey ==> x < |exit|
    ensures forall x :: 0 <= x < |exit| ==>
      exit[x] == if x < |group| && keyValues[x] in byKey then group[x] else if x < |aside| then aside[x] else null
  {
    exit := aside;
    for i := 0 to |group|
      invariant |aside| <= |exit| && forall x :: 0 <= x < i && keyValues[x] in byKey ==> x < |exit|
      invariant forall x :: 0 <= x < |exit| ==>
        exit[x] == if x < i && keyValues[x] in byKey then group[x] else if x < |aside| then aside[x] else null
    {
      if keyValues[i] in byKey {
        exit := Put(exit, i, group[i], null);
      }
    }
  }

  lemma {:induction false} ExitIs<D>(group: seq<Node<D>>, nodes: seq<string>, keys: seq<string>,
        byKey: map<string, Node<D>>,
                  setAside: seq<Node?<D>>, aside: seq<Node?<D>>, exit: seq<Node?<D>>)
    requires |nodes| == |group| && FirstNodes(byKey, group, nodes, keys)
    requires DuplicatesPut(setAside, group, Duplicates(nodes), |keys|)
    requires |aside| == if |keys| < |setAside| then |setAside| else |keys|
    requires forall x :: 0 <= x < |aside| ==> aside[x] == if x < |keys| then null else setAside[x]
    requires |aside| <= |exit| && forall x :: 0 <= x < |group| && nodes[x] in byKey ==> x < |exit|
    requires forall x :: 0 <= x < |exit| ==>
      exit[x] == if x < |group| && nodes[x] in byKey then group[x] else if x < |aside| then aside[x] else null
    ensures |keys| <= |exit| && forall x :: 0 <= x < |exit| ==> exit[x] == NodeOr(group, Exiting(nodes, keys, x))
    ensures forall x: nat :: Exiting(nodes, keys, x).Some? ==> x < |exit|
  {
    hide First, Duplicates;
    var ds := Duplicates(nodes);
    forall x: nat ensures Exiting(nodes, keys, x).Some? ==> x < |exit| {
      assert |keys| <= x < |keys| + |ds| ==> x < |setAside|;
    }
    forall x | 0 <= x < |exit| ensures exit[x] == NodeOr(group, Exiting(nodes, keys, x)) {
      assert x < |group| ==> nodes[x] in nodes;
    }
  }

  /** The element does not occur again further on. */
  ghost predicate LastAt<T>(s: seq<T>, i: nat)
    requires i < |s|
  {
    forall j :: i < j < |s| ==> s[j] != s[i]
  }

  /** Every node carries the datum of the last slot it is in. */
  ghost predicate Carries<D>(update: seq<Node?<D>>, data: seq<D>)
    requires |update| <= |data|
    reads set n | n in update && n != null
  {
    forall k :: 0 <= k < |update| && update[k] != null && LastAt(update, k) ==> update[k].data == data[k]
  }

  lemma CarriesOn<D>(update: seq<Node?<D>>, data: seq<D>)
    requires |update| < |data| && Carries(update, data)
    ensures Carries(update + [null], data)
  {
    var more := update + [null];
    forall k | 0 <= k < |more| && more[k] != null && LastAt(more, k) ensures more[k].data == data[k] {
      assert LastAt(update, k) by { assert forall j :: k < j < |update| ==> more[j] == update[j]; }
    }
  }

  /** The node of the next slot gets its datum. */
  method Assign<D>(node: Node<D>, datum: D, ghost update: seq<Node?<D>>, ghost data: seq<D>)
    requires |update| < |data| && datum == data[|update|] && Carries(update, data)
    modifies node
    ensures Carries(update + [node], data)
  {
    node.data := datum;
    ghost var more := update + [node];
    forall k | 0 <= k < |more| && more[k] != null && LastAt(more, k) ensures more[k].data == data[k] {
      if k < |update| {
        assert more[|update|] != more[k];
        assert LastAt(update, k) by { assert forall j :: k < j < |update| ==> more[j] == update[j]; }
      }
    }
  }

  /** `bind` with a key function. */
  method BindByKey<D>(group: seq<Node<D>>, data: seq<D>, nodeKey: (Node<D>, D, nat) -> string,
        dataKey: (D, nat) -> string)
      returns (join: Join<D>)
    modifies group
    ensures Joined(group, data, old(NodeKeys(group, nodeKey)), DataKeys(data, dataKey), join)
    ensures |join.update| == |data| && Carries(join.update, data)
    ensures forall node :: node in group && node !in join.update ==> node.data == old(node.data)
  {
    hide FirstNodes, Updated, Duplicates, DuplicatesPut, Exiting, Put, First, NodeKeys, DataKeys, Carries;
    var m := |data|;
    var byKey, keyValues, exit := Register(group, nodeKey, m);
    var update: seq<Node?<D>>, enter: seq<Option<D>> := [], [];
    ghost var keys, setAside := DataKeys(data, dataKey), exit;
    NothingBound(data);
    for i := 0 to m
      invariant |update| == |enter| == i && FirstNodes(byKey, group, keyValues, keys[..i])
      invariant forall k :: 0 <= k < i ==> Bound(group, data, Join(update, enter, exit), k, Updated(keyValues, keys, k))
      invariant forall x :: 0 <= x < |exit| ==>
        exit[x] == if x < i then null else if x < |setAside| then setAside[x] else null
      invariant |exit| == if i < |setAside| then |setAside| else i
      invariant Carries(update, data)
      invariant forall node :: node in group && node !in update ==> node.data == old(node.data)
    {
      var keyValue := dataKey(data[i], i);
      DatumTaken(byKey, group, keyValues, keys, i);
      if keyValue in byKey {
        var node := byKey[keyValue];
        Assign(node, data[i], update, data);
        update, enter := update + [node], enter + [None];
      } else {
        CarriesOn(update, data);
        update, enter := update + [null], enter + [Some(data[i])];
      }
      exit := Put(exit, i, null, null);
      byKey := byKey - {keyValue};
    }
    assert keys[..m] == keys;
    ghost var aside := exit;
    exit := ExitRest(group, keyValues, byKey, exit);
    ExitIs(group, keyValues, keys, byKey, setAside, aside, exit);
    join := Join(update, enter, exit);
  }

  /** Every datum is in exactly one of update and enter: in update if and only if some
      node has its key and no earlier datum does, and then with such a node. */
  lemma {:induction false} DataSplit<D>(group: seq<Node<D>>, data: seq<D>, nodes: seq<string>,
        keys: seq<string>, join: Join<D>, i: nat)
    requires |nodes| == |group| && |keys| == |data| && Joined(group, data, nodes, keys, join) && i < |data|
    ensures join.update[i] != null <==> keys[i] in nodes && keys[i] !in keys[..i]
    ensures join.enter[i] == if join.update[i] != null then None else Some(data[i])
    ensures join.update[i] != null ==> exists p :: 0 <= p < |group| && join.update[i] == group[p] && nodes[p] == keys[i]
  {
    hide First, Exiting;
    assert Bound(group, data, join, i, Updated(nodes, keys, i));
    if keys[i] in nodes { FirstAt(nodes, keys[i]); }
  }

  /** When the nodes are different and have different keys, update holds exactly the nodes
      whose key some datum has and exit the others, each of them once. */
  lemma {:induction false} KeyedPartition<D>(group: seq<Node<D>>, data: seq<D>, nodes: seq<string>,
        keys: seq<string>, join: Join<D>, p: nat)
    requires |nodes| == |group| && |keys| == |data| && Joined(group, data, nodes, keys, join) && p < |group|
    requires Different(group) && forall a, b :: 0 <= a < b < |nodes| ==> nodes[a] != nodes[b]
    ensures if nodes[p] in keys then OnceIn(join.update, group[p]) && group[p] !in join.exit
            else OnceIn(join.exit, group[p]) && group[p] !in join.update
  {
    hide First, Exiting, Updated, Different, KeptOnce;
    DistinctKeysSplit(nodes, keys);
    PlaceIs(group, data, nodes, keys, join, p);
    ExitPlace(nodes, keys, p);
    PlaceOf(nodes, keys, p);
    assert nodes[p] !in keys ==> Exiting(nodes, keys, p) == Some(p) && join.exit[p] == group[p];
  }

  /** The element is in the sequence at one place only. */
  ghost predicate OnceIn<T>(s: seq<T>, x: T) {
    exists i :: 0 <= i < |s| && s[i] == x && forall j :: 0 <= j < |s| && s[j] == x ==> j == i
  }

  lemma PlaceIs<D>(group: seq<Node<D>>, data: seq<D>, nodes: seq<string>, keys: seq<string>, join: Join<D>, p: nat)
    requires |nodes| == |group| && |keys| == |data| && Joined(group, data, nodes, keys, join)
    requires p < |group| && Different(group)
    ensures forall i :: 0 <= i < |data| ==> (join.update[i] == group[p] <==> Updated(nodes, keys, i) == Some(p))
    ensures forall x :: 0 <= x < |join.exit| ==> (join.exit[x] == group[p] <==> Exiting(nodes, keys, x) == Some(p))
    ensures forall x: nat :: Exiting(nodes, keys, x) == Some(p) ==> x < |join.exit|
  {
    hide First, Exiting, Updated;
    forall i | 0 <= i < |data| ensures join.update[i] == group[p] <==> Updated(nodes, keys, i) == Some(p) {
      assert Bound(group, data, join, i, Updated(nodes, keys, i));
      UpdatedInRange(nodes, keys, i);
    }
    forall x | 0 <= x < |join.exit| ensures join.exit[x] == group[p] <==> Exiting(nodes, keys, x) == Some(p) {
      ExitingInRange(nodes, keys, x);
    }
  }

  lemma UpdatedInRange(nodes: seq<string>, keys: seq<string>, i: nat)
    requires i < |keys|
    ensures Updated(nodes, keys, i).Some? ==> Updated(nodes, keys, i).value < |nodes|
  {}

  lemma ExitingInRange(nodes: seq<string>, keys: seq<string>, x: nat)
    ensures Exiting(nodes, keys, x).Some? ==> Exiting(nodes, keys, x).value < |nodes|
  {}

  lemma ExitPlace(nodes: seq<string>, keys: seq<string>, p: nat)
    requires p < |nodes| && Duplicates(nodes) == []
    ensures forall x: nat :: Exiting(nodes, keys, x) == Some(p) <==> x == p && nodes[p] !in keys
  {
    hide Duplicates;
  }

  /** The slot of update that a datum's node has to itself. */
  ghost predicate UpdatedAt(nodes: seq<string>, keys: seq<string>, p: nat, i: nat) {
    i < |keys| && Updated(nodes, keys, i) == Some(p) &&
      forall j :: 0 <= j < |keys| && Updated(nodes, keys, j) == Some(p) ==> j == i
  }

  lemma PlaceOf(nodes: seq<string>, keys: seq<string>, p: nat)
    requires p < |nodes| && Duplicates(nodes) == [] && KeptOnce(nodes, keys, p)
    ensures if nodes[p] in keys then exists i :: UpdatedAt(nodes, keys, p, i)
            else forall i :: 0 <= i < |keys| ==> Updated(nodes, keys, i) != Some(p)
  {
    hide First, Updated, Exiting, Duplicates, UpdatedAt;
    ExitPlace(nodes, keys, p);
    var slot :| At(nodes, keys, slot, p);
    if nodes[p] in keys {
      UpdatePlace(nodes, keys, p, slot.i);
    } else {
      forall i | 0 <= i < |keys| ensures Updated(nodes, keys, i) != Some(p) {
        assert At(nodes, keys, Exit(p), p);
        assert Updated(nodes, keys, i) == Some(p) ==> At(nodes, keys, Update(i), p);
      }
    }
  }

  lemma UpdatePlace(nodes: seq<string>, keys: seq<string>, p: nat, i: nat)
    requires KeptOnce(nodes, keys, p) && At(nodes, keys, Update(i), p)
    ensures UpdatedAt(nodes, keys, p, i)
  {
    hide First, Updated, Exiting, Duplicates;
    forall j | 0 <= j < |keys| && Updated(nodes, keys, j) == Some(p) ensures j == i {
      assert At(nodes, keys, Update(j), p);
    }
  }

  // ---------------------------------------------------------------------------
  // The join by index
  // ---------------------------------------------------------------------------

  /** Slot `i` of update, enter and exit. */
  ghost predicate IndexSlot<D>(group: seq<Node?<D>>, data: seq<D>, i: nat, u: Node?<D>, e: Option<D>, x: Node?<D>) {
    var node := if i < |group| then group[i] else null;
    && u == (if i < |data| then node else null)
    && e == (if i < |data| && node == null then Some(data[i]) else None)
    && x == (if i < |data| then null else node)
  }

  /** `bind` without a key function: a group may have empty slots. */
  method BindByIndex<D>(group: seq<Node?<D>>, data: seq<D>) returns (join: Join<D>)
    modifies set node | node in group && node != null
    ensures |join.update| == |join.enter| == |join.exit| == if |group| < |data| then |data| else |group|
    ensures forall i :: 0 <= i < |join.update| ==>
      IndexSlot(group, data, i, join.update[i], join.enter[i], join.exit[i])
    ensures |data| <= |join.update| && Carries(join.update[..|data|], data)
    ensures forall node :: node in group && node != null && node !in join.update ==> node.data == old(node.data)
  {
    hide Carries;
    var n, m := |group|, |data|;
    var n0, n1 := if n < m then n else m, if n < m then m else n;
    var update, enter, exit: seq<Node?<D>> := [], [], [];
    var i := 0;
    NothingBound(data);
    while i < n0
      invariant i <= n0 && |update| == |enter| == |exit| == i && Carries(update, data)
      invariant forall k :: 0 <= k < i ==> IndexSlot(group, data, k, update[k], enter[k], exit[k])
      invariant forall node :: node in group && node != null && node !in update ==> node.data == old(node.data)
    {
      var node := group[i];
      if node != null {
        Assign(node, data[i], update, data);
        update, enter := update + [node], enter + [None];
      } else {
        CarriesOn(update, data);
        update, enter := update + [null], enter + [Some(data[i])];
      }
      exit := exit + [null];
      i := i + 1;
    }
    while i < m
      invariant n0 <= i && (n < m ==> i <= m) && (m <= n ==> i == n0)
      invariant |update| == |enter| == |exit| == i && Carries(update, data)
      invariant forall k :: 0 <= k < i ==> IndexSlot(group, data, k, update[k], enter[k], exit[k])
      invariant forall node :: node in group && node != null && node !in update ==> node.data == old(node.data)
    {
      CarriesOn(update, data);
      update, enter, exit := update + [null], enter + [Some(data[i])], exit + [null];
      i := i + 1;
    }
    assert update[..m] == update;
    while i < n1
      invariant m <= i <= n1 && |update| == |enter| == |exit| == i && Carries(update[..m], data)
      invariant forall k :: 0 <= k < i ==> IndexSlot(group, data, k, update[k], enter[k], exit[k])
      invariant forall node :: node in group && node != null && node !in update ==> node.data == old(node.data)
    {
      assert (update + [null])[..m] == update[..m];
      update, enter, exit := update + [null], enter + [None], exit + [group[i]];
      i := i + 1;
    }
    join := Join(update, enter, exit);
  }
}
