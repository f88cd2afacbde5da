/** The timer queue of d3: a singly linked list that callbacks grow at the front while
    it is being walked, and from which finished timers are unlinked in place. */
module TimerQueue {

  import opened Options

  /** A timer as a value. Callbacks are told apart by a number. */
  datatype Entry = Entry(callback: nat, then_: int, delay: int, flush: bool)

  /** A call of `d3.timer` with all three arguments. */
  datatype Add = Add(callback: nat, delay: int, then_: int)

  /** What a callback does when it is called: timers it adds, and what it returns. */
  datatype Behaviour = Behaviour(adds: seq<Add>, result: bool)

  datatype Call = Call(callback: nat, elapsed: int)

  // ---------------------------------------------------------------------------
  // The queue as a value
  // ---------------------------------------------------------------------------

  ghost predicate Distinct(es: seq<Entry>) {
    forall i, j :: 0 <= i < j < |es| ==> es[i].callback != es[j].callback
  }

  /** Where the callback is in the queue, or its length. */
  function Find(es: seq<Entry>, callback: nat): (i: nat)
    ensures i <= |es| && (i < |es| ==> es[i].callback == callback)
    ensures forall k :: 0 <= k < i ==> es[k].callback != callback
  {
    if es == [] || es[0].callback == callback then 0 else 1 + Find(es[1..], callback)
  }

  /** `d3.timer`: an entry for the callback is reset, or a new one goes in front. */
  function Added(es: seq<Entry>, a: Add): (r: seq<Entry>)
    ensures |es| <= |r| <= |es| + 1
  {
    var i := Find(es, a.callback);
    if i < |es| then es[i := es[i].(then_ := a.then_, delay := a.delay)]
    else [Entry(a.callback, a.then_, a.delay, false)] + es
  }

  function AddedAll(es: seq<Entry>, adds: seq<Add>): (r: seq<Entry>)
    ensures |es| <= |r|
  {
    if adds == [] then es else Added(AddedAll(es, adds[..|adds| - 1]), adds[|adds| - 1])
  }

  /** Walking the last `left` entries: those due at `now` are called, the `k`-th call
      behaving as `script(k)` says. */
  function Walked(es: seq<Entry>, left: nat, now: int, script: nat -> Behaviour, k: nat): (r: (seq<Entry>, seq<Call>))
    requires left <= |es|
    decreases left
  {
    if left == 0 then (es, [])
    else
      var i := |es| - left;
      var e := es[i];
      if now - e.then_ >= e.delay then
        var r := Walked(AfterCall(es, left, script(k)), left - 1, now, script, k + 1);
        (r.0, [Call(e.callback, now - e.then_)] + r.1)
      else Walked(es, left - 1, now, script, k)
  }

  function Survivors(es: seq<Entry>): (r: seq<Entry>)
    ensures |r| <= |es|
  {
    if es == [] then []
    else Survivors(es[..|es| - 1]) + (if es[|es| - 1].flush then [] else [es[|es| - 1]])
  }

  /** The earliest time an entry is due; none for the empty queue (`Infinity`). */
  function Earliest(es: seq<Entry>): Option<int> {
    if es == [] then None
    else
      Sooner(Earliest(es[..|es| - 1]), es[|es| - 1].then_ + es[|es| - 1].delay)
  }

  // ---------------------------------------------------------------------------
  // What the walk guarantees
  // ---------------------------------------------------------------------------

  function Callbacks(es: seq<Entry>): (r: seq<nat>)
    ensures |r| == |es| && forall i :: 0 <= i < |es| ==> r[i] == es[i].callback
  {
    seq(|es|, i requires 0 <= i < |es| => es[i].callback)
  }

  /** `r` is `es` with more timers in front; times and flags may differ. */
  ghost predicate Extends(r: seq<Entry>, es: seq<Entry>) {
    |es| <= |r| && Callbacks(r)[|r| - |es|..] == Callbacks(es)
  }

  lemma ExtendsTransitive(a: seq<Entry>, b: seq<Entry>, c: seq<Entry>)
    requires Extends(c, b) && Extends(b, a)
    ensures Extends(c, a)
  {
    assert Callbacks(c)[|c| - |b|..][|b| - |a|..] == Callbacks(c)[|c| - |a|..];
  }

  lemma AddedExtends(es: seq<Entry>, a: Add)
    ensures Extends(Added(es, a), es)
    ensures Distinct(es) ==> Distinct(Added(es, a))
  {
    var i, r := Find(es, a.callback), Added(es, a);
    if i == |es| {
      assert r[1..] == es;
    }
  }

  /** After a call of `d3.timer` the callback has an entry with the times of the call, which
      keeps its place and its flag if it was there and is in front without a flag if not;
      all other entries are as they were. */
  lemma {:induction false} AddedMeans(es: seq<Entry>, a: Add)
    requires Distinct(es)
    ensures var r := Added(es, a); var n := |r| - |es|;
      && (exists i :: 0 <= i < |r| && r[i].callback == a.callback && r[i].then_ == a.then_ && r[i].delay == a.delay)
      && (n == 0 <==> exists i :: 0 <= i < |es| && es[i].callback == a.callback)
      && (forall i :: 0 <= i < |es| ==> r[n + i].callback == es[i].callback && r[n + i].flush == es[i].flush)
      && (forall i :: 0 <= i < |es| && es[i].callback != a.callback ==> r[n + i] == es[i])
      && (n != 0 ==> n == 1 && r[0] == Entry(a.callback, a.then_, a.delay, false))
  {
    var i, r := Find(es, a.callback), Added(es, a);
    if i < |es| {
      assert r[i].callback == a.callback;
    } else {
      assert r[0].callback == a.callback;
    }
  }

  lemma {:induction false} AddedAllExtends(es: seq<Entry>, adds: seq<Add>)
    ensures Extends(AddedAll(es, adds), es)
    ensures Distinct(es) ==> Distinct(AddedAll(es, adds))
    decreases |adds|
  {
    if adds != [] {
      var front := adds[..|adds| - 1];
      AddedAllExtends(es, front);
      AddedExtends(AddedAll(es, front), adds[|adds| - 1]);
      ExtendsTransitive(es, AddedAll(es, front), AddedAll(es, adds));
    }
  }

  /** The calls are a sublist of the entries there were, in order: each timer is
      called at most once, and none that was added on the way. */
  ghost predicate Sublist(calls: seq<Call>, cbs: seq<nat>)
    decreases |cbs|
  {
    if calls == [] then true
    else cbs != [] && if calls[0].callback == cbs[0] then Sublist(calls[1..], cbs[1..]) else Sublist(calls, cbs[1..])
  }

  /** A step of the walk: what the call adds, and its result in the entry. */
  function AfterCall(es: seq<Entry>, left: nat, b: Behaviour): (r: seq<Entry>)
    requires 0 < left <= |es|
    ensures |es| <= |r|
  {
    var es1 := AddedAll(es, b.adds);
    var j := |es1| - left;
    es1[j := es1[j].(flush := b.result)]
  }

  lemma AfterCallExtends(es: seq<Entry>, left: nat, b: Behaviour)
    requires 0 < left <= |es|
    ensures Extends(AfterCall(es, left, b), es)
    ensures Distinct(es) ==> Distinct(AfterCall(es, left, b))
  {
    hide AddedAll, Distinct, Extends;
    var es1, es2 := AddedAll(es, b.adds), AfterCall(es, left, b);
    AddedAllExtends(es, b.adds);
    SameCallbacks(es, es1, es2);
  }

  lemma SameCallbacks(es: seq<Entry>, a: seq<Entry>, b: seq<Entry>)
    requires (Extends(a, es) || a == es) && |a| == |b| && forall i :: 0 <= i < |a| ==> b[i].callback == a[i].callback
    ensures Extends(b, es) && (Distinct(a) ==> Distinct(b))
  {
    assert Callbacks(a) == Callbacks(b);
  }

  lemma TailOfExtension(r: seq<Entry>, es: seq<Entry>, d: nat)
    requires Extends(r, es) && d <= |es|
    ensures Callbacks(r)[|r| - d..] == Callbacks(es)[|es| - d..]
  {
    assert Callbacks(r)[|r| - |es|..][|es| - d..] == Callbacks(r)[|r| - d..];
  }

  lemma {:induction false} WalkCallsEachOnce(es: seq<Entry>, left: nat, now: int, script: nat -> Behaviour, k: nat)
    requires left <= |es| && Distinct(es)
    ensures var r := Walked(es, left, now, script, k);
            Sublist(r.1, Callbacks(es)[|es| - left..]) && Distinct(r.0) && Extends(r.0, es)
    decreases left
  {
    hide AfterCall, Distinct, Extends, Sublist, Callbacks, Walked;
    WalkedIs(es, left, now, script, k);
    if left == 0 {
      NothingCalled(es);
    } else {
      var i := |es| - left;
      TailStep(es, i);
      if now - es[i].then_ >= es[i].delay {
        var es2 := AfterCall(es, left, script(k));
        AfterCallExtends(es, left, script(k));
        WalkCallsEachOnce(es2, left - 1, now, script, k + 1);
        TailOfExtension(es2, es, left - 1);
        var r := Walked(es2, left - 1, now, script, k + 1);
        ExtendsTransitive(es, es2, r.0);
        SublistCons(Call(es[i].callback, now - es[i].then_), r.1, Callbacks(es)[i..]);
      } else {
        WalkCallsEachOnce(es, left - 1, now, script, k);
        SublistSkips(Walked(es, left - 1, now, script, k).1, Callbacks(es)[i..]);
      }
    }
  }

  lemma WalkedIs(es: seq<Entry>, left: nat, now: int, script: nat -> Behaviour, k: nat)
    requires left <= |es|
    ensures left == 0 ==> Walked(es, left, now, script, k) == (es, [])
    ensures left > 0 ==> var e := es[|es| - left];
      Walked(es, left, now, script, k)
      == if now - e.then_ >= e.delay then
           var r := Walked(AfterCall(es, left, script(k)), left - 1, now, script, k + 1);
           (r.0, [Call(e.callback, now - e.then_)] + r.1)
         else Walked(es, left - 1, now, script, k)
  {
    hide AfterCall;
  }

  lemma NothingCalled(es: seq<Entry>)
    ensures Extends(es, es) && Sublist([], Callbacks(es)[|es|..])
  {}

  lemma TailStep(es: seq<Entry>, i: nat)
    requires Distinct(es) && i < |es|
    ensures var cbs := Callbacks(es)[i..];
      && |cbs| == |es| - i && cbs[0] == es[i].callback && cbs[1..] == Callbacks(es)[i + 1..]
      && forall a, b :: 0 <= a < b < |cbs| ==> cbs[a] != cbs[b]
  {}

  lemma SublistCons(c: Call, calls: seq<Call>, cbs: seq<nat>)
    requires cbs != [] && c.callback == cbs[0] && Sublist(calls, cbs[1..])
    ensures Sublist([c] + calls, cbs)
  {
    assert ([c] + calls)[1..] == calls;
  }

  lemma {:induction false} SublistMembers(calls: seq<Call>, cbs: seq<nat>)
    requires Sublist(calls, cbs)
    ensures forall i :: 0 <= i < |calls| ==> calls[i].callback in cbs
    decreases |cbs|
  {
    if calls != [] {
      if calls[0].callback == cbs[0] {
        SublistMembers(calls[1..], cbs[1..]);
        assert forall i :: 1 <= i < |calls| ==> calls[i] == calls[1..][i - 1];
      } else {
        SublistMembers(calls, cbs[1..]);
      }
    }
  }

  lemma SublistSkips(calls: seq<Call>, cbs: seq<nat>)
    requires cbs != [] && Sublist(calls, cbs[1..]) && forall i, j :: 0 <= i < j < |cbs| ==> cbs[i] != cbs[j]
    ensures Sublist(calls, cbs)
  {
    SublistMembers(calls, cbs[1..]);
    if calls != [] {
      assert calls[0].callback in cbs[1..];
      var k :| 0 <= k < |cbs[1..]| && cbs[1..][k] == calls[0].callback;
      assert cbs[k + 1] == calls[0].callback;
    }
  }

  /** No callback is called twice in a walk. */
  lemma {:induction false} SublistDistinct(calls: seq<Call>, cbs: seq<nat>)
    requires Sublist(calls, cbs) && forall i, j :: 0 <= i < j < |cbs| ==> cbs[i] != cbs[j]
    ensures forall i, j :: 0 <= i < j < |calls| ==> calls[i].callback != calls[j].callback
    decreases |cbs|
  {
    if calls != [] {
      if calls[0].callback == cbs[0] {
        SublistDistinct(calls[1..], cbs[1..]);
        SublistMembers(calls[1..], cbs[1..]);
        forall i, j | 0 <= i < j < |calls| ensures calls[i].callback != calls[j].callback {
          assert calls[j] == calls[1..][j - 1];
          if i == 0 {
            var k :| 0 <= k < |cbs[1..]| && cbs[1..][k] == calls[j].callback;
            assert cbs[k + 1] == calls[j].callback;
          } else {
            assert calls[i] == calls[1..][i - 1];
          }
        }
      } else {
        SublistDistinct(calls, cbs[1..]);
      }
    }
  }

  /** One step of d3: every call is of a timer that was in the queue when the step began, and
      no timer is called twice, whatever the callbacks add or reset. */
  lemma StepCallsOnce(es: seq<Entry>, now: int, script: nat -> Behaviour)
    requires Distinct(es)
    ensures var calls := Walked(es, |es|, now, script, 0).1;
            && (forall i :: 0 <= i < |calls| ==> calls[i].callback in Callbacks(es))
            && (forall i, j :: 0 <= i < j < |calls| ==> calls[i].callback != calls[j].callback)
  {
    hide Walked;
    WalkCallsEachOnce(es, |es|, now, script, 0);
    var calls := Walked(es, |es|, now, script, 0).1;
    assert Callbacks(es)[0..] == Callbacks(es);
    SublistMembers(calls, Callbacks(es));
    SublistDistinct(calls, Callbacks(es));
  }

  /** The calls for the entries due at `now`, in the order of the queue. */
  function DueCalls(es: seq<Entry>, now: int): seq<Call> {
    if es == [] then []
    else (if now - es[0].then_ >= es[0].delay then [Call(es[0].callback, now - es[0].then_)] else [])
         + DueCalls(es[1..], now)
  }

  /** When no callback adds or resets a timer, exactly the due timers are called. */
  lemma {:induction false} QuietWalk(es: seq<Entry>, left: nat, now: int, script: nat -> Behaviour, k: nat)
    requires left <= |es| && forall n :: script(n).adds == []
    ensures Walked(es, left, now, script, k).1 == DueCalls(es[|es| - left..], now)
    decreases left
  {
    hide Walked;
    WalkedIs(es, left, now, script, k);
    if left > 0 {
      var i := |es| - left;
      assert es[i..][1..] == es[i + 1..];
      if now - es[i].then_ >= es[i].delay {
        var es2 := AfterCall(es, left, script(k));
        QuietWalk(es2, left - 1, now, script, k + 1);
        assert es2[i + 1..] == es[i + 1..];
      } else {
        QuietWalk(es, left - 1, now, script, k);
      }
    }
  }

  /** Flushing drops exactly the flagged entries and keeps the order of the others. */
  lemma {:induction false} SurvivorsAre(es: seq<Entry>)
    ensures forall e :: e in Survivors(es) <==> e in es && !e.flush
    ensures Distinct(es) ==> Distinct(Survivors(es))
    decreases |es|
  {
    hide Distinct;
    if es == [] {
    } else {
      var front, e := es[..|es| - 1], es[|es| - 1];
      SurvivorsAre(front);
      assert es == front + [e];
      DistinctMore(front, e);
      DistinctMore(Survivors(front), e);
      assert Survivors(front) + [] == Survivors(front);
    }
  }

  lemma DistinctMore(es: seq<Entry>, e: Entry)
    ensures Distinct(es + [e]) <==> Distinct(es) && forall d :: d in es ==> d.callback != e.callback
  {
    var more := es + [e];
    assert more[|es|] == e && forall i :: 0 <= i < |es| ==> more[i] == es[i] && es[i] in es;
    if Distinct(more) {
      assert forall i, j :: 0 <= i < j < |es| ==> more[i].callback != more[j].callback;
    }
  }

  lemma {:induction false} EarliestIs(es: seq<Entry>)
    ensures Earliest(es).None? <==> es == []
    ensures Earliest(es).Some? ==> exists i :: 0 <= i < |es| && es[i].then_ + es[i].delay == Earliest(es).value
    ensures forall i :: 0 <= i < |es| ==> Earliest(es).value <= es[i].then_ + es[i].delay
    decreases |es|
  {
    if es != [] {
      var front := es[..|es| - 1];
      EarliestIs(front);
      assert forall i :: 0 <= i < |front| ==> es[i] == front[i];
    }
  }

  /** Some timer is due by time `t`. */
  ghost predicate DueBy(es: seq<Entry>, t: int) {
    exists e :: e in es && e.then_ + e.delay <= t
  }

  lemma SomeDue(es: seq<Entry>, t: int)
    ensures DueBy(es, t) <==> Earliest(es).Some? && Earliest(es).value <= t
    ensures Earliest(es).None? <==> es == []
  {
    EarliestIs(es);
    forall e | e in es && e.then_ + e.delay <= t ensures Earliest(es).value <= t {
      var i :| 0 <= i < |es| && es[i] == e;
    }
    if Earliest(es).Some? {
      var i :| 0 <= i < |es| && es[i].then_ + es[i].delay == Earliest(es).value;
      assert es[i] in es;
    }
  }

  // ---------------------------------------------------------------------------
  // Which timers a step keeps
  // ---------------------------------------------------------------------------

  /** The flag of the callback's timer; none when it is not in the queue. */
  function FlagOf(es: seq<Entry>, c: nat): Option<bool> {
    var i := Find(es, c);
    if i < |es| then Some(es[i].flush) else None
  }

  predicate Adds(adds: seq<Add>, c: nat) {
    exists i :: 0 <= i < |adds| && adds[i].callback == c
  }

  lemma FlagAt(es: seq<Entry>, i: nat)
    requires Distinct(es) && i < |es|
    ensures FlagOf(es, es[i].callback) == Some(es[i].flush)
  {
    FindIs(es, es[i].callback, i);
  }

  lemma FlagNone(es: seq<Entry>, c: nat)
    ensures FlagOf(es, c).None? <==> forall e :: e in es ==> e.callback != c
  {
    var i := Find(es, c);
    assert i < |es| ==> es[i] in es;
  }

  /** Adding a timer changes no flag of those there are. */
  lemma {:induction false} FlagAdded(es: seq<Entry>, a: Add, c: nat)
    ensures FlagOf(Added(es, a), c) == if FlagOf(es, c).None? && a.callback == c then Some(false) else FlagOf(es, c)
  {
    hide Find, FlagOf, Added;
    var i := Find(es, a.callback);
    AddedIs(es, a);
    if i < |es| {
      FlagReset(es, i, es[i].(then_ := a.then_, delay := a.delay), c);
      FlagIs(es, c);
    } else {
      FlagIs(es, c);
      FlagInFront(Entry(a.callback, a.then_, a.delay, false), es, c);
    }
  }

  lemma FlagIs(es: seq<Entry>, c: nat)
    ensures FlagOf(es, c).None? <==> Find(es, c) == |es|
  {}

  /** An entry that keeps its callback and its flag changes none. */
  lemma FlagReset(es: seq<Entry>, i: nat, e: Entry, c: nat)
    requires i < |es| && e.callback == es[i].callback && e.flush == es[i].flush
    ensures FlagOf(es[i := e], c) == FlagOf(es, c)
  {
    hide Find;
    FindFound(es, c);
    FindIs(es[i := e], c, Find(es, c));
  }

  lemma FlagInFront(e: Entry, es: seq<Entry>, c: nat)
    ensures FlagOf([e] + es, c) == if e.callback == c then Some(e.flush) else FlagOf(es, c)
  {
    assert ([e] + es)[1..] == es;
  }

  lemma FindFound(es: seq<Entry>, c: nat)
    ensures Find(es, c) < |es| ==> es[Find(es, c)].callback == c
    ensures Find(es, c) < |es| ==> es[Find(es, c)] in es
    ensures forall i :: 0 <= i < Find(es, c) ==> es[i].callback != c
  {}

  lemma {:induction false} FlagAddedAll(es: seq<Entry>, adds: seq<Add>, c: nat)
    requires Distinct(es)
    ensures FlagOf(AddedAll(es, adds), c) == if FlagOf(es, c).None? && Adds(adds, c) then Some(false) else FlagOf(es, c)
    decreases |adds|
  {
    hide FlagOf, Added, Distinct;
    if adds != [] {
      var front, a := adds[..|adds| - 1], adds[|adds| - 1];
      FlagAddedAll(es, front, c);
      AddedAllExtends(es, front);
      FlagAdded(AddedAll(es, front), a, c);
      assert adds == front + [a];
      AddsMore(front, a, c);
    }
  }

  lemma AddsMore(adds: seq<Add>, a: Add, c: nat)
    ensures Adds(adds + [a], c) <==> Adds(adds, c) || a.callback == c
  {
    var more := adds + [a];
    assert more[|adds|] == a && forall i :: 0 <= i < |adds| ==> more[i] == adds[i];
  }

  /** A call sets the flag of its own timer; it may add others, unflagged. */
  lemma {:induction false} FlagAfterCall(es: seq<Entry>, left: nat, b: Behaviour, c: nat)
    requires 0 < left <= |es| && Distinct(es)
    ensures FlagOf(AfterCall(es, left, b), c)
         == if c == es[|es| - left].callback then Some(b.result)
            else if FlagOf(es, c).None? && Adds(b.adds, c) then Some(false) else FlagOf(es, c)
  {
    hide FlagOf, AddedAll, AfterCall, Distinct, Extends;
    var es1, es2 := AddedAll(es, b.adds), AfterCall(es, left, b);
    var j := |es1| - left;
    AfterCallIs(es, left, b);
    AddedAllExtends(es, b.adds);
    AfterCallExtends(es, left, b);
    ExtendsAt(es1, es, left);
    FlagAt(es2, j);
    if c != es1[j].callback {
      FlagAddedAll(es, b.adds, c);
      FlagElsewhere(es1, j, es1[j].(flush := b.result), c);
    }
  }

  lemma ExtendsAt(r: seq<Entry>, es: seq<Entry>, left: nat)
    requires Extends(r, es) && 0 < left <= |es|
    ensures r[|r| - left].callback == es[|es| - left].callback
  {
    assert Callbacks(r)[|r| - |es|..][|es| - left] == Callbacks(es)[|es| - left];
  }

  lemma FlagElsewhere(es: seq<Entry>, j: nat, e: Entry, c: nat)
    requires j < |es| && e.callback == es[j].callback != c
    ensures FlagOf(es[j := e], c) == FlagOf(es, c)
  {
    hide Find;
    FindFound(es, c);
    var i := Find(es, c);
    FindIs(es[j := e], c, i);
  }

  /** The flag after some calls, told from the flag before: the `k`-th call and those
      after it behave as the script says. */
  function FlagAfter(calls: seq<Call>, script: nat -> Behaviour, k: nat, c: nat, before: Option<bool>): Option<bool>
    decreases |calls|
  {
    if calls == [] then before
    else
      var b := script(k);
      FlagAfter(calls[1..], script, k + 1, c,
                if calls[0].callback == c then Some(b.result)
                else if before.None? && Adds(b.adds, c) then Some(false) else before)
  }

  lemma {:induction false} WalkFlags(es: seq<Entry>, left: nat, now: int, script: nat -> Behaviour, k: nat, c: nat)
    requires left <= |es| && Distinct(es)
    ensures var r := Walked(es, left, now, script, k); FlagOf(r.0, c) == FlagAfter(r.1, script, k, c, FlagOf(es, c))
    decreases left
  {
    hide Walked, AfterCall, FlagOf, Distinct, Adds;
    WalkedIs(es, left, now, script, k);
    if left > 0 {
      var e := es[|es| - left];
      if now - e.then_ >= e.delay {
        var es2 := AfterCall(es, left, script(k));
        AfterCallExtends(es, left, script(k));
        FlagAfterCall(es, left, script(k), c);
        WalkFlags(es2, left - 1, now, script, k + 1, c);
        var r := Walked(es2, left - 1, now, script, k + 1);
        var call := Call(e.callback, now - e.then_);
        assert ([call] + r.1)[1..] == r.1;
      } else {
        WalkFlags(es, left - 1, now, script, k, c);
      }
    }
  }

  /** The callback is called in the step, as the `i`-th. */
  predicate CalledAt(calls: seq<Call>, c: nat, i: nat) {
    i < |calls| && calls[i].callback == c
  }

  /** Some call of the step adds a timer for the callback. */
  ghost predicate AddedBy(calls: seq<Call>, script: nat -> Behaviour, k: nat, c: nat) {
    exists i :: 0 <= i < |calls| && AddsAt(script, k, i, c)
  }

  predicate AddsAt(script: nat -> Behaviour, k: nat, i: nat, c: nat) {
    Adds(script(k + i).adds, c)
  }

  lemma {:induction false} FlagAfterIs(calls: seq<Call>, script: nat -> Behaviour, k: nat, c: nat, before: Option<bool>)
    requires forall i, j :: 0 <= i < j < |calls| ==> calls[i].callback != calls[j].callback
    ensures forall i: nat ::
      CalledAt(calls, c, i) ==> FlagAfter(calls, script, k, c, before) == Some(script(k + i).result)
    ensures (forall i: nat :: !CalledAt(calls, c, i)) ==>
      FlagAfter(calls, script, k, c, before) ==
        if before.None? && AddedBy(calls, script, k, c) then Some(false) else before
    decreases |calls|
  {
    if calls != [] {
      var rest, b := calls[1..], script(k);
      var mid := if calls[0].callback == c then Some(b.result)
                 else if before.None? && Adds(b.adds, c) then Some(false) else before;
      FlagAfterIs(rest, script, k + 1, c, mid);
      forall i: nat | CalledAt(calls, c, i)
        ensures FlagAfter(calls, script, k, c, before) == Some(script(k + i).result)
      {
        if i == 0 {
          assert forall j :: 0 <= j < |rest| ==> rest[j] == calls[j + 1];
          assert forall j: nat :: !CalledAt(rest, c, j);
        } else {
          assert CalledAt(rest, c, i - 1);
        }
      }
      if forall i: nat :: !CalledAt(calls, c, i) {
        assert !CalledAt(calls, c, 0);
        forall j: nat ensures !CalledAt(rest, c, j) { assert !CalledAt(calls, c, j + 1); }
        AddedByNext(calls, script, k, c);
      }
    }
  }

  lemma AddedByNext(calls: seq<Call>, script: nat -> Behaviour, k: nat, c: nat)
    requires calls != []
    ensures AddedBy(calls, script, k, c) <==> Adds(script(k).adds, c) || AddedBy(calls[1..], script, k + 1, c)
  {
    assert AddsAt(script, k, 0, c) <==> Adds(script(k).adds, c);
    if AddedBy(calls, script, k, c) {
      var i :| 0 <= i < |calls| && AddsAt(script, k, i, c);
      if i > 0 {
        assert k + 1 + (i - 1) == k + i;
        assert AddsAt(script, k + 1, i - 1, c);
      }
    }
    if AddedBy(calls[1..], script, k + 1, c) {
      var i :| 0 <= i < |calls[1..]| && AddsAt(script, k + 1, i, c);
      assert AddsAt(script, k, i + 1, c);
    }
  }

  lemma {:induction false} FlagSurvives(es: seq<Entry>, c: nat)
    requires Distinct(es)
    ensures FlagOf(Survivors(es), c) == if FlagOf(es, c) == Some(true) then None else FlagOf(es, c)
  {
    hide Survivors, Find, Distinct;
    var r, i := Survivors(es), Find(es, c);
    SurvivorsAre(es);
    FindFound(es, c);
    FindFound(r, c);
    if i < |es| {
      OnlyOne(es, i);
      if !es[i].flush {
        assert es[i] in r;
        var j :| 0 <= j < |r| && r[j] == es[i];
        FlagAt(r, j);
      }
    } else {
      FlagNone(es, c);
    }
  }

  lemma OnlyOne(es: seq<Entry>, i: nat)
    requires Distinct(es) && i < |es|
    ensures forall e :: e in es && e.callback == es[i].callback ==> e == es[i]
  {}

  /** Exactly which timers are flagged at the end of a step's walk, whatever the callbacks
      add or reset: a timer that was called carries what its one call returned, any other
      keeps its flag, and what was added for the first time is not flagged. */
  lemma {:induction false} StepFlags(es: seq<Entry>, now: int, script: nat -> Behaviour, c: nat)
    requires Distinct(es)
    ensures var r := Walked(es, |es|, now, script, 0);
      && (forall i: nat :: CalledAt(r.1, c, i) ==> FlagOf(r.0, c) == Some(script(i).result))
      && ((forall i: nat :: !CalledAt(r.1, c, i)) ==>
            FlagOf(r.0, c) == if FlagOf(es, c).None? && AddedBy(r.1, script, 0, c) then Some(false) else FlagOf(es, c))
  {
    hide Walked, FlagOf, Distinct, AddedBy, FlagAfter;
    var r := Walked(es, |es|, now, script, 0);
    WalkFlags(es, |es|, now, script, 0, c);
    StepCallsOnce(es, now, script);
    FlagAfterIs(r.1, script, 0, c, FlagOf(es, c));
  }

  /** The timer is in the queue after the step: it was there or some call added it, and
      neither its one call in this step returned true nor, uncalled, it was flagged. */
  lemma {:induction false} StepKeeps(es: seq<Entry>, now: int, script: nat -> Behaviour, c: nat)
    requires Distinct(es)
    ensures var r := Walked(es, |es|, now, script, 0); var queue := Survivors(r.0);
      && Distinct(queue) && (forall e :: e in queue ==> !e.flush)
      && (FlagOf(queue, c).Some? <==>
            && (FlagOf(es, c).Some? || AddedBy(r.1, script, 0, c))
            && (forall i: nat :: CalledAt(r.1, c, i) ==> !script(i).result)
            && (FlagOf(es, c) == Some(true) ==> exists i: nat :: CalledAt(r.1, c, i)))
  {
    hide Walked, Survivors, FlagOf, Distinct, AddedBy, CalledAt;
    var r := Walked(es, |es|, now, script, 0);
    StepFlags(es, now, script, c);
    WalkCallsEachOnce(es, |es|, now, script, 0);
    SurvivorsAre(r.0);
    FlagSurvives(r.0, c);
    CalledIsQueued(es, now, script, c);
  }

  lemma {:induction false} CalledIsQueued(es: seq<Entry>, now: int, script: nat -> Behaviour, c: nat)
    requires Distinct(es)
    ensures var r := Walked(es, |es|, now, script, 0); forall i: nat :: CalledAt(r.1, c, i) ==> FlagOf(es, c).Some?
  {
    hide Walked, Distinct, FlagOf;
    var r := Walked(es, |es|, now, script, 0);
    WalkCallsEachOnce(es, |es|, now, script, 0);
    StepCallsOnce(es, now, script);
    FlagNone(es, c);
    forall i: nat | CalledAt(r.1, c, i) ensures FlagOf(es, c).Some? {
      assert r.1[i].callback in Callbacks(es);
      var j :| 0 <= j < |es| && Callbacks(es)[j] == c;
      assert es[j] in es;
    }
  }

  /** A step, in which the callbacks do what the script says, or a call of `d3.timer`
      between two steps. */
  datatype Event = Step(now: int, script: nat -> Behaviour) | Between(add: Add)

  function AfterEvent(es: seq<Entry>, e: Event): seq<Entry> {
    match e
    case Step(now, script) => Survivors(Walked(es, |es|, now, script, 0).0)
    case Between(a) => Added(es, a)
  }

  function AfterEvents(es: seq<Entry>, events: seq<Event>): (r: seq<Entry>)
    decreases |events|
  {
    if events == [] then es else AfterEvent(AfterEvents(es, events[..|events| - 1]), events[|events| - 1])
  }

  /** The timer is added by a callback of the step, or by the call. */
  ghost predicate IsAdded(es: seq<Entry>, e: Event, c: nat) {
    match e
    case Step(now, script) => AddedBy(Walked(es, |es|, now, script, 0).1, script, 0, c)
    case Between(a) => a.callback == c
  }

  /** The timer is called in the step and returns true. */
  ghost predicate ReturnsTrue(es: seq<Entry>, e: Event, c: nat) {
    && e.Step?
    && exists i: nat :: CalledAt(Walked(es, |es|, e.now, e.script, 0).1, c, i) && e.script(i).result
  }

  /** What d3 promises of a timer, that it fires until its callback returns true: over any
      steps and calls, it enters the queue when it is added and leaves it in the step in
      which its call returns true, and at no other time. */
  lemma {:induction false} StaysUntilTrue(es: seq<Entry>, events: seq<Event>, n: nat, c: nat)
    requires Distinct(es) && (forall e :: e in es ==> !e.flush) && n < |events|
    ensures var before, after := AfterEvents(es, events[..n]), AfterEvents(es, events[..n + 1]);
      FlagOf(after, c).Some? <==>
        (FlagOf(before, c).Some? || IsAdded(before, events[n], c)) && !ReturnsTrue(before, events[n], c)
  {
    hide Walked, Survivors, FlagOf, Distinct, AddedBy, CalledAt, Added;
    assert events[..n + 1][..n] == events[..n];
    EventsKeepQueue(es, events[..n]);
    EventKeeps(AfterEvents(es, events[..n]), events[n], c);
  }

  lemma {:induction false} EventKeeps(es: seq<Entry>, e: Event, c: nat)
    requires Distinct(es) && forall e :: e in es ==> !e.flush
    ensures var after := AfterEvent(es, e);
      && Distinct(after) && (forall e :: e in after ==> !e.flush)
      && (FlagOf(after, c).Some? <==> (FlagOf(es, c).Some? || IsAdded(es, e, c)) && !ReturnsTrue(es, e, c))
  {
    hide Walked, Survivors, FlagOf, Distinct, AddedBy, CalledAt, Added;
    Unflagged(es, c);
    match e
    case Step(now, script) => StepKeeps(es, now, script, c);
    case Between(a) =>
      FlagAdded(es, a, c);
      AddedExtends(es, a);
      AddedUnflagged(es, a);
  }

  lemma AddedUnflagged(es: seq<Entry>, a: Add)
    requires forall e :: e in es ==> !e.flush
    ensures forall e :: e in Added(es, a) ==> !e.flush
  {}

  lemma Unflagged(es: seq<Entry>, c: nat)
    requires forall e :: e in es ==> !e.flush
    ensures FlagOf(es, c) != Some(true)
  {
    var i := Find(es, c);
    assert i < |es| ==> es[i] in es;
  }

  lemma {:induction false} EventsKeepQueue(es: seq<Entry>, events: seq<Event>)
    requires Distinct(es) && forall e :: e in es ==> !e.flush
    ensures Distinct(AfterEvents(es, events)) && forall e :: e in AfterEvents(es, events) ==> !e.flush
    decreases |events|
  {
    hide Distinct, AfterEvent;
    if events != [] {
      var n := |events| - 1;
      EventsKeepQueue(es, events[..n]);
      EventKeeps(AfterEvents(es, events[..n]), events[n], 0);
    }
  }

  /** Adding a timer again does not clear a flag: it is in the queue after the flush if
      and only if it was not flagged. */
  lemma ReaddedIsDropped(es: seq<Entry>, a: Add)
    requires Distinct(es)
    ensures FlagOf(Survivors(Added(es, a)), a.callback).Some? <==> FlagOf(es, a.callback) != Some(true)
  {
    hide Survivors, Find, Added, Distinct, FlagOf;
    AddedExtends(es, a);
    FlagAdded(es, a, a.callback);
    FlagSurvives(Added(es, a), a.callback);
  }

  /** So a timer whose callback has returned true is gone although a later callback of the
      same step adds it again. */
  lemma ReaddedInStep()
    ensures var es := [Entry(0, 0, 0, false), Entry(1, 0, 0, false)];
            var script: nat -> Behaviour := k =>
              if k == 0 then Behaviour([], true) else Behaviour([Add(0, 0, 0)], false);
      Survivors(Walked(es, 2, 0, script, 0).0) == [Entry(1, 0, 0, false)]
  {
    var a, b := Entry(0, 0, 0, false), Entry(1, 0, 0, false);
    var es := [a, b];
    var script: nat -> Behaviour := k => if k == 0 then Behaviour([], true) else Behaviour([Add(0, 0, 0)], false);
    var es1 := [a.(flush := true), b];
    assert AfterCall(es, 2, script(0)) == es1;
    assert AddedAll(es1, [Add(0, 0, 0)]) == es1 by {
      assert [Add(0, 0, 0)][..0] == [];
      assert Added(es1, Add(0, 0, 0)) == es1;
    }
    assert AfterCall(es1, 1, script(1)) == es1;
    WalkedIs(es, 2, 0, script, 0);
    WalkedIs(es1, 1, 0, script, 1);
    WalkedIs(es1, 0, 0, script, 2);
    assert Survivors(es1[..1]) == [] by { assert es1[..1] == [a.(flush := true)]; }
  }

  // ---------------------------------------------------------------------------
  // The linked list
  // ---------------------------------------------------------------------------

  class Timer {
    const callback: nat
    var then_: int
    var delay: int
    var flush: bool
    var next: Timer?

    constructor (callback: nat, then_: int, delay: int, next: Timer?)
      ensures this.callback == callback && this.then_ == then_ && this.delay == delay && !flush && this.next == next
    {
      this.callback, this.then_, this.delay, this.flush, this.next := callback, then_, delay, false, next;
    }

    ghost function View(): Entry
      reads this
    {
      Entry(callback, then_, delay, flush)
    }
  }

  /** `first` leads through exactly these timers. */
  ghost predicate Links(first: Timer?, ts: seq<Timer>)
    reads (set t | t in ts)`next
  {
    && (ts == [] <==> first == null)
    && (ts != [] ==> first == ts[0] && ts[|ts| - 1].next == null)
    && (forall i :: 0 <= i < |ts| - 1 ==> ts[i].next == ts[i + 1])
  }

  ghost predicate AllDifferent(ts: seq<Timer>) {
    forall i, j :: 0 <= i < j < |ts| ==> ts[i] != ts[j]
  }

  ghost function Views(ts: seq<Timer>): (es: seq<Entry>)
    reads ts
    ensures |es| == |ts| && forall i :: 0 <= i < |ts| ==> es[i] == ts[i].View()
  {
    seq(|ts|, i requires 0 <= i < |ts| reads ts => ts[i].View())
  }

  class Queue {
    var head: Timer?
    var interval: bool              // is a frame requested?
    ghost var timers: seq<Timer>
    ghost var repr: set<Timer>

    constructor ()
      ensures Valid() && Entries() == [] && repr == {}
    {
      head, interval, timers, repr := null, false, [], {};
    }

    /** A proper list; callbacks are pairwise distinct. */
    ghost predicate Valid()
      reads this, repr
    {
      && (forall i :: 0 <= i < |timers| ==> timers[i] in repr)
      && Links(head, timers) && AllDifferent(timers) && Distinct(Views(timers))
    }

    ghost function Entries(): seq<Entry>
      reads this, timers
    {
      Views(timers)
    }

    /** The timer of the callback, if it is in the list. */
    method Search(callback: nat) returns (t1: Timer?, ghost i: nat)
      requires Valid()
      ensures i == Find(Entries(), callback)
      ensures if i < |timers| then t1 == timers[i] else t1 == null
    {
      t1, i := head, 0;
      while t1 != null && t1.callback != callback
        invariant i <= |timers| && t1 == if i < |timers| then timers[i] else null
        invariant forall k :: 0 <= k < i ==> timers[k].callback != callback
        decreases |timers| - i
      {
        t1 := t1.next;
        i := i + 1;
      }
      FindIs(Entries(), callback, i);
    }

    /** `d3.timer(callback, delay, then)`. */
    method Add(a: Add)
      requires Valid()
      modifies this, repr
      ensures Valid() && Entries() == Added(old(Entries()), a) && interval
      ensures |timers| >= |old(timers)| && old(timers) == timers[|timers| - |old(timers)|..]
      ensures fresh(repr - old(repr))
    {
      hide Find, Distinct, Links, AllDifferent, Added, Views, Extends, Callbacks;
      ghost var es := Entries();
      AddedExtends(es, a);
      AddedIs(es, a);
      var found;
      ghost var i;
      found, i := Search(a.callback);
      if found != null {
        Reset(found, i, a);
        assert timers == old(timers) && timers[0..] == timers;
      } else {
        Prepend(a);
      }
      RequestFrame();
    }

    method RequestFrame()
      requires Valid()
      modifies `interval
      ensures Valid() && Entries() == old(Entries()) && interval
    {
      hide Distinct, Links, AllDifferent, Views;
      interval := true;
    }

    /** The timer is in the list already: only its times change. */
    method Reset(t1: Timer, ghost i: nat, a: Add)
      requires Valid() && i < |timers| && t1 == timers[i]
      modifies t1`then_, t1`delay
      ensures Valid() && Entries() == old(Entries())[i := old(Entries())[i].(then_ := a.then_, delay := a.delay)]
    {
      hide Distinct, Views, AllDifferent;
      ghost var es := Entries();
      OthersDiffer(timers, i);
      t1.then_ := a.then_;
      t1.delay := a.delay;
      ViewsUpdated(timers, i, es, es[i].(then_ := a.then_, delay := a.delay));
      SameCallbacks(es, es, Entries());
    }

    method Prepend(a: Add)
      requires Valid() && Distinct([Entry(a.callback, a.then_, a.delay, false)] + Entries())
      modifies this
      ensures Valid() && Entries() == [Entry(a.callback, a.then_, a.delay, false)] + old(Entries())
      ensures |timers| == |old(timers)| + 1 && timers[1..] == old(timers) && fresh(repr - old(repr))
    {
      hide Distinct, Links, AllDifferent, Views;
      head := new Timer(a.callback, a.then_, a.delay, head);
      Linked(head, timers);
      timers, repr := [head] + timers, repr + {head};
    }

    /** A callback's own calls of `d3.timer`. */
    method AddAll(adds: seq<Add>)
      requires Valid()
      modifies this, repr
      ensures Valid() && Entries() == AddedAll(old(Entries()), adds)
      ensures |timers| >= |old(timers)| && old(timers) == timers[|timers| - |old(timers)|..]
      ensures fresh(repr - old(repr))
      ensures adds != [] ==> interval
    {
      hide Added, AddedAll, Links, AllDifferent, Distinct, Views;
      AddedNone(Entries(), adds);
      assert old(timers) == timers[|timers| - |old(timers)|..];
      for i := 0 to |adds|
        invariant Valid() && Entries() == AddedAll(old(Entries()), adds[..i])
        invariant |timers| >= |old(timers)| && old(timers) == timers[|timers| - |old(timers)|..]
        invariant fresh(repr - old(repr))
        invariant i > 0 ==> interval
      {
        AddedNext(old(Entries()), adds, i);
        ghost var before := timers;
        Add(adds[i]);
        TailOfTail(timers, |timers| - |before|, |before| - |old(timers)|);
      }
    }

    /** Calls one timer, the `left`-th from the end, and keeps its result. */
    method CallTimer(t1: Timer, b: Behaviour, ghost left: nat)
      requires Valid() && 0 < left <= |timers| && t1 == timers[|timers| - left]
      modifies this, repr
      ensures Valid() && Entries() == AfterCall(old(Entries()), left, b)
      ensures left <= |timers| && t1 == timers[|timers| - left] && fresh(repr - old(repr))
    {
      hide AddedAll, Distinct, Links, AllDifferent, Views, AfterCall;
      ghost var es, before := Entries(), timers;
      AddAll(b.adds);
      TailAt(timers, before, left);
      AfterCallIs(es, left, b);
      SetFlush(t1, |timers| - left, b.result);
    }

    method SetFlush(t1: Timer, ghost i: nat, result: bool)
      requires Valid() && i < |timers| && t1 == timers[i]
      modifies t1`flush
      ensures Valid() && Entries() == old(Entries())[i := old(Entries())[i].(flush := result)]
    {
      hide Distinct, Views, AllDifferent;
      ghost var es := Entries();
      OthersDiffer(timers, i);
      t1.flush := result;
      ViewsUpdated(timers, i, es, es[i].(flush := result));
      SameCallbacks(es, es, Entries());
    }

    /** The walk of `d3_timer_step`; `script(k)` is what the `k`-th callback does. */
    method Walk(now: int, script: nat -> Behaviour) returns (calls: seq<Call>)
      requires Valid()
      modifies this, repr
      ensures Valid() && (Entries(), calls) == Walked(old(Entries()), |old(Entries())|, now, script, 0)
      ensures fresh(repr - old(repr))
    {
      hide AfterCall, Walked, AllDifferent, Distinct, Views;
      var t1 := head;
      var k: nat := 0;
      calls := [];
      ghost var left: nat := |timers|;
      ghost var all := Walked(Entries(), left, now, script, 0);
      assert all.1 == [] + all.1;
      while t1 != null
        invariant Valid() && left <= |timers| && t1 == if left > 0 then timers[|timers| - left] else null
        invariant fresh(repr - old(repr))
        invariant all == (Walked(Entries(), left, now, script, k).0, calls + Walked(Entries(), left, now, script, k).1)
        decreases left
      {
        WalkedIs(Entries(), left, now, script, k);
        var elapsed := now - t1.then_;
        if elapsed >= t1.delay {
          CallTimer(t1, script(k), left);
          ghost var rest := Walked(Entries(), left - 1, now, script, k + 1).1;
          assert calls + ([Call(t1.callback, elapsed)] + rest) == calls + [Call(t1.callback, elapsed)] + rest;
          calls := calls + [Call(t1.callback, elapsed)];
          k := k + 1;
        }
        t1 := t1.next;
        left := left - 1;
      }
      WalkedIs(Entries(), 0, now, script, k);
      assert calls + [] == calls;
    }

    /** `d3_timer_flush`: unlinks the flagged timers in place, and returns the earliest
        time among the others. */
    method Flush() returns (then_: Option<int>)
      requires Valid()
      modifies this, repr
      ensures Valid() && Entries() == Survivors(old(Entries())) && then_ == Earliest(Entries())
      ensures timers == Kept(old(timers), old(Entries())) && repr == old(repr) && interval == old(interval)
      ensures forall t :: t in old(timers) ==> t.View() == old(t.View())
    {
      hide Distinct, Survivors, Earliest, Kept, AllDifferent, Views, Links;
      ghost var all, es := timers, Entries();
      ghost var kept;
      then_, kept := Unlink();
      timers := kept;
      KeptMembers(all, es);
      forall k | 0 <= k < |kept| ensures kept[k] in repr { assert kept[k] in all; }
      KeptViews(all, es);
      SurvivorsAre(es);
    }

    /** The loop: afterwards the links lead through the timers that are kept. */
    method Unlink() returns (then_: Option<int>, ghost kept: seq<Timer>)
      requires Valid()
      modifies this`head, repr`next
      ensures kept == Kept(timers, old(Entries())) && Links(head, kept)
      ensures forall k :: 0 <= k < |timers| ==> timers[k].View() == old(Entries())[k]
      ensures then_ == Earliest(Survivors(old(Entries())))
    {
      hide Distinct, Survivors, Earliest, Kept, AllDifferent, Views, Sooner, Following, Links;
      var t0: Timer?, t1 := null, head;
      then_, kept := None, [];
      ghost var all, es, i := timers, Entries(), 0;
      FlushStart(all, es);
      ListIs(head, all);
      while t1 != null
        invariant i <= |all| && kept == Kept(all[..i], es[..i])
        invariant t1 == if i < |all| then all[i] else null
        invariant t0 == if kept == [] then null else kept[|kept| - 1]
        invariant forall k {:trigger all[k]} :: i <= k < |all| ==> all[k].next == Following(all, k)
        invariant if kept == [] then head == t1 else head == kept[0] && kept[|kept| - 1].next == t1
        invariant forall k :: 0 <= k < |kept| - 1 ==> kept[k].next == kept[k + 1]
        invariant forall k :: 0 <= k < |all| ==> all[k].View() == es[k]
        invariant then_ == Earliest(Survivors(es[..i]))
        decreases |all| - i
      {
        FlushNext(all, es, i);
        KeptEarlier(all, es, i);
        assert t0 != null ==> forall m :: i <= m < |all| ==> t0 != all[m];
        FollowingIs(all, i);
        if t1.flush {
          t1 := t1.next;
          if t0 != null { t0.next := t1; } else { head := t1; }
        } else {
          then_ := Sooner(then_, t1.then_ + t1.delay);
          kept := kept + [t1];
          t0 := t1;
          t1 := t1.next;
        }
        i := i + 1;
      }
      assert all[..i] == all && es[..i] == es;
      KeptEarlier(all, es, i);
      ListMade(head, kept);
    }

    /** `d3_timer_step` at time `now`: the timers called, and whether a frame stays
        requested; otherwise the delay after which to wake up, if any. */
    method Step(now: int, script: nat -> Behaviour) returns (calls: seq<Call>, wake: Option<int>)
      requires Valid()
      modifies this, repr
      ensures Valid() && fresh(repr - old(repr))
      ensures var walked := Walked(old(Entries()), |old(Entries())|, now, script, 0);
              calls == walked.1 && Entries() == Survivors(walked.0)
      ensures interval <==> DueBy(Entries(), now + 24)
      ensures !interval ==> wake == if Entries() == [] then None else Some(Earliest(Entries()).value - now)
    {
      hide Walked, Survivors, Earliest, Links, Views, AllDifferent, Distinct, Kept, DueBy;
      ghost var es := Entries();
      calls := Walk(now, script);
      var first := Flush();
      SomeDue(Entries(), now + 24);
      wake := None;
      if first.None? || first.value - now > 24 {
        if first.Some? { wake := Some(first.value - now); }
        interval := false;
      } else {
        interval := true;
      }
    }
  }

  /** The timers whose entries are not flagged. */
  ghost function Kept(ts: seq<Timer>, es: seq<Entry>): (r: seq<Timer>)
    requires |ts| == |es|
  {
    if ts == [] then []
    else Kept(ts[..|ts| - 1], es[..|ts| - 1]) + (if es[|ts| - 1].flush then [] else [ts[|ts| - 1]])
  }

  ghost function Following(ts: seq<Timer>, k: nat): Timer? {
    if k + 1 < |ts| then ts[k + 1] else null
  }

  lemma FollowingIs(ts: seq<Timer>, k: nat)
    ensures Following(ts, k) == if k + 1 < |ts| then ts[k + 1] else null
  {}

  lemma ListIs(first: Timer?, ts: seq<Timer>)
    requires Links(first, ts)
    ensures first == if ts == [] then null else ts[0]
    ensures forall k {:trigger ts[k]} :: 0 <= k < |ts| ==> ts[k].next == Following(ts, k)
  {
    forall k | 0 <= k < |ts| ensures ts[k].next == Following(ts, k) {
      if k < |ts| - 1 { assert ts[k].next == ts[k + 1]; }
    }
  }

  lemma Linked(first: Timer, ts: seq<Timer>)
    requires Links(first.next, ts) && AllDifferent(ts) && first !in ts
    ensures Links(first, [first] + ts) && AllDifferent([first] + ts)
    ensures Views([first] + ts) == [first.View()] + Views(ts)
  {}

  lemma ListMade(first: Timer?, ts: seq<Timer>)
    requires if ts == [] then first == null else first == ts[0] && ts[|ts| - 1].next == null
    requires forall k :: 0 <= k < |ts| - 1 ==> ts[k].next == ts[k + 1]
    ensures Links(first, ts)
  {}

  lemma {:induction false} KeptMembers(ts: seq<Timer>, es: seq<Entry>)
    requires |ts| == |es| && AllDifferent(ts)
    ensures AllDifferent(Kept(ts, es)) && forall t :: t in Kept(ts, es) ==> t in ts
    decreases |ts|
  {
    if ts != [] {
      var n := |ts| - 1;
      var front := Kept(ts[..n], es[..n]);
      KeptMembers(ts[..n], es[..n]);
      forall k | 0 <= k < |front| ensures front[k] != ts[n] && front[k] in ts {
        assert front[k] in ts[..n];
      }
    }
  }

  lemma KeptEarlier(ts: seq<Timer>, es: seq<Entry>, i: nat)
    requires i <= |ts| == |es| && AllDifferent(ts)
    ensures var kept := Kept(ts[..i], es[..i]);
            && (forall k, m :: 0 <= k < |kept| && i <= m < |ts| ==> kept[k] != ts[m])
            && (forall k :: 0 <= k < |kept| ==> kept[k] in ts)
            && (forall k, m :: 0 <= k < m < |kept| ==> kept[k] != kept[m])
  {
    var kept := Kept(ts[..i], es[..i]);
    KeptMembers(ts[..i], es[..i]);
    forall k | 0 <= k < |kept| ensures kept[k] in ts && forall m :: i <= m < |ts| ==> kept[k] != ts[m] {
      assert kept[k] in ts[..i];
    }
  }

  lemma {:induction false} KeptViews(ts: seq<Timer>, es: seq<Entry>)
    requires |ts| == |es| && forall k :: 0 <= k < |ts| ==> ts[k].View() == es[k]
    ensures Views(Kept(ts, es)) == Survivors(es)
    decreases |ts|
  {
    if ts != [] {
      var n := |ts| - 1;
      KeptViews(ts[..n], es[..n]);
      if !es[n].flush {
        assert Views(Kept(ts[..n], es[..n]) + [ts[n]]) == Views(Kept(ts[..n], es[..n])) + [ts[n].View()];
      }
    }
  }

  lemma FlushStart(ts: seq<Timer>, es: seq<Entry>)
    requires |ts| == |es|
    ensures Kept(ts[..0], es[..0]) == [] && Earliest(Survivors(es[..0])) == None
  {}

  lemma FlushNext(ts: seq<Timer>, es: seq<Entry>, i: nat)
    requires i < |ts| == |es|
    ensures Kept(ts[..i + 1], es[..i + 1]) == Kept(ts[..i], es[..i]) + (if es[i].flush then [] else [ts[i]])
    ensures Earliest(Survivors(es[..i + 1]))
         == if es[i].flush then Earliest(Survivors(es[..i]))
            else Sooner(Earliest(Survivors(es[..i])), es[i].then_ + es[i].delay)
  {
    hide Earliest;
    assert ts[..i + 1][..i] == ts[..i] && es[..i + 1][..i] == es[..i];
    EarliestOfMore(Survivors(es[..i]), es[i]);
  }

  /** The smaller of a time so far and another one. */
  function Sooner(m: Option<int>, t: int): Option<int> {
    if m.Some? && m.value <= t then m else Some(t)
  }

  lemma EarliestOfMore(es: seq<Entry>, e: Entry)
    ensures Earliest(es + [e]) == Sooner(Earliest(es), e.then_ + e.delay)
    ensures Earliest(es + []) == Earliest(es)
  {
    assert (es + [e])[..|es|] == es && es + [] == es;
  }

  lemma OthersDiffer(ts: seq<Timer>, i: nat)
    requires AllDifferent(ts) && i < |ts|
    ensures forall k :: 0 <= k < |ts| && k != i ==> ts[k] != ts[i]
  {}

  lemma TailAt<T>(s: seq<T>, before: seq<T>, left: nat)
    requires 0 < left <= |before| <= |s| && s[|s| - |before|..] == before
    ensures s[|s| - left] == before[|before| - left]
  {}

  lemma TailOfTail<T>(s: seq<T>, i: nat, j: nat)
    requires i + j <= |s|
    ensures s[i..][j..] == s[i + j..]
  {}

  lemma AfterCallIs(es: seq<Entry>, left: nat, b: Behaviour)
    requires 0 < left <= |es|
    ensures var es1 := AddedAll(es, b.adds); var j := |es1| - left;
            AfterCall(es, left, b) == es1[j := es1[j].(flush := b.result)]
  {}

  lemma AddedNone(es: seq<Entry>, adds: seq<Add>)
    ensures AddedAll(es, adds[..0]) == es && adds[..|adds|] == adds
  {}

  lemma AddedNext(es: seq<Entry>, adds: seq<Add>, i: nat)
    requires i < |adds|
    ensures AddedAll(es, adds[..i + 1]) == Added(AddedAll(es, adds[..i]), adds[i])
  {
    assert adds[..i + 1][..i] == adds[..i];
  }

  lemma AddedIs(es: seq<Entry>, a: Add)
    ensures var i := Find(es, a.callback);
            Added(es, a) == if i < |es| then es[i := es[i].(then_ := a.then_, delay := a.delay)]
                            else [Entry(a.callback, a.then_, a.delay, false)] + es
  {}

  lemma ViewsUpdated(ts: seq<Timer>, i: nat, es: seq<Entry>, e: Entry)
    requires i < |ts| == |es| && ts[i].View() == e && forall k :: 0 <= k < |ts| && k != i ==> ts[k].View() == es[k]
    ensures Views(ts) == es[i := e]
  {}

  lemma FindIs(es: seq<Entry>, callback: nat, i: nat)
    requires i <= |es| && (i < |es| ==> es[i].callback == callback)
    requires forall k :: 0 <= k < i ==> es[k].callback != callback
    ensures Find(es, callback) == i
  {
    var k := Find(es, callback);
    assert !(k < i) && !(i < k);
  }
}
