/** The command pipe of the load simulator: a ring of simulated hosts that several worker
    threads share. A worker takes the host at the front, sleeps until a run interval has
    passed since the host's last update, stamps it and puts it back at the end. Times are
    in milliseconds. */
module Throttle {

  import opened Options

  datatype Record = Record(id: nat, updated: real)

  /** Where a worker is in its call of `next`. */
  datatype Phase =
    | Idle
    | Holding(record: Record)                    // has popped the record
    | Sleeping(record: Record, wake: real)       // sleeps until `wake` at least
    | Ready(record: Record)                      // has slept enough
    | Stamped(record: Record)                    // has set `updated`

  datatype Stamp = Stamp(host: nat, time: real)

  datatype State = State(queue: seq<Record>, workers: seq<Phase>, clock: real, log: seq<Stamp>)

  /** One worker takes one step, and the clock says `now`. */
  datatype Action = Pop(w: nat, now: real) | Check(w: nat, now: real) | Wake(w: nat, now: real)
                  | Set(w: nat, now: real) | Append(w: nat, now: real)

  // ---------------------------------------------------------------------------
  // Steps
  // ---------------------------------------------------------------------------

  ghost predicate Enabled(s: State, a: Action) {
    && a.w < |s.workers| && s.clock <= a.now
    && var phase := s.workers[a.w];
       match a
       case Pop(_, _) => phase.Idle?
       case Check(_, _) => phase.Holding?
       case Wake(_, now) => phase.Sleeping? && phase.wake <= now
       case Set(_, _) => phase.Ready?
       case Append(_, _) => phase.Stamped?
  }

  /** The phase after looking at the clock: the sleep asked for is what is left of the
      interval. */
  function Checked(r: Record, interval: real, now: real): (p: Phase)
    ensures p == if now < r.updated + interval then Sleeping(r, r.updated + interval) else Ready(r)
  {
    var elapsed := now - r.updated;
    if elapsed < interval then Sleeping(r, now + (interval - elapsed)) else Ready(r)
  }

  function Next(s: State, a: Action, interval: real): (t: State)
    requires Enabled(s, a)
    ensures |t.workers| == |s.workers|
  {
    var phase := s.workers[a.w];
    match a
    case Pop(w, now) =>
      // an empty deque raises, and nothing changes
      if s.queue == [] then s.(clock := now)
      else s.(queue := s.queue[1..], workers := s.workers[w := Holding(s.queue[0])], clock := now)
    case Check(w, now) => s.(workers := s.workers[w := Checked(phase.record, interval, now)], clock := now)
    case Wake(w, now) => s.(workers := s.workers[w := Ready(phase.record)], clock := now)
    case Set(w, now) =>
      s.(workers := s.workers[w := Stamped(Record(phase.record.id, now))], clock := now,
         log := s.log + [Stamp(phase.record.id, now)])
    case Append(w, now) => s.(queue := s.queue + [phase.record], workers := s.workers[w := Idle], clock := now)
  }

  /** The hosts as the constructor makes them, `step` apart. */
  function Records(n: nat, splay: real, step: real): (rs: seq<Record>)
    ensures |rs| == n && forall i :: 0 <= i < n ==> rs[i].id == i
  {
    if n == 0 then [] else Records(n - 1, splay, step) + [Record(n - 1, splay + (n - 1) as real * step)]
  }

  /** The first updates are part of the log. */
  function LogOf(rs: seq<Record>): (log: seq<Stamp>)
    ensures |log| == |rs| && forall i :: 0 <= i < |rs| ==> log[i] == Stamp(rs[i].id, rs[i].updated)
  {
    seq(|rs|, i requires 0 <= i < |rs| => Stamp(rs[i].id, rs[i].updated))
  }

  function Initial(rs: seq<Record>, workers: nat, clock: real): State {
    State(rs, seq(workers, _ => Idle), clock, LogOf(rs))
  }

  // ---------------------------------------------------------------------------
  // Every host is in one place
  // ---------------------------------------------------------------------------

  datatype Place = InQueue(i: nat) | With(w: nat)

  function RecordAt(s: State, p: Place): Option<Record> {
    match p
    case InQueue(i) => if i < |s.queue| then Some(s.queue[i]) else None
    case With(w) => if w < |s.workers| && !s.workers[w].Idle? then Some(s.workers[w].record) else None
  }

  predicate IsAt(s: State, p: Place, h: nat) {
    RecordAt(s, p).Some? && RecordAt(s, p).value.id == h
  }

  /** Each of the `n` hosts is queued once or held by one worker, and no other host is. */
  ghost predicate Placed(s: State, n: nat) {
    && (forall h: nat :: h < n ==> Present(s, h))
    && (forall p, h: nat :: IsAt(s, p, h) ==> h < n)
    && (forall p, q, h: nat :: IsAt(s, p, h) && IsAt(s, q, h) ==> p == q)
  }

  ghost predicate Present(s: State, h: nat) {
    exists p :: IsAt(s, p, h)
  }

  /** A step moves at most one host, and keeps track of where each one came from. */
  function Source(s: State, a: Action, p: Place): Place {
    if a.Pop? && s.queue != [] then
      if p == With(a.w) then InQueue(0) else if p.InQueue? then InQueue(p.i + 1) else p
    else if a.Append? && p == InQueue(|s.queue|) then With(a.w)
    else p
  }

  function Target(s: State, a: Action, p: Place): Place {
    if a.Pop? && s.queue != [] then
      if p == InQueue(0) then With(a.w) else if p.InQueue? then InQueue(p.i - 1) else p
    else if a.Append? && p == With(a.w) then InQueue(|s.queue|)
    else p
  }

  lemma {:induction false} Moves(s: State, a: Action, interval: real, p: Place, h: nat)
    requires Enabled(s, a)
    ensures IsAt(Next(s, a, interval), p, h) ==> IsAt(s, Source(s, a, p), h) && Target(s, a, Source(s, a, p)) == p
    ensures IsAt(s, p, h) ==> IsAt(Next(s, a, interval), Target(s, a, p), h)
  {}

  lemma {:induction false} NextPlaced(s: State, a: Action, interval: real, n: nat)
    requires Enabled(s, a) && Placed(s, n)
    ensures Placed(Next(s, a, interval), n)
  {
    hide Next, IsAt, Source, Target, Enabled;
    var t := Next(s, a, interval);
    forall h: nat | h < n ensures Present(t, h) {
      assert Present(s, h);
      var p :| IsAt(s, p, h);
      Moves(s, a, interval, p, h);
      assert IsAt(t, Target(s, a, p), h);
    }
    forall p, h: nat | IsAt(t, p, h) ensures h < n { Moves(s, a, interval, p, h); }
    forall p, q, h: nat | IsAt(t, p, h) && IsAt(t, q, h) ensures p == q {
      Moves(s, a, interval, p, h);
      Moves(s, a, interval, q, h);
    }
  }

  // ---------------------------------------------------------------------------
  // Stamps of one host are an interval apart
  // ---------------------------------------------------------------------------

  ghost predicate Spaced(log: seq<Stamp>, interval: real) {
    forall i, j :: 0 <= i < j < |log| && log[i].host == log[j].host ==> log[j].time - log[i].time >= interval
  }

  /** No stamp of the record's host is later than the record says. */
  ghost predicate UpToDate(r: Record, log: seq<Stamp>) {
    forall i :: 0 <= i < |log| && log[i].host == r.id ==> log[i].time <= r.updated
  }

  /** Whoever is to stamp has waited long enough. */
  ghost predicate Waited(p: Phase, clock: real, interval: real) {
    && (p.Sleeping? ==> p.record.updated + interval <= p.wake)
    && (p.Ready? ==> p.record.updated + interval <= clock)
  }

  ghost predicate Timed(s: State, n: nat, interval: real) {
    && (forall p :: RecordAt(s, p).Some? ==> UpToDate(RecordAt(s, p).value, s.log))
    && (forall w :: 0 <= w < |s.workers| ==> Waited(s.workers[w], s.clock, interval))
    && (forall i :: 0 <= i < |s.log| ==> s.log[i].host < n)
    && Spaced(s.log, interval)
  }

  ghost predicate Inv(s: State, n: nat, interval: real) {
    Placed(s, n) && Timed(s, n, interval)
  }

  lemma {:induction false} SetTimed(s: State, a: Action, interval: real, n: nat)
    requires a.Set? && Enabled(s, a) && Placed(s, n) && Timed(s, n, interval) && interval >= 0.0
    ensures Timed(Next(s, a, interval), n, interval)
  {
    hide Placed;
    var t, r := Next(s, a, interval), s.workers[a.w].record;
    var me := With(a.w);
    assert RecordAt(s, me) == Some(r) && UpToDate(r, s.log) && Waited(s.workers[a.w], s.clock, interval);
    InRange(s, n, me, r.id);
    forall p | RecordAt(t, p).Some? ensures UpToDate(RecordAt(t, p).value, t.log) {
      if p != me {
        assert RecordAt(t, p) == RecordAt(s, p) && UpToDate(RecordAt(s, p).value, s.log);
        Elsewhere(s, n, me, p, r.id);
      }
    }
    forall w | 0 <= w < |t.workers| ensures Waited(t.workers[w], t.clock, interval) {
      assert Waited(s.workers[w], s.clock, interval);
    }
  }

  lemma InRange(s: State, n: nat, p: Place, h: nat)
    requires Placed(s, n) && IsAt(s, p, h)
    ensures h < n
  {}

  lemma Elsewhere(s: State, n: nat, p: Place, q: Place, h: nat)
    requires Placed(s, n) && IsAt(s, p, h) && q != p
    ensures !IsAt(s, q, h)
  {}

  lemma {:induction false} OtherTimed(s: State, a: Action, interval: real, n: nat)
    requires !a.Set? && Enabled(s, a) && Timed(s, n, interval)
    ensures Timed(Next(s, a, interval), n, interval)
  {
    hide UpToDate, Spaced;
    var t := Next(s, a, interval);
    forall p | RecordAt(t, p).Some? ensures UpToDate(RecordAt(t, p).value, t.log) {
      assert RecordAt(t, p) == RecordAt(s, Source(s, a, p));
    }
    forall w | 0 <= w < |t.workers| ensures Waited(t.workers[w], t.clock, interval) {
      assert Waited(s.workers[w], s.clock, interval);
    }
  }

  lemma {:induction false} InitialInv(n: nat, splay: real, step: real, workers: nat, clock: real, interval: real)
    ensures Inv(Initial(Records(n, splay, step), workers, clock), n, interval)
  {
    hide Records;
    var rs := Records(n, splay, step);
    var s := Initial(rs, workers, clock);
    forall h: nat | h < n ensures Present(s, h) {
      assert IsAt(s, InQueue(h), h);
    }
  }

  // ---------------------------------------------------------------------------
  // Every interleaving
  // ---------------------------------------------------------------------------

  ghost predicate Execution(states: seq<State>, actions: seq<Action>, interval: real) {
    && |states| == |actions| + 1
    && forall i :: 0 <= i < |actions| ==> Follows(states[i], actions[i], states[i + 1], interval)
  }

  ghost predicate Follows(s: State, a: Action, t: State, interval: real) {
    Enabled(s, a) && t == Next(s, a, interval)
  }

  /** A run of the simulator: from what the constructor makes, in any interleaving. */
  ghost predicate Run(states: seq<State>, actions: seq<Action>, n: nat, interval: real) {
    && Execution(states, actions, interval) && interval >= 0.0
    && exists splay: real, step: real, workers: nat, clock: real ::
         states[0] == Initial(Records(n, splay, step), workers, clock)
  }

  lemma {:induction false} RunKeeps(states: seq<State>, actions: seq<Action>, n: nat, interval: real, i: nat)
    requires Run(states, actions, n, interval) && i < |states|
    ensures Inv(states[i], n, interval)
    decreases i
  {
    hide Next, Enabled, Placed, Timed;
    if i == 0 {
      var splay: real, step: real, workers: nat, clock: real :|
        states[0] == Initial(Records(n, splay, step), workers, clock);
      InitialInv(n, splay, step, workers, clock, interval);
    } else {
      RunKeeps(states, actions, n, interval, i - 1);
      assert Follows(states[i - 1], actions[i - 1], states[i - 1 + 1], interval);
      NextPlaced(states[i - 1], actions[i - 1], interval, n);
      if actions[i - 1].Set? {
        SetTimed(states[i - 1], actions[i - 1], interval, n);
      } else {
        OtherTimed(states[i - 1], actions[i - 1], interval, n);
      }
    }
  }

  /** Each host is queued once or held by exactly one worker, always. */
  lemma HostsStayPlaced(states: seq<State>, actions: seq<Action>, n: nat, interval: real, i: nat, h: nat)
    requires Run(states, actions, n, interval) && i < |states| && h < n
    ensures exists p :: IsAt(states[i], p, h) && forall q :: IsAt(states[i], q, h) ==> q == p
  {
    hide Next, IsAt;
    RunKeeps(states, actions, n, interval, i);
    assert Present(states[i], h);
    var p :| IsAt(states[i], p, h);
  }

  /** Two stamps of one host are at least the interval apart, the first update included. */
  lemma StampsAreSpaced(states: seq<State>, actions: seq<Action>, n: nat, interval: real, i: nat, j: nat, k: nat)
    requires Run(states, actions, n, interval) && i < |states|
    requires j < k < |states[i].log| && states[i].log[j].host == states[i].log[k].host
    ensures states[i].log[k].time >= states[i].log[j].time + interval
  {
    hide Next, IsAt;
    RunKeeps(states, actions, n, interval, i);
  }

  // ---------------------------------------------------------------------------
  // The rate
  // ---------------------------------------------------------------------------

  predicate Within(x: Stamp, from: real, interval: real) {
    from <= x.time < from + interval
  }

  /** How many stamps fall into the half-open window. */
  function StampsIn(log: seq<Stamp>, from: real, interval: real): nat {
    if log == [] then 0
    else StampsIn(log[..|log| - 1], from, interval) + (if Within(log[|log| - 1], from, interval) then 1 else 0)
  }

  ghost function HostsIn(log: seq<Stamp>, from: real, interval: real): set<nat> {
    set i | 0 <= i < |log| && Within(log[i], from, interval) :: log[i].host
  }

  lemma {:induction false} OneStampEach(log: seq<Stamp>, from: real, interval: real)
    requires Spaced(log, interval)
    ensures StampsIn(log, from, interval) == |HostsIn(log, from, interval)|
    decreases |log|
  {
    hide HostsIn, Within, Spaced;
    if log == [] {
      NoHosts(from, interval);
    } else {
      var front, x := log[..|log| - 1], log[|log| - 1];
      SpacedFront(log, interval);
      OneStampEach(front, from, interval);
      assert log == front + [x];
      HostsNext(front, x, from, interval);
      if Within(x, from, interval) { NewHost(front, x, from, interval); }
    }
  }

  lemma NoHosts(from: real, interval: real)
    ensures HostsIn([], from, interval) == {}
  {}

  lemma SpacedFront(log: seq<Stamp>, interval: real)
    requires Spaced(log, interval) && log != []
    ensures Spaced(log[..|log| - 1], interval) && Spaced(log[..|log| - 1] + [log[|log| - 1]], interval)
  {
    assert log == log[..|log| - 1] + [log[|log| - 1]];
  }

  lemma HostsNext(front: seq<Stamp>, x: Stamp, from: real, interval: real)
    ensures HostsIn(front + [x], from, interval)
         == HostsIn(front, from, interval) + if Within(x, from, interval) then {x.host} else {}
  {
    hide Within;
    var log := front + [x];
    assert log[|front|] == x && forall i :: 0 <= i < |front| ==> log[i] == front[i];
    forall h | h in HostsIn(front, from, interval) ensures h in HostsIn(log, from, interval) {
      var i :| 0 <= i < |front| && Within(front[i], from, interval) && front[i].host == h;
      assert log[i].host == h;
    }
  }

  /** Within one interval a host is stamped once. */
  lemma NewHost(front: seq<Stamp>, x: Stamp, from: real, interval: real)
    requires Spaced(front + [x], interval) && Within(x, from, interval)
    ensures x.host !in HostsIn(front, from, interval)
  {
    var log := front + [x];
    forall i | 0 <= i < |front| && Within(front[i], from, interval) ensures front[i].host != x.host {
      assert log[i] == front[i] && log[|front|] == x;
    }
  }

  lemma {:induction false} BoundedSet(s: set<nat>, n: nat)
    requires forall x :: x in s ==> x < n
    ensures |s| <= n
    decreases n
  {
    if n == 0 {
      assert s == {};
    } else {
      BoundedSet(s - {n - 1}, n - 1);
      assert |s| <= |s - {n - 1}| + 1 by {
        if n - 1 in s { assert s == s - {n - 1} + {n - 1}; } else { assert s - {n - 1} == s; }
      }
    }
  }

  /** The throttle: in any window of one interval at most as many commands are stamped as
      there are hosts. */
  lemma RateIsBounded(states: seq<State>, actions: seq<Action>, n: nat, interval: real, i: nat, from: real)
    requires Run(states, actions, n, interval) && i < |states|
    ensures StampsIn(states[i].log, from, interval) <= n
  {
    hide Next, IsAt, StampsIn;
    RunKeeps(states, actions, n, interval, i);
    OneStampEach(states[i].log, from, interval);
    BoundedSet(HostsIn(states[i].log, from, interval), n);
  }

  // ---------------------------------------------------------------------------
  // The order of the queue
  // ---------------------------------------------------------------------------

  ghost predicate Sorted(queue: seq<Record>) {
    forall i, j :: 0 <= i < j < |queue| ==> queue[i].updated <= queue[j].updated
  }

  /** The queue stays in order of the stamps unless a worker appends behind a later one. */
  lemma {:induction false} OrderKept(s: State, a: Action, interval: real)
    requires Enabled(s, a) && Sorted(s.queue)
    ensures Sorted(Next(s, a, interval).queue) <==>
      (a.Append? && s.queue != [] ==> s.queue[|s.queue| - 1].updated <= s.workers[a.w].record.updated)
  {
    var t := Next(s, a, interval);
    if a.Append? && s.queue != [] {
      assert t.queue[|s.queue| - 1] == s.queue[|s.queue| - 1] && t.queue[|s.queue|] == s.workers[a.w].record;
    }
  }

  /** A run from the constructor's state, with the spread it gives the first updates. */
  ghost predicate RunFrom(states: seq<State>, actions: seq<Action>, n: nat, workers: nat, interval: real, splay: real,
        step: real)
  {
    && Execution(states, actions, interval) && interval >= 0.0
    && 0.0 <= step && n as real * step <= interval
    && exists clock: real :: states[0] == Initial(Records(n, splay, step), workers, clock)
  }

  lemma RunFromIsRun(states: seq<State>, actions: seq<Action>, n: nat, workers: nat, interval: real, splay: real,
        step: real)
    requires RunFrom(states, actions, n, workers, interval, splay, step)
    ensures Run(states, actions, n, interval)
  {
    var clock :| states[0] == Initial(Records(n, splay, step), workers, clock);
  }

  /** A worker appends a record behind one with a later stamp. */
  predicate AppendsBehind(s: State, a: Action) {
    && a.Append? && a.w < |s.workers| && s.workers[a.w].Stamped?
    && s.queue != [] && s.queue[|s.queue| - 1].updated > s.workers[a.w].record.updated
  }

  /** In a whole run the queue is always in order of the stamps if and only if no worker
      ever appends behind a later one. */
  lemma {:induction false} OrderOfRun(states: seq<State>, actions: seq<Action>, n: nat, workers: nat, interval: real,
        splay: real, step: real, i: nat)
    requires RunFrom(states, actions, n, workers, interval, splay, step) && i < |states|
    ensures (forall k :: 0 <= k <= i ==> Sorted(states[k].queue)) <==>
      (forall k :: 0 <= k < i ==> !AppendsBehind(states[k], actions[k]))
    decreases i
  {
    hide Next, Sorted;
    if i == 0 {
      FirstSorted(states, actions, n, workers, interval, splay, step);
    } else {
      OrderOfRun(states, actions, n, workers, interval, splay, step, i - 1);
      assert Follows(states[i - 1], actions[i - 1], states[i - 1 + 1], interval);
      if Sorted(states[i - 1].queue) { OrderKept(states[i - 1], actions[i - 1], interval); }
    }
  }

  lemma FirstSorted(states: seq<State>, actions: seq<Action>, n: nat, workers: nat, interval: real, splay: real,
        step: real)
    requires RunFrom(states, actions, n, workers, interval, splay, step)
    ensures Sorted(states[0].queue)
    ensures forall r :: r in states[0].queue ==> splay <= r.updated <= splay + n as real * step
    ensures |states[0].workers| == workers && forall w :: 0 <= w < workers ==> states[0].workers[w].Idle?
  {
    hide Records, Sorted, Execution;
    RecordsSorted(n, splay, step);
  }

  lemma {:induction false} RecordsSorted(n: nat, splay: real, step: real)
    requires step >= 0.0
    ensures Sorted(Records(n, splay, step))
    ensures forall r :: r in Records(n, splay, step) ==> splay <= r.updated <= splay + n as real * step
    decreases n
  {
    hide Sorted, Records;
    RecordsAre(n, splay, step);
    if n == 0 {
      EmptySorted();
    } else {
      var front, last := Records(n - 1, splay, step), Record(n - 1, splay + (n - 1) as real * step);
      RecordsSorted(n - 1, splay, step);
      Product(0.0, (n - 1) as real, step);
      Product((n - 1) as real, n as real, step);
      SortedAppend(front, last);
    }
  }

  lemma RecordsAre(n: nat, splay: real, step: real)
    ensures n == 0 ==> Records(n, splay, step) == []
    ensures n > 0 ==>
      Records(n, splay, step) == Records(n - 1, splay, step) + [Record(n - 1, splay + (n - 1) as real * step)]
  {}

  lemma EmptySorted()
    ensures Sorted([])
  {}

  lemma SortedAppend(front: seq<Record>, last: Record)
    requires Sorted(front) && forall r :: r in front ==> r.updated <= last.updated
    ensures Sorted(front + [last])
  {
    forall i | 0 <= i < |front| ensures front[i].updated <= last.updated { assert front[i] in front; }
  }

  lemma Product(a: real, b: real, k: real)
    requires a <= b && k >= 0.0
    ensures a * k <= b * k
  {}

  /** The record that step `k` appends. */
  ghost function Appended(states: seq<State>, actions: seq<Action>, k: nat): Option<Record> {
    if k >= |actions| || k >= |states| || !actions[k].Append? || actions[k].w >= |states[k].workers| then None
    else
      var worker := states[k].workers[actions[k].w];
      if worker.Idle? then None else Some(worker.record)
  }

  /** Records are appended in the order of their stamps. */
  ghost predicate InStampOrder(states: seq<State>, actions: seq<Action>) {
    forall j: nat, k: nat :: j < k && Appended(states, actions, j).Some? && Appended(states, actions, k).Some? ==>
      Appended(states, actions, j).value.updated <= Appended(states, actions, k).value.updated
  }

  /** No record is older than the first update, and a new stamp is an interval after it. */
  ghost predicate LateEnough(s: State, splay: real, interval: real) {
    && (forall p :: RecordAt(s, p).Some? ==> RecordAt(s, p).value.updated >= splay)
    && (forall w :: 0 <= w < |s.workers| && s.workers[w].Stamped? ==>
      splay + interval <= s.workers[w].record.updated <= s.clock)
  }

  lemma {:induction false} NextLateEnough(s: State, a: Action, interval: real, splay: real, n: nat)
    requires Enabled(s, a) && LateEnough(s, splay, interval) && Timed(s, n, interval) && interval >= 0.0
    ensures LateEnough(Next(s, a, interval), splay, interval)
  {
    hide UpToDate, Spaced;
    var t := Next(s, a, interval);
    if a.Set? {
      assert RecordAt(s, With(a.w)).Some? && Waited(s.workers[a.w], s.clock, interval);
    }
    forall p | RecordAt(t, p).Some? ensures RecordAt(t, p).value.updated >= splay {
      if !(a.Set? && p == With(a.w)) { assert RecordAt(t, p) == RecordAt(s, Source(s, a, p)); }
    }
  }

  lemma {:induction false} RunIsLateEnough(states: seq<State>, actions: seq<Action>, n: nat, workers: nat,
        interval: real, splay: real, step: real, i: nat)
    requires RunFrom(states, actions, n, workers, interval, splay, step) && i < |states|
    ensures LateEnough(states[i], splay, interval) && |states[i].workers| == workers
    decreases i
  {
    hide Next, Timed, Placed;
    if i == 0 {
      FirstSorted(states, actions, n, workers, interval, splay, step);
      forall p | RecordAt(states[0], p).Some? ensures RecordAt(states[0], p).value.updated >= splay {
        if p.InQueue? { assert states[0].queue[p.i] in states[0].queue; }
      }
    } else {
      RunIsLateEnough(states, actions, n, workers, interval, splay, step, i - 1);
      RunFromIsRun(states, actions, n, workers, interval, splay, step);
      RunKeeps(states, actions, n, interval, i - 1);
      assert Follows(states[i - 1], actions[i - 1], states[i - 1 + 1], interval);
      NextLateEnough(states[i - 1], actions[i - 1], interval, splay, n);
    }
  }

  /** Every record in the queue has its first update, or was appended before. */
  ghost predicate KnownRecords(states: seq<State>, actions: seq<Action>, i: nat, top: real)
    requires i < |states|
  {
    forall r ::
      r in states[i].queue ==> r.updated <= top || exists j: nat :: j < i && Appended(states, actions, j) == Some(r)
  }

  lemma {:induction false} RunKnowsRecords(states: seq<State>, actions: seq<Action>, n: nat, workers: nat,
        interval: real, splay: real, step: real, i: nat)
    requires RunFrom(states, actions, n, workers, interval, splay, step) && i < |states|
    ensures KnownRecords(states, actions, i, splay + n as real * step)
    decreases i
  {
    if i == 0 {
      FirstSorted(states, actions, n, workers, interval, splay, step);
    } else {
      RunKnowsRecords(states, actions, n, workers, interval, splay, step, i - 1);
      assert Follows(states[i - 1], actions[i - 1], states[i - 1 + 1], interval);
      assert actions[i - 1].Append? ==>
        states[i].queue == states[i - 1].queue + [Appended(states, actions, i - 1).value];
    }
  }

  /** Appending in the order of the stamps keeps the queue in that order. */
  lemma {:induction false} InOrderIsSorted(states: seq<State>, actions: seq<Action>, n: nat, workers: nat,
        interval: real, splay: real, step: real, i: nat)
    requires RunFrom(states, actions, n, workers, interval, splay, step)
    requires i < |states| && InStampOrder(states, actions)
    ensures Sorted(states[i].queue)
  {
    hide Next, Sorted, AppendsBehind;
    forall k | 0 <= k < i ensures !AppendsBehind(states[k], actions[k]) {
      NotBehind(states, actions, n, workers, interval, splay, step, k);
    }
    OrderOfRun(states, actions, n, workers, interval, splay, step, i);
  }

  lemma {:induction false} NotBehind(states: seq<State>, actions: seq<Action>, n: nat, workers: nat, interval: real,
        splay: real, step: real, k: nat)
    requires RunFrom(states, actions, n, workers, interval, splay, step)
    requires k < |actions| && InStampOrder(states, actions)
    ensures !AppendsBehind(states[k], actions[k])
  {
    hide Next, Sorted;
    var s, a := states[k], actions[k];
    RunKnowsRecords(states, actions, n, workers, interval, splay, step, k);
    RunIsLateEnough(states, actions, n, workers, interval, splay, step, k);
    assert Follows(s, a, states[k + 1], interval);
    if a.Append? && s.queue != [] {
      var last := s.queue[|s.queue| - 1];
      assert Appended(states, actions, k) == Some(s.workers[a.w].record);
      assert last in s.queue;
    }
  }

  /** With one worker every append is of the record stamped last. */
  lemma {:induction false} OneWorkerKeepsOrder(states: seq<State>, actions: seq<Action>, n: nat, interval: real,
        splay: real, step: real, i: nat)
    requires RunFrom(states, actions, n, 1, interval, splay, step) && i < |states|
    ensures Sorted(states[i].queue)
  {
    hide Next, Sorted;
    forall j: nat, k: nat | j < k && Appended(states, actions, j).Some? && Appended(states, actions, k).Some?
      ensures Appended(states, actions, j).value.updated <= Appended(states, actions, k).value.updated
    {
      LaterStamp(states, actions, n, interval, splay, step, j, k);
    }
    InOrderIsSorted(states, actions, n, 1, interval, splay, step, i);
  }

  lemma {:induction false} LaterStamp(states: seq<State>, actions: seq<Action>, n: nat, interval: real, splay: real,
        step: real, j: nat, k: nat)
    requires RunFrom(states, actions, n, 1, interval, splay, step) && Appended(states, actions, j).Some?
    requires j < k < |states|
    ensures Appended(states, actions, j).value.updated <= states[k].clock && |states[k].workers| == 1
    ensures states[k].workers[0].Stamped? ==>
      Appended(states, actions, j).value.updated <= states[k].workers[0].record.updated
    ensures Appended(states, actions, k).Some? ==>
      Appended(states, actions, j).value.updated <= Appended(states, actions, k).value.updated
    decreases k
  {
    RunIsLateEnough(states, actions, n, 1, interval, splay, step, j);
    RunIsLateEnough(states, actions, n, 1, interval, splay, step, k - 1);
    RunIsLateEnough(states, actions, n, 1, interval, splay, step, k);
    assert Follows(states[k - 1], actions[k - 1], states[k - 1 + 1], interval);
    if k > j + 1 { LaterStamp(states, actions, n, interval, splay, step, j, k - 1); }
    if k < |actions| { assert Follows(states[k], actions[k], states[k + 1], interval); }
  }

  /** Two workers can stamp in one order and append in the other: here with two hosts and
      a run interval of one minute, from the state that the constructor makes. */
  lemma OrderCanBreak()
    ensures exists states: seq<State>, actions: seq<Action> ::
      RunFrom(states, actions, 2, 2, 60000.0, 0.0, 30.0) && !Sorted(states[|states| - 1].queue)
  {
    hide Next, Enabled, OutOfOrder;
    var states: seq<State> := seq(10, i requires 0 <= i < 10 => OutOfOrder(i));
    var actions := seq(9, i requires 0 <= i < 9 => OutOfOrderAction(i));
    OutOfOrderStarts();
    OutOfOrderStops();
    forall i | 0 <= i < 9 ensures Follows(states[i], actions[i], states[i + 1], 60000.0) { OutOfOrderStep(i); }
    assert RunFrom(states, actions, 2, 2, 60000.0, 0.0, 30.0);
  }

  function OutOfOrderAction(i: nat): Action {
    if i == 0 then Pop(0, 60000.0) else if i == 1 then Pop(1, 60000.0)
    else if i == 2 then Check(0, 60000.0) else if i == 3 then Check(1, 60000.0) else if i == 4 then Wake(1, 60030.0)
    else if i == 5 then Set(0, 60040.0) else if i == 6 then Set(1, 60050.0)
    else if i == 7 then Append(1, 60050.0) else Append(0, 60050.0)
  }

  /** The states of that run. */
  function OutOfOrder(i: nat): State {
    var a, b := Record(0, 0.0), Record(1, 30.0);
    var a1, b2 := Record(0, 60040.0), Record(1, 60050.0);
    var log := [Stamp(0, 0.0), Stamp(1, 30.0)];
    var log2 := log + [Stamp(0, 60040.0)] + [Stamp(1, 60050.0)];
    if i == 0 then State([a, b], [Idle, Idle], 60000.0, log)
    else if i == 1 then State([b], [Holding(a), Idle], 60000.0, log)
    else if i == 2 then State([], [Holding(a), Holding(b)], 60000.0, log)
    else if i == 3 then State([], [Ready(a), Holding(b)], 60000.0, log)
    else if i == 4 then State([], [Ready(a), Sleeping(b, 60030.0)], 60000.0, log)
    else if i == 5 then State([], [Ready(a), Ready(b)], 60030.0, log)
    else if i == 6 then State([], [Stamped(a1), Ready(b)], 60040.0, log + [Stamp(0, 60040.0)])
    else if i == 7 then State([], [Stamped(a1), Stamped(b2)], 60050.0, log2)
    else if i == 8 then State([b2], [Stamped(a1), Idle], 60050.0, log2)
    else State([b2, a1], [Idle, Idle], 60050.0, log2)
  }

  lemma OutOfOrderStep(i: nat)
    requires i < 9
    ensures Follows(OutOfOrder(i), OutOfOrderAction(i), OutOfOrder(i + 1), 60000.0)
  {}

  lemma OutOfOrderStarts()
    ensures OutOfOrder(0) == Initial(Records(2, 0.0, 30.0), 2, 60000.0)
  {
    assert Records(1, 0.0, 30.0) == [Record(0, 0.0)];
    assert Records(2, 0.0, 30.0) == [Record(0, 0.0), Record(1, 30.0)];
  }

  lemma OutOfOrderStops()
    ensures !Sorted(OutOfOrder(9).queue)
  {
    assert OutOfOrder(9).queue[0].updated > OutOfOrder(9).queue[1].updated;
  }

  /** The queue can stay in order although the appends are not: the same run, but the
      record stamped last is popped again before the other one is appended. */
  lemma OrderCanHold()
    ensures exists states: seq<State>, actions: seq<Action> ::
      && RunFrom(states, actions, 2, 2, 60000.0, 0.0, 30.0) && !InStampOrder(states, actions)
      && forall i :: 0 <= i < |states| ==> Sorted(states[i].queue)
  {
    hide Next, Enabled, OutOfOrder, PoppedAgain, Sorted, Records;
    var states: seq<State> := seq(11, i requires 0 <= i < 11 => PoppedAgain(i));
    var actions := seq(10, i requires 0 <= i < 10 => PoppedAgainAction(i));
    OutOfOrderStarts();
    forall i | 0 <= i < 10 ensures Follows(states[i], actions[i], states[i + 1], 60000.0) { PoppedAgainStep(i); }
    forall i | 0 <= i < 11 ensures Sorted(states[i].queue) { PoppedAgainSorted(i); }
    assert PoppedAgain(0) == OutOfOrder(0) by { PoppedAgainIs(); }
    PoppedAgainIs();
    assert Appended(states, actions, 7) == Some(Record(1, 60050.0));
    assert Appended(states, actions, 9) == Some(Record(0, 60040.0));
    assert !InStampOrder(states, actions);
    assert RunFrom(states, actions, 2, 2, 60000.0, 0.0, 30.0);
  }

  function PoppedAgainAction(i: nat): Action {
    if i < 8 then OutOfOrderAction(i) else if i == 8 then Pop(1, 60050.0) else Append(0, 60050.0)
  }

  function PoppedAgain(i: nat): State {
    var s := OutOfOrder(7);
    var a1, b2 := Record(0, 60040.0), Record(1, 60050.0);
    if i <= 8 then OutOfOrder(i)
    else if i == 9 then State([], [Stamped(a1), Holding(b2)], 60050.0, s.log)
    else State([a1], [Idle, Holding(b2)], 60050.0, s.log)
  }

  lemma PoppedAgainIs()
    ensures PoppedAgain(0) == OutOfOrder(0)
    ensures PoppedAgain(7).workers == [Stamped(Record(0, 60040.0)), Stamped(Record(1, 60050.0))]
    ensures PoppedAgain(9).workers == [Stamped(Record(0, 60040.0)), Holding(Record(1, 60050.0))]
  {}

  lemma PoppedAgainStep(i: nat)
    requires i < 10
    ensures Follows(PoppedAgain(i), PoppedAgainAction(i), PoppedAgain(i + 1), 60000.0)
  {
    if i < 8 { OutOfOrderStep(i); }
  }

  lemma PoppedAgainSorted(i: nat)
    requires i <= 10
    ensures Sorted(PoppedAgain(i).queue)
  {}

  // ---------------------------------------------------------------------------
  // The pipe
  // ---------------------------------------------------------------------------

  class HostRecord {
    const id: nat
    var updated: real

    constructor (id: nat, updated: real)
      ensures this.id == id && this.updated == updated
    {
      this.id, this.updated := id, updated;
    }

    ghost function View(): Record
      reads this
    {
      Record(id, updated)
    }
  }

  class CommandPipe {
    const intervalSec: nat
    var state: seq<HostRecord>
    ghost var repr: set<HostRecord>

    ghost predicate Valid()
      reads this
    {
      && (forall i :: 0 <= i < |state| ==> state[i] in repr)
      && (forall i, j :: 0 <= i < j < |state| ==> state[i] != state[j])
    }

    ghost function View(): (rs: seq<Record>)
      reads this, state
      ensures |rs| == |state| && forall i :: 0 <= i < |state| ==> rs[i] == state[i].View()
    {
      seq(|state|, i requires 0 <= i < |state| reads this, state => state[i].View())
    }

    /** The hosts start one interval in the past, apart by the interval in seconds over
        their number, taken as milliseconds. */
    constructor (numhosts: nat, runinterval: nat, t: real)
      ensures Valid() && intervalSec == 60 * runinterval
      ensures View() == Records(numhosts, t - (intervalSec * 1000) as real,
                                if numhosts == 0 then 0.0 else intervalSec as real / numhosts as real)
      ensures fresh(repr)
    {
      intervalSec := 60 * runinterval;
      state, repr := [], {};
      new;
      ghost var step := if numhosts == 0 then 0.0 else intervalSec as real / numhosts as real;
      var first := t - (intervalSec * 1000) as real;
      var splay := first;
      for i := 0 to numhosts
        invariant Valid() && fresh(repr) && |state| == i && splay == first + i as real * step
        invariant forall k :: 0 <= k < i ==> state[k].View() == Records(numhosts, first, step)[k]
      {
        RecordsAt(numhosts, first, step, i);
        var record := new HostRecord(i, splay);
        splay := splay + intervalSec as real / numhosts as real;
        state, repr := state + [record], repr + {record};
      }
      assert View() == Records(numhosts, first, step);
    }

    /** `popleft`; none when the deque is empty, where Python raises. */
    method PopLeft() returns (record: HostRecord?)
      requires Valid()
      modifies this
      ensures Valid() && repr == old(repr)
      ensures old(state) == [] ==> record == null && state == []
      ensures old(state) != [] ==>
        record == old(state)[0] && state == old(state)[1..] && record !in state && record in repr
    {
      record := null;
      if state != [] {
        record := state[0];
        state := state[1..];
      }
    }

    /** One call of `next` by a worker that nobody interrupts: the clock says `now` when
        it has the record, and it takes `extra` more than the sleep it asks for. */
    method Next(now: real, extra: real) returns (done: bool)
      requires Valid() && extra >= 0.0
      modifies this, repr
      ensures Valid() && repr == old(repr) && (done <==> old(state) != [])
      ensures View() == if done then Turned(old(View()), now, extra, (intervalSec * 1000) as real) else old(View())
    {
      ghost var before := View();
      var record := PopLeft();
      if record == null { return false; }
      var elapsed, clock := now - record.updated, now;
      if elapsed < (intervalSec * 1000) as real {
        clock := clock + 1000.0 * (intervalSec as real - elapsed / 1000.0);
      }
      record.updated := clock + extra;
      state := state + [record];
      assert View() == Turned(before, now, extra, (intervalSec * 1000) as real);
      done := true;
    }
  }

  /** The ring after the front host's turn. */
  function Turned(queue: seq<Record>, now: real, extra: real, interval: real): (r: seq<Record>)
    requires queue != [] && extra >= 0.0
    ensures |r| == |queue| && r[|r| - 1].id == queue[0].id && r[..|r| - 1] == queue[1..]
    ensures r[|r| - 1].updated <= now + extra || r[|r| - 1].updated <= queue[0].updated + interval + extra
    ensures r[|r| - 1].updated >= now && r[|r| - 1].updated >= queue[0].updated + interval
  {
    var due := queue[0].updated + interval;
    queue[1..] + [Record(queue[0].id, (if due > now then due else now) + extra)]
  }

  /** The steps of a call of `next` that is not interrupted. */
  function Call(w: nat, r: Record, now: real, extra: real, interval: real): (actions: seq<Action>) {
    var due := r.updated + interval;
    if due > now then [Pop(w, now), Check(w, now), Wake(w, due), Set(w, due + extra), Append(w, due + extra)]
    else [Pop(w, now), Check(w, now), Set(w, now + extra), Append(w, now + extra)]
  }

  function Last<T>(s: seq<T>): T
    requires s != []
  {
    s[|s| - 1]
  }

  /** Taking these steps one after the other turns the ring as the method does. */
  lemma {:induction false} CallTurns(s: State, w: nat, now: real, extra: real, interval: real)
      returns (states: seq<State>)
    requires w < |s.workers| && s.workers[w].Idle? && s.queue != [] && s.clock <= now && extra >= 0.0
    ensures Execution(states, Call(w, s.queue[0], now, extra, interval), interval) && states[0] == s
    ensures Last(states).queue == Turned(s.queue, now, extra, interval) && Last(states).workers == s.workers
  {
    var actions := Call(w, s.queue[0], now, extra, interval);
    var s1 := Next(s, actions[0], interval);
    var s2 := Next(s1, actions[1], interval);
    var s3 := Next(s2, actions[2], interval);
    var s4 := Next(s3, actions[3], interval);
    states := [s, s1, s2, s3, s4];
    assert Follows(s, actions[0], s1, interval);
    assert Follows(s1, actions[1], s2, interval);
    assert Follows(s2, actions[2], s3, interval);
    assert Follows(s3, actions[3], s4, interval);
    if |actions| == 5 {
      var s5 := Next(s4, actions[4], interval);
      assert Follows(s4, actions[4], s5, interval);
      states := states + [s5];
    }
    assert Last(states).workers == s.workers;
  }

  lemma {:induction false} RecordsAt(n: nat, splay: real, step: real, i: nat)
    requires i < n
    ensures Records(n, splay, step)[i] == Record(i, splay + i as real * step)
    decreases n
  {
    if i < n - 1 { RecordsAt(n - 1, splay, step, i); }
  }
}
