/** The lock with which d3 transitions on one node preempt each other. Every run of a
    transition holds the node's lock from the moment it is scheduled until it stops;
    the timer queue calls `start` once and then `tick` until the run stops, and the
    calls of different runs interleave in any order. */
module TransitionLock {

  import opened Options

  // ---------------------------------------------------------------------------
  // The protocol as a state machine
  // ---------------------------------------------------------------------------

  /** Which callback of the run the timer queue holds: `start`, `tick` or neither. */
  datatype Phase = Waiting | Running | Stopped

  datatype Run = Run(id: nat, lock: nat, phase: Phase)

  datatype LockState = LockState(active: nat, count: int)

  datatype Event = Started(run: nat) | Tweened(run: nat) | Ended(run: nat)

  /** `present` is the node's `__transition__`; all locks the node ever had and all runs
      are kept, numbered in order of creation. */
  datatype State = State(present: Option<nat>, locks: seq<LockState>, runs: seq<Run>, log: seq<Event>)

  /** `finished` says whether this tick finds the duration to be over. */
  datatype Action = Schedule(id: nat) | Start(run: nat, finished: bool) | Tick(run: nat, finished: bool)

  ghost predicate InRange(s: State) {
    && (s.present.Some? ==> s.present.value < |s.locks|)
    && (forall r :: 0 <= r < |s.runs| ==> s.runs[r].lock < |s.locks|)
    && (forall i :: 0 <= i < |s.log| ==> s.log[i].run < |s.runs|)
  }

  function AfterSchedule(s: State, id: nat): (t: State)
    requires InRange(s)
    ensures InRange(t)
  {
    var l := if s.present.Some? then s.present.value else |s.locks|;
    var locks := if s.present.Some? then s.locks else s.locks + [LockState(0, 0)];
    State(Some(l), locks[l := locks[l].(count := locks[l].count + 1)], s.runs + [Run(id, l, Waiting)], s.log)
  }

  function AfterStop(s: State, r: nat): (t: State)
    requires InRange(s) && r < |s.runs|
    ensures InRange(t)
  {
    var l := s.runs[r].lock;
    var count := s.locks[l].count - 1;
    State(if count == 0 then None else s.present, s.locks[l := s.locks[l].(count := count)],
          s.runs[r := s.runs[r].(phase := Stopped)], s.log)
  }

  function AfterTick(s: State, r: nat, finished: bool): (t: State)
    requires InRange(s) && r < |s.runs|
    ensures InRange(t)
  {
    if s.locks[s.runs[r].lock].active != s.runs[r].id then AfterStop(s, r)
    else if finished then Logged(AfterStop(Logged(s, Tweened(r)), r), Ended(r))
    else Logged(s, Tweened(r)).(runs := s.runs[r := s.runs[r].(phase := Running)])
  }

  function AfterStart(s: State, r: nat, finished: bool): (t: State)
    requires InRange(s) && r < |s.runs|
    ensures InRange(t)
  {
    if s.locks[s.runs[r].lock].active > s.runs[r].id then AfterStop(s, r)
    else AfterTick(Logged(Activated(s, r), Started(r)), r, finished)
  }

  function Activated(s: State, r: nat): (t: State)
    requires InRange(s) && r < |s.runs|
  {
    var l := s.runs[r].lock;
    s.(locks := s.locks[l := s.locks[l].(active := s.runs[r].id)])
  }

  function Logged(s: State, e: Event): (t: State) {
    s.(log := s.log + [e])
  }

  /** The timer queue calls `start` of a waiting run and `tick` of a running one. */
  ghost predicate Enabled(s: State, a: Action) {
    match a
    case Schedule(_) => true
    case Start(r, _) => r < |s.runs| && s.runs[r].phase == Waiting
    case Tick(r, _) => r < |s.runs| && s.runs[r].phase == Running
  }

  function Next(s: State, a: Action): (t: State)
    requires InRange(s) && Enabled(s, a)
    ensures InRange(t)
  {
    match a
    case Schedule(id) => AfterSchedule(s, id)
    case Start(r, finished) => AfterStart(s, r, finished)
    case Tick(r, finished) => AfterTick(s, r, finished)
  }

  const INITIAL := State(None, [], [], [])

  /** `states` is an execution: it starts with no lock and takes enabled actions only. */
  ghost predicate Execution(states: seq<State>, actions: seq<Action>) {
    && |states| == |actions| + 1 && states[0] == INITIAL
    && (forall i :: 0 <= i < |states| ==> InRange(states[i]))
    && (forall i :: 0 <= i < |actions| ==> Follows(states[i], actions[i], states[i + 1]))
  }

  ghost predicate Follows(s: State, a: Action, t: State) {
    InRange(s) && Enabled(s, a) && t == Next(s, a)
  }

  // ---------------------------------------------------------------------------
  // What every state keeps
  // ---------------------------------------------------------------------------

  /** How many runs hold the lock: scheduled and not yet stopped. */
  function Holders(runs: seq<Run>, l: nat): (n: nat) {
    if runs == [] then 0
    else Holders(runs[..|runs| - 1], l) + (if Holds(runs[|runs| - 1], l) then 1 else 0)
  }

  predicate Holds(run: Run, l: nat) {
    run.lock == l && run.phase != Stopped
  }

  /** The count is exact, and the lock is on the node as long as some run holds it:
      all runs that have not stopped hold the lock that is on the node now. */
  ghost predicate Counted(s: State)
    requires InRange(s)
  {
    && (forall l :: 0 <= l < |s.locks| ==> s.locks[l].count == Holders(s.runs, l))
    && (forall r :: 0 <= r < |s.runs| && s.runs[r].phase != Stopped ==> s.present == Some(s.runs[r].lock))
    && (s.present.Some? ==> Holders(s.runs, s.present.value) > 0)
  }

  /** Once a run has started, no run with a smaller id that has the same lock starts,
      tweens or ends. */
  ghost predicate Preempted(s: State)
    requires InRange(s)
  {
    && (forall i :: 0 <= i < |s.log| && s.log[i].Started? ==> IdOf(s, i) <= s.locks[LockOf(s, i)].active)
    && (forall i, j ::
      0 <= i < j < |s.log| && s.log[i].Started? && LockOf(s, i) == LockOf(s, j) ==> IdOf(s, i) <= IdOf(s, j))
  }

  ghost function IdOf(s: State, i: nat): nat
    requires InRange(s) && i < |s.log|
  {
    s.runs[s.log[i].run].id
  }

  ghost function LockOf(s: State, i: nat): nat
    requires InRange(s) && i < |s.log|
  {
    s.runs[s.log[i].run].lock
  }

  /** A run's events: first one start, last of all at most one end. */
  ghost predicate Sequenced(s: State)
    requires InRange(s)
  {
    && (forall r, i :: 0 <= r < |s.runs| && 0 <= i < |s.log| && s.log[i].run == r ==> s.runs[r].phase != Waiting)
    && (forall r :: 0 <= r < |s.runs| && s.runs[r].phase == Running ==> Started(r) in s.log && Ended(r) !in s.log)
    && OneStart(s.log) && EndIsLast(s.log)
  }

  /** Every event comes after its run's only start. */
  ghost predicate OneStart(log: seq<Event>) {
    && (forall j :: 0 <= j < |log| && !log[j].Started? ==> Started(log[j].run) in log[..j])
    && (forall i, j :: 0 <= i < j < |log| && log[i].Started? ==> log[j] != log[i])
  }

  ghost predicate EndIsLast(log: seq<Event>) {
    forall i, j :: 0 <= i < j < |log| && log[i].Ended? ==> log[j].run != log[i].run
  }

  /** The id of the last run of the lock that has started; 0 if none has. */
  function LastId(log: seq<Event>, runs: seq<Run>, l: nat): nat {
    if log == [] then 0
    else
      var n := |log| - 1;
      if log[n].Started? && log[n].run < |runs| && runs[log[n].run].lock == l then runs[log[n].run].id
      else LastId(log[..n], runs, l)
  }

  /** Each lock remembers who started last. */
  ghost predicate Remembered(s: State)
    requires InRange(s)
  {
    forall l :: 0 <= l < |s.locks| ==> s.locks[l].active == LastId(s.log, s.runs, l)
  }

  ghost predicate Inv(s: State) {
    InRange(s) && Counted(s) && Preempted(s) && Sequenced(s) && Remembered(s)
  }

  // ---------------------------------------------------------------------------
  // Counting
  // ---------------------------------------------------------------------------

  lemma {:induction false} HoldersUpdated(runs: seq<Run>, r: nat, run: Run, l: nat)
    requires r < |runs|
    ensures Holders(runs[r := run], l)
         == Holders(runs, l) - (if Holds(runs[r], l) then 1 else 0) + (if Holds(run, l) then 1 else 0)
    decreases |runs|
  {
    var n := |runs| - 1;
    if r < n {
      HoldersUpdated(runs[..n], r, run, l);
      assert runs[r := run][..n] == runs[..n][r := run];
    } else {
      assert runs[r := run][..n] == runs[..n];
    }
  }

  lemma HoldersAdded(runs: seq<Run>, run: Run, l: nat)
    ensures Holders(runs + [run], l) == Holders(runs, l) + (if Holds(run, l) then 1 else 0)
  {
    assert (runs + [run])[..|runs|] == runs;
  }

  lemma {:induction false} HolderCounts(runs: seq<Run>, l: nat)
    ensures Holders(runs, l) > 0 <==> exists r :: 0 <= r < |runs| && Holds(runs[r], l)
    decreases |runs|
  {
    if runs != [] {
      var n := |runs| - 1;
      HolderCounts(runs[..n], l);
      assert forall r :: 0 <= r < n ==> runs[..n][r] == runs[r];
    }
  }

  lemma {:induction false} ScheduleCounts(s: State, id: nat)
    requires InRange(s) && Counted(s)
    ensures Counted(AfterSchedule(s, id))
  {
    hide Holders, Holds;
    var t := AfterSchedule(s, id);
    forall l | 0 <= l < |t.locks| ensures t.locks[l].count == Holders(t.runs, l) {
      HoldersAdded(s.runs, Run(id, t.present.value, Waiting), l);
      NewRunHolds(id, t.present.value, l);
      if l == |s.locks| { NobodyHolds(s, l); }
    }
  }

  lemma NewRunHolds(id: nat, l: nat, m: nat)
    ensures Holds(Run(id, l, Waiting), m) <==> l == m
  {}

  lemma NobodyHolds(s: State, l: nat)
    requires InRange(s) && l >= |s.locks|
    ensures Holders(s.runs, l) == 0
  {
    HolderCounts(s.runs, l);
  }

  lemma {:induction false} StopCounts(s: State, r: nat)
    requires InRange(s) && Counted(s) && r < |s.runs| && s.runs[r].phase != Stopped
    ensures Counted(AfterStop(s, r))
  {
    hide Holders;
    var t, l, run := AfterStop(s, r), s.runs[r].lock, s.runs[r].(phase := Stopped);
    forall m | 0 <= m < |t.locks| ensures t.locks[m].count == Holders(t.runs, m) {
      HoldersUpdated(s.runs, r, run, m);
    }
    HolderCounts(t.runs, l);
    assert forall q :: 0 <= q < |t.runs| && t.runs[q].phase != Stopped ==> Holds(t.runs[q], l);
  }

  /** Nothing that leaves the holders, the locks' counts and the node alone matters. */
  lemma {:induction false} SameCounts(s: State, t: State)
    requires InRange(s) && InRange(t) && Counted(s) && t.present == s.present
    requires |t.locks| == |s.locks| && forall l :: 0 <= l < |s.locks| ==> t.locks[l].count == s.locks[l].count
    requires |t.runs| == |s.runs|
    requires forall r :: 0 <= r < |s.runs| ==>
      t.runs[r].lock == s.runs[r].lock && (t.runs[r].phase == Stopped <==> s.runs[r].phase == Stopped)
    ensures Counted(t)
  {
    forall l: nat ensures Holders(t.runs, l) == Holders(s.runs, l) { SameHolders(s.runs, t.runs, l); }
  }

  lemma {:induction false} SameHolders(a: seq<Run>, b: seq<Run>, l: nat)
    requires |a| == |b| && forall r :: 0 <= r < |a| ==> (Holds(a[r], l) <==> Holds(b[r], l))
    ensures Holders(a, l) == Holders(b, l)
    decreases |a|
  {
    if a != [] { SameHolders(a[..|a| - 1], b[..|b| - 1], l); }
  }

  lemma TickCounts(s: State, r: nat, finished: bool)
    requires InRange(s) && Counted(s) && r < |s.runs| && s.runs[r].phase != Stopped
    ensures Counted(AfterTick(s, r, finished))
  {
    hide Counted, AfterStop;
    if s.locks[s.runs[r].lock].active != s.runs[r].id {
      StopCounts(s, r);
    } else if finished {
      SameCounts(s, Logged(s, Tweened(r)));
      StopCounts(Logged(s, Tweened(r)), r);
      SameCounts(AfterStop(Logged(s, Tweened(r)), r), AfterTick(s, r, finished));
    } else {
      SameCounts(s, AfterTick(s, r, finished));
    }
  }

  lemma StartCounts(s: State, r: nat, finished: bool)
    requires InRange(s) && Counted(s) && r < |s.runs| && s.runs[r].phase != Stopped
    ensures Counted(AfterStart(s, r, finished))
  {
    hide Counted, AfterStop, AfterTick;
    if s.locks[s.runs[r].lock].active > s.runs[r].id {
      StopCounts(s, r);
    } else {
      var s1 := Logged(Activated(s, r), Started(r));
      SameCounts(s, s1);
      TickCounts(s1, r, finished);
    }
  }

  // ---------------------------------------------------------------------------
  // Preemption
  // ---------------------------------------------------------------------------

  /** Runs keep their ids and locks, and `active` never decreases. */
  ghost predicate Grows(s: State, t: State) {
    && |s.locks| <= |t.locks| && (forall l :: 0 <= l < |s.locks| ==> s.locks[l].active <= t.locks[l].active)
    && |s.runs| <= |t.runs| && (forall r :: 0 <= r < |s.runs| ==> SameRun(s.runs[r], t.runs[r]))
    && s.log <= t.log
  }

  /** A run keeps its id and its lock, and never leaves `Stopped`. */
  ghost predicate SameRun(a: Run, b: Run) {
    a.id == b.id && a.lock == b.lock && (a.phase == Stopped ==> b.phase == Stopped)
  }

  lemma GrowsTransitive(a: State, b: State, c: State)
    requires Grows(a, b) && Grows(b, c)
    ensures Grows(a, c)
  {
    forall r | 0 <= r < |a.runs| ensures SameRun(a.runs[r], c.runs[r]) {
      assert SameRun(a.runs[r], b.runs[r]) && SameRun(b.runs[r], c.runs[r]);
    }
  }

  lemma {:induction false} NextGrows(s: State, a: Action)
    requires InRange(s) && Enabled(s, a)
    ensures Grows(s, Next(s, a))
  {}

  lemma SamePreempted(s: State, t: State)
    requires InRange(s) && InRange(t) && Preempted(s) && Grows(s, t) && t.log == s.log
    ensures Preempted(t)
  {
    forall i | 0 <= i < |s.log| ensures IdOf(t, i) == IdOf(s, i) && LockOf(t, i) == LockOf(s, i) {
      assert SameRun(s.runs[s.log[i].run], t.runs[s.log[i].run]);
    }
  }

  /** A run may log when `active` is its id. */
  lemma LogKeepsPreempted(s: State, e: Event)
    requires InRange(s) && Preempted(s) && e.run < |s.runs|
    requires s.locks[s.runs[e.run].lock].active == s.runs[e.run].id
    ensures InRange(Logged(s, e)) && Preempted(Logged(s, e))
  {
    var t := Logged(s, e);
    forall i | 0 <= i < |s.log| ensures IdOf(t, i) == IdOf(s, i) && LockOf(t, i) == LockOf(s, i) {}
    forall i, j | 0 <= i < j < |t.log| && t.log[i].Started? && LockOf(t, i) == LockOf(t, j)
      ensures IdOf(t, i) <= IdOf(t, j)
    {
      if j == |s.log| { assert IdOf(s, i) <= s.locks[LockOf(s, i)].active; }
    }
  }

  lemma {:induction false} TickPreempts(s: State, r: nat, finished: bool)
    requires InRange(s) && Preempted(s) && r < |s.runs| && s.runs[r].phase != Stopped
    ensures Preempted(AfterTick(s, r, finished))
  {
    hide Preempted;
    if s.locks[s.runs[r].lock].active != s.runs[r].id {
      SamePreempted(s, AfterStop(s, r));
    } else {
      var s1 := Logged(s, Tweened(r));
      LogKeepsPreempted(s, Tweened(r));
      if finished {
        SamePreempted(s1, AfterStop(s1, r));
        LogKeepsPreempted(AfterStop(s1, r), Ended(r));
      } else {
        SamePreempted(s1, AfterTick(s, r, finished));
      }
    }
  }

  lemma {:induction false} StartPreempts(s: State, r: nat, finished: bool)
    requires InRange(s) && Preempted(s) && r < |s.runs| && s.runs[r].phase != Stopped
    ensures Preempted(AfterStart(s, r, finished))
  {
    hide Preempted, AfterTick;
    if s.locks[s.runs[r].lock].active > s.runs[r].id {
      SamePreempted(s, AfterStop(s, r));
    } else {
      SamePreempted(s, Activated(s, r));
      LogKeepsPreempted(Activated(s, r), Started(r));
      TickPreempts(Logged(Activated(s, r), Started(r)), r, finished);
    }
  }

  // ---------------------------------------------------------------------------
  // The order of a run's events
  // ---------------------------------------------------------------------------

  lemma {:induction false} LogOrdered(log: seq<Event>, e: Event)
    requires OneStart(log) && EndIsLast(log)
    requires if e.Started? then (forall i :: 0 <= i < |log| ==> log[i].run != e.run)
      else Started(e.run) in log && Ended(e.run) !in log
    ensures OneStart(log + [e]) && EndIsLast(log + [e])
  {
    var t := log + [e];
    assert forall j :: 0 <= j < |log| ==> t[..j] == log[..j];
    assert t[..|log|] == log;
    forall i, j | 0 <= i < j < |t| && t[i].Ended? ensures t[j].run != t[i].run {
      if j == |log| { assert t[i] == log[i] && log[i] == Ended(log[i].run); }
    }
  }

  lemma {:induction false} StopSequences(s: State, r: nat)
    requires InRange(s) && Sequenced(s) && r < |s.runs|
    ensures Sequenced(AfterStop(s, r))
  {
    hide OneStart, EndIsLast;
  }

  lemma {:induction false} LogSequences(s: State, e: Event)
    requires InRange(s) && Sequenced(s) && e.run < |s.runs| && s.runs[e.run].phase != Waiting && !e.Started?
    requires Started(e.run) in s.log && Ended(e.run) !in s.log
    requires e.Ended? ==> s.runs[e.run].phase == Stopped
    ensures InRange(Logged(s, e)) && Sequenced(Logged(s, e))
  {
    hide OneStart, EndIsLast;
    var t := Logged(s, e);
    LogOrdered(s.log, e);
    forall r | 0 <= r < |t.runs| && t.runs[r].phase == Running ensures Started(r) in t.log && Ended(r) !in t.log {
      assert Started(r) in s.log && Ended(r) !in s.log;
    }
  }

  lemma {:induction false} TickSequences(s: State, r: nat, finished: bool)
    requires InRange(s) && r < |s.runs| && Started(r) in s.log && Ended(r) !in s.log
    requires Sequenced(s.(runs := s.runs[r := s.runs[r].(phase := Running)]))
    ensures Sequenced(AfterTick(s, r, finished))
  {
    hide Sequenced;
    var s0 := s.(runs := s.runs[r := s.runs[r].(phase := Running)]);
    if s.locks[s.runs[r].lock].active != s.runs[r].id {
      StopSequences(s0, r);
      assert AfterStop(s0, r) == AfterStop(s, r);
    } else {
      var s1 := Logged(s0, Tweened(r));
      LogSequences(s0, Tweened(r));
      StopSequences(s1, r);
      if finished {
        assert AfterStop(s1, r) == AfterStop(Logged(s, Tweened(r)), r);
        assert Started(r) in s1.log && Ended(r) !in s1.log;
        LogSequences(AfterStop(s1, r), Ended(r));
      }
    }
  }

  lemma {:induction false} StartSequences(s: State, r: nat, finished: bool)
    requires InRange(s) && Sequenced(s) && r < |s.runs| && s.runs[r].phase == Waiting
    ensures Sequenced(AfterStart(s, r, finished))
  {
    hide OneStart, EndIsLast, AfterTick, AfterStop;
    if s.locks[s.runs[r].lock].active > s.runs[r].id {
      StopSequences(s, r);
    } else {
      var s1 := Logged(Activated(s, r), Started(r));
      LogOrdered(s.log, Started(r));
      assert s1.log[|s.log|] == Started(r);
      TickSequences(s1, r, finished);
    }
  }

  // ---------------------------------------------------------------------------
  // Who started last
  // ---------------------------------------------------------------------------

  /** What a log says of its runs does not depend on their phases, nor on later runs. */
  lemma {:induction false} LastIdSame(log: seq<Event>, a: seq<Run>, b: seq<Run>, l: nat)
    requires |a| <= |b| && forall r :: 0 <= r < |a| ==> a[r].id == b[r].id && a[r].lock == b[r].lock
    requires forall i :: 0 <= i < |log| ==> log[i].run < |a|
    ensures LastId(log, b, l) == LastId(log, a, l)
    decreases |log|
  {
    if log != [] { LastIdSame(log[..|log| - 1], a, b, l); }
  }

  lemma LastIdMore(log: seq<Event>, e: Event, runs: seq<Run>, l: nat)
    ensures LastId(log + [e], runs, l) ==
      if e.Started? && e.run < |runs| && runs[e.run].lock == l then runs[e.run].id else LastId(log, runs, l)
  {
    assert (log + [e])[..|log|] == log;
  }

  /** On a new lock nobody has started. */
  lemma {:induction false} LastIdNone(s: State, l: nat)
    requires InRange(s) && l >= |s.locks|
    ensures LastId(s.log, s.runs, l) == 0
    decreases |s.log|
  {
    if s.log != [] { LastIdNone(s.(log := s.log[..|s.log| - 1]), l); }
  }

  lemma {:induction false} ScheduleRemembers(s: State, id: nat)
    requires InRange(s) && Remembered(s)
    ensures Remembered(AfterSchedule(s, id))
  {
    hide LastId;
    var t := AfterSchedule(s, id);
    forall l | 0 <= l < |t.locks| ensures t.locks[l].active == LastId(t.log, t.runs, l) {
      LastIdSame(s.log, s.runs, t.runs, l);
      if l == |s.locks| { LastIdNone(s, l); }
    }
  }

  /** Counts, phases and other events than starts do not matter. */
  lemma {:induction false} SameRemembered(s: State, t: State)
    requires InRange(s) && InRange(t) && Remembered(s) && t.log == s.log && |t.runs| == |s.runs|
    requires |t.locks| == |s.locks| && forall l :: 0 <= l < |s.locks| ==> t.locks[l].active == s.locks[l].active
    requires forall r :: 0 <= r < |s.runs| ==> t.runs[r].id == s.runs[r].id && t.runs[r].lock == s.runs[r].lock
    ensures Remembered(t)
  {
    hide LastId;
    forall l | 0 <= l < |t.locks| ensures t.locks[l].active == LastId(t.log, t.runs, l) {
      LastIdSame(s.log, s.runs, t.runs, l);
    }
  }

  lemma {:induction false} LogRemembers(s: State, e: Event)
    requires InRange(s) && Remembered(s) && e.run < |s.runs| && !e.Started?
    ensures InRange(Logged(s, e)) && Remembered(Logged(s, e))
  {
    hide LastId;
    forall l | 0 <= l < |s.locks| ensures LastId(s.log + [e], s.runs, l) == LastId(s.log, s.runs, l) {
      LastIdMore(s.log, e, s.runs, l);
    }
  }

  lemma {:induction false} ActivateRemembers(s: State, r: nat)
    requires InRange(s) && Remembered(s) && r < |s.runs|
    ensures var t := Logged(Activated(s, r), Started(r)); InRange(t) && Remembered(t)
  {
    hide LastId;
    forall l | 0 <= l < |s.locks|
      ensures LastId(s.log + [Started(r)], s.runs, l)
           == if s.runs[r].lock == l then s.runs[r].id else LastId(s.log, s.runs, l)
    {
      LastIdMore(s.log, Started(r), s.runs, l);
    }
  }

  lemma {:induction false} TickRemembers(s: State, r: nat, finished: bool)
    requires InRange(s) && Remembered(s) && r < |s.runs|
    ensures Remembered(AfterTick(s, r, finished))
  {
    hide Remembered;
    var s1 := Logged(s, Tweened(r));
    SameRemembered(s, AfterStop(s, r));
    LogRemembers(s, Tweened(r));
    SameRemembered(s1, AfterStop(s1, r));
    LogRemembers(AfterStop(s1, r), Ended(r));
    SameRemembered(s1, s1.(runs := s.runs[r := s.runs[r].(phase := Running)]));
  }

  lemma {:induction false} StartRemembers(s: State, r: nat, finished: bool)
    requires InRange(s) && Remembered(s) && r < |s.runs|
    ensures Remembered(AfterStart(s, r, finished))
  {
    hide Remembered, AfterTick;
    SameRemembered(s, AfterStop(s, r));
    ActivateRemembers(s, r);
    TickRemembers(Logged(Activated(s, r), Started(r)), r, finished);
  }

  lemma {:induction false} ScheduleKeeps(s: State, id: nat)
    requires Inv(s)
    ensures Inv(AfterSchedule(s, id))
  {
    hide Counted, OneStart, EndIsLast, Preempted, Remembered;
    ScheduleCounts(s, id);
    NextGrows(s, Schedule(id));
    SamePreempted(s, AfterSchedule(s, id));
    ScheduleRemembers(s, id);
  }

  lemma {:induction false} RunningIs(s: State, r: nat)
    requires InRange(s) && Sequenced(s) && r < |s.runs| && s.runs[r].phase == Running
    ensures OneStart(s.log) && EndIsLast(s.log) && Started(r) in s.log && Ended(r) !in s.log
    ensures s.runs[r := s.runs[r].(phase := Running)] == s.runs
  {
    hide OneStart, EndIsLast;
  }

  lemma {:induction false} NextKeeps(s: State, a: Action)
    requires Inv(s) && Enabled(s, a)
    ensures Inv(Next(s, a))
  {
    hide Counted, Preempted, Sequenced, Remembered, OneStart, EndIsLast, AfterStart, AfterTick;
    match a
    case Schedule(id) => ScheduleKeeps(s, id);
    case Start(r, finished) =>
      StartCounts(s, r, finished);
      StartPreempts(s, r, finished);
      StartSequences(s, r, finished);
      StartRemembers(s, r, finished);
    case Tick(r, finished) =>
      RunningIs(s, r);
      TickCounts(s, r, finished);
      TickPreempts(s, r, finished);
      TickSequences(s, r, finished);
      TickRemembers(s, r, finished);
  }

  // ---------------------------------------------------------------------------
  // Whole executions
  // ---------------------------------------------------------------------------

  /** Every state of every interleaving keeps the invariants. */
  lemma {:induction false} ExecutionKeeps(states: seq<State>, actions: seq<Action>, i: nat)
    requires Execution(states, actions) && i < |states|
    ensures Inv(states[i])
    decreases i
  {
    hide Next;
    if i == 0 {
      NothingYet();
    } else {
      ExecutionKeeps(states, actions, i - 1);
      assert Follows(states[i - 1], actions[i - 1], states[i - 1 + 1]);
      NextKeeps(states[i - 1], actions[i - 1]);
    }
  }

  lemma NothingYet()
    ensures Inv(INITIAL)
  {
    hide Counted, Preempted, Sequenced, Remembered;
    NothingRemembered();
    NothingCounted();
    NothingLogged();
    EmptyLog();
  }

  lemma NothingRemembered()
    ensures Remembered(INITIAL)
  {}

  lemma NothingCounted()
    ensures Counted(INITIAL)
  {
    hide Holders;
  }

  lemma NothingLogged()
    ensures Preempted(INITIAL)
  {}

  lemma EmptyLog()
    ensures Sequenced(INITIAL)
  {}

  lemma {:induction false} ExecutionGrows(states: seq<State>, actions: seq<Action>, i: nat, j: nat)
    requires Execution(states, actions) && i <= j < |states|
    ensures Grows(states[i], states[j])
    decreases j
  {
    hide Next;
    if i < j {
      ExecutionGrows(states, actions, i, j - 1);
      assert Follows(states[j - 1], actions[j - 1], states[j - 1 + 1]);
      NextGrows(states[j - 1], actions[j - 1]);
      GrowsTransitive(states[i], states[j - 1], states[j]);
    }
  }

  /** Event `i` is the last start of a run with the lock. */
  ghost predicate LastStart(s: State, i: int, l: nat)
    requires InRange(s)
  {
    && 0 <= i < |s.log| && s.log[i].Started? && LockOf(s, i) == l
    && forall j :: i < j < |s.log| && s.log[j].Started? ==> LockOf(s, j) != l
  }

  lemma {:induction false} LastStartIs(s: State, l: nat)
    requires InRange(s)
    ensures forall i :: LastStart(s, i, l) ==> LastId(s.log, s.runs, l) == IdOf(s, i)
    ensures (forall i :: !LastStart(s, i, l)) ==>
      LastId(s.log, s.runs, l) == 0 && forall i :: 0 <= i < |s.log| && s.log[i].Started? ==> LockOf(s, i) != l
    decreases |s.log|
  {
    if s.log != [] {
      var n := |s.log| - 1;
      var s0 := s.(log := s.log[..n]);
      LastStartIs(s0, l);
      if s.log[n].Started? && LockOf(s, n) == l {
        assert LastStart(s, n, l);
      } else {
        forall i | 0 <= i < n ensures LastStart(s0, i, l) <==> LastStart(s, i, l) { LastStartFront(s, i, l); }
        assert forall i :: 0 <= i < n ==> LockOf(s0, i) == LockOf(s, i);
      }
    }
  }

  lemma LastStartFront(s: State, i: int, l: nat)
    requires InRange(s) && s.log != [] && 0 <= i < |s.log| - 1
    requires !(s.log[|s.log| - 1].Started? && LockOf(s, |s.log| - 1) == l)
    ensures var s0 := s.(log := s.log[..|s.log| - 1]); InRange(s0) && (LastStart(s0, i, l) <==> LastStart(s, i, l))
  {
    var s0 := s.(log := s.log[..|s.log| - 1]);
    assert forall j :: 0 <= j < |s0.log| ==> s0.log[j] == s.log[j] && LockOf(s0, j) == LockOf(s, j);
  }

  /** The run calls its tweens, and then ends if it has finished; no other run changes. */
  ghost predicate Acts(s: State, t: State, r: nat, events: seq<Event>, finished: bool) {
    && r < |s.runs| == |t.runs| && t.log == s.log + events + [Tweened(r)] + (if finished then [Ended(r)] else [])
    && t.runs[r].phase == (if finished then Stopped else Running)
    && forall q :: 0 <= q < |s.runs| && q != r ==> t.runs[q] == s.runs[q]
  }

  /** The run stops without a word. */
  ghost predicate GivesUp(s: State, t: State, r: nat) {
    && r < |s.runs| == |t.runs| && t.log == s.log && t.runs[r].phase == Stopped
    && forall q :: 0 <= q < |s.runs| && q != r ==> t.runs[q] == s.runs[q]
  }

  /** A tick of a running run calls the tweens if the last start on its lock was with its
      id, and otherwise stops the run. */
  lemma {:induction false} TickActs(states: seq<State>, actions: seq<Action>, n: nat, r: nat, finished: bool)
    requires Execution(states, actions) && n < |states| && Enabled(states[n], Tick(r, finished))
    ensures var s, t := states[n], Next(states[n], Tick(r, finished));
      && (exists i :: LastStart(s, i, s.runs[r].lock))
      && forall i :: LastStart(s, i, s.runs[r].lock) ==>
           if IdOf(s, i) == s.runs[r].id then Acts(s, t, r, [], finished) else GivesUp(s, t, r)
  {
    hide Counted, Preempted, OneStart, EndIsLast, LastId;
    var s := states[n];
    ExecutionKeeps(states, actions, n);
    LastStartIs(s, s.runs[r].lock);
    assert s.log + [] == s.log && s.log + [] + [Tweened(r)] + [] == s.log + [Tweened(r)];
    assert Started(r) in s.log;
  }

  /** A waiting run starts and calls its tweens, unless the last start on its lock was with
      a larger id: then it stops. */
  lemma {:induction false} StartActs(states: seq<State>, actions: seq<Action>, n: nat, r: nat, finished: bool)
    requires Execution(states, actions) && n < |states| && Enabled(states[n], Start(r, finished))
    ensures var s, t := states[n], Next(states[n], Start(r, finished));
            if exists i :: LastStart(s, i, s.runs[r].lock) && IdOf(s, i) > s.runs[r].id then GivesUp(s, t, r)
            else Acts(s, t, r, [Started(r)], finished)
  {
    hide Counted, Preempted, Sequenced, LastId;
    var s := states[n];
    ExecutionKeeps(states, actions, n);
    LastStartIs(s, s.runs[r].lock);
    assert s.log + [Started(r)] + [Tweened(r)] + [] == s.log + [Started(r)] + [Tweened(r)];
  }

  /** A lock's `active` never decreases. */
  lemma ActiveNeverDecreases(states: seq<State>, actions: seq<Action>, i: nat, j: nat, l: nat)
    requires Execution(states, actions) && i <= j < |states| && l < |states[i].locks|
    ensures l < |states[j].locks| && states[i].locks[l].active <= states[j].locks[l].active
  {
    ExecutionGrows(states, actions, i, j);
  }

  /** Whoever starts silences every run of the same lock with a smaller id, for good:
      what such a run has logged by then is all it will ever log. */
  lemma SupersededIsSilent(states: seq<State>, actions: seq<Action>, i: nat, j: nat, winner: nat, loser: nat)
    requires Execution(states, actions) && i <= j < |states|
    requires winner < |states[i].runs| && loser < |states[i].runs|
    requires Started(winner) in states[i].log && states[i].runs[winner].lock == states[i].runs[loser].lock
    requires states[i].runs[loser].id < states[i].runs[winner].id
    ensures forall k :: |states[i].log| <= k < |states[j].log| ==> states[j].log[k].run != loser
  {
    hide Next, Counted, Sequenced;
    var s, t := states[i], states[j];
    ExecutionGrows(states, actions, i, j);
    ExecutionKeeps(states, actions, j);
    assert SameRun(s.runs[winner], t.runs[winner]) && SameRun(s.runs[loser], t.runs[loser]);
    var m :| 0 <= m < |s.log| && s.log[m] == Started(winner);
    forall k | |s.log| <= k < |t.log| ensures t.log[k].run != loser {
      assert t.log[m] == Started(winner) && IdOf(t, m) == t.runs[winner].id && LockOf(t, m) == t.runs[winner].lock;
      assert LockOf(t, m) == LockOf(t, k) ==> IdOf(t, m) <= IdOf(t, k);
    }
  }

  /** `__transition__` is on the node exactly while some run has not stopped, and then
      it is the lock of every such run, with their number as its count. */
  lemma PresentWhileHeld(states: seq<State>, actions: seq<Action>, i: nat)
    requires Execution(states, actions) && i < |states|
    ensures var s := states[i];
      && (s.present.Some? <==> exists r :: 0 <= r < |s.runs| && s.runs[r].phase != Stopped)
      && (s.present.Some? ==> s.locks[s.present.value].count == Holders(s.runs, s.present.value) > 0)
      && (forall r :: 0 <= r < |s.runs| && s.runs[r].phase != Stopped ==> s.present == Some(s.runs[r].lock))
  {
    hide Next, Sequenced, Preempted, Holders;
    ExecutionKeeps(states, actions, i);
    var s := states[i];
    if s.present.Some? {
      HolderCounts(s.runs, s.present.value);
      var r :| 0 <= r < |s.runs| && Holds(s.runs[r], s.present.value);
      assert s.runs[r].phase != Stopped;
    }
  }

  // ---------------------------------------------------------------------------
  // Runs of one node with different locks
  // ---------------------------------------------------------------------------

  /** Every run that ever held the lock has stopped. */
  ghost predicate AllStopped(s: State, l: nat) {
    forall r :: 0 <= r < |s.runs| && s.runs[r].lock == l ==> s.runs[r].phase == Stopped
  }

  /** Step `k` schedules run `r`. */
  ghost predicate Schedules(states: seq<State>, actions: seq<Action>, k: nat, r: nat) {
    k < |actions| && k < |states| && actions[k].Schedule? && |states[k].runs| == r
  }

  /** A run that is scheduled gets the lock of an earlier one if and only if some holder
      of that lock has not stopped. */
  lemma {:induction false} LockIsShared(s: State, id: nat, a: nat)
    requires Inv(s) && a < |s.runs|
    ensures var t := AfterSchedule(s, id);
      && |t.runs| == |s.runs| + 1 && t.runs[..|s.runs|] == s.runs
      && (t.runs[|s.runs|].lock == s.runs[a].lock <==> !AllStopped(s, s.runs[a].lock))
  {
    hide Preempted, Sequenced, Holders;
    if s.present.Some? {
      HolderCounts(s.runs, s.present.value);
      var r :| 0 <= r < |s.runs| && Holds(s.runs[r], s.present.value);
      assert s.runs[r].phase != Stopped;
    }
  }

  /** The step that scheduled a run. */
  lemma {:induction false} ScheduledBy(states: seq<State>, actions: seq<Action>, n: nat, r: nat) returns (k: nat)
    requires Execution(states, actions) && n < |states| && r < |states[n].runs|
    ensures k < n && Schedules(states, actions, k, r)
    decreases n
  {
    hide AfterStart, AfterTick;
    assert n > 0;
    assert Follows(states[n - 1], actions[n - 1], states[n - 1 + 1]);
    if r < |states[n - 1].runs| {
      k := ScheduledBy(states, actions, n - 1, r);
    } else {
      OnlyScheduleAdds(states[n - 1], actions[n - 1]);
      k := n - 1;
    }
  }

  lemma OnlyScheduleAdds(s: State, a: Action)
    requires InRange(s) && Enabled(s, a)
    ensures |Next(s, a).runs| == |s.runs| + if a.Schedule? then 1 else 0
  {}

  /** A stopped run logs nothing more. */
  lemma {:induction false} StoppedIsSilent(states: seq<State>, actions: seq<Action>, i: nat, j: nat, r: nat)
    requires Execution(states, actions) && i <= j < |states|
    requires r < |states[i].runs| && states[i].runs[r].phase == Stopped
    ensures forall k :: |states[i].log| <= k < |states[j].log| ==> states[j].log[k].run != r
    decreases j
  {
    hide Next;
    if i < j {
      var s, t := states[j - 1], states[j];
      StoppedIsSilent(states, actions, i, j - 1, r);
      ExecutionGrows(states, actions, i, j - 1);
      assert SameRun(states[i].runs[r], s.runs[r]);
      assert Follows(s, actions[j - 1], states[j - 1 + 1]);
      NextGrows(s, actions[j - 1]);
      NextSilent(s, actions[j - 1], r);
    }
  }

  lemma NextSilent(s: State, a: Action, r: nat)
    requires InRange(s) && Enabled(s, a) && r < |s.runs| && s.runs[r].phase == Stopped
    ensures forall k :: |s.log| <= k < |Next(s, a).log| ==> Next(s, a).log[k].run != r
  {}

  /** The lock that step `k` gives run `b`, compared with that of an earlier run. */
  lemma {:induction false} LocksOfRuns(states: seq<State>, actions: seq<Action>, k: nat, n: nat, a: nat, b: nat)
    requires Execution(states, actions) && k < n < |states| && Schedules(states, actions, k, b) && a < b
    ensures b < |states[n].runs|
    ensures states[n].runs[b].lock == states[n].runs[a].lock <==> !AllStopped(states[k], states[n].runs[a].lock)
  {
    hide Next, Inv, AllStopped;
    ExecutionKeeps(states, actions, k);
    ExecutionGrows(states, actions, k, n);
    ExecutionGrows(states, actions, k + 1, n);
    assert Follows(states[k], actions[k], states[k + 1]);
    NextIsSchedule(states[k], actions[k]);
    LockIsShared(states[k], actions[k].id, a);
    assert SameRun(states[k].runs[a], states[n].runs[a]);
    assert SameRun(states[k + 1].runs[b], states[n].runs[b]);
  }

  lemma NextIsSchedule(s: State, a: Action)
    requires InRange(s) && a.Schedule?
    ensures Next(s, a) == AfterSchedule(s, a.id)
  {}

  /** Preemption on the whole node: if a run acts after one with a larger id has started,
      it was scheduled later, when every holder of that one's lock had stopped. */
  lemma {:induction false} OnlyAfterAllStopped(states: seq<State>, actions: seq<Action>, n: nat, i: nat, j: nat, k: nat)
    requires Execution(states, actions) && n < |states| && i < j < |states[n].log| && states[n].log[i].Started?
    requires states[n].runs[states[n].log[j].run].id < states[n].runs[states[n].log[i].run].id
    requires k < n && Schedules(states, actions, k, states[n].log[j].run)
    ensures var s := states[n]; var winner, loser := s.log[i].run, s.log[j].run;
      winner < loser && AllStopped(states[k], s.runs[winner].lock)
  {
    hide Next, Counted, Sequenced, AllStopped;
    var s := states[n];
    var winner, loser := s.log[i].run, s.log[j].run;
    ExecutionKeeps(states, actions, n);
    assert LockOf(s, i) == LockOf(s, j) ==> IdOf(s, i) <= IdOf(s, j);
    if loser < winner {
      var w := ScheduledBy(states, actions, n, winner);
      LocksOfRuns(states, actions, w, n, loser, winner);
      LoserStopped(states, actions, w, n, loser);
      StoppedIsSilent(states, actions, w, n, loser);
      ExecutionGrows(states, actions, w, n);
      LogPrefix(states[w].log, s.log, i);
    } else {
      LocksOfRuns(states, actions, k, n, winner, loser);
    }
  }

  lemma LoserStopped(states: seq<State>, actions: seq<Action>, w: nat, n: nat, loser: nat)
    requires Execution(states, actions) && w <= n < |states| && loser < |states[w].runs|
    requires loser < |states[n].runs|
    ensures AllStopped(states[w], states[n].runs[loser].lock) ==>
      states[w].runs[loser].phase == Stopped && states[n].runs[loser].phase == Stopped
  {
    hide Next;
    ExecutionGrows(states, actions, w, n);
    assert SameRun(states[w].runs[loser], states[n].runs[loser]);
  }

  lemma LogPrefix(a: seq<Event>, b: seq<Event>, i: nat)
    requires a <= b
    ensures i < |a| ==> a[i] == b[i]
  {}

  /** The active id of a lock is that of a run which has started with it. */
  ghost predicate ActiveStarted(s: State)
    requires InRange(s)
  {
    forall l :: 0 <= l < |s.locks| && s.locks[l].active > 0 ==>
      exists i :: 0 <= i < |s.log| && s.log[i].Started? && LockOf(s, i) == l && IdOf(s, i) == s.locks[l].active
  }

  /** A later state with the same active ids. */
  lemma SameActive(s: State, t: State)
    requires InRange(s) && InRange(t) && ActiveStarted(s) && Grows(s, t)
    requires forall l :: 0 <= l < |t.locks| ==> t.locks[l].active == if l < |s.locks| then s.locks[l].active else 0
    ensures ActiveStarted(t)
  {
    forall l | 0 <= l < |t.locks| && t.locks[l].active > 0
      ensures exists i :: 0 <= i < |t.log| && t.log[i].Started? && LockOf(t, i) == l && IdOf(t, i) == t.locks[l].active
    {
      var i :| 0 <= i < |s.log| && s.log[i].Started? && LockOf(s, i) == l && IdOf(s, i) == s.locks[l].active;
      assert t.log[i] == s.log[i] && SameRun(s.runs[s.log[i].run], t.runs[s.log[i].run]);
    }
  }

  lemma TickSameActive(s: State, r: nat, finished: bool)
    requires InRange(s) && r < |s.runs| && s.runs[r].phase != Stopped && ActiveStarted(s)
    ensures ActiveStarted(AfterTick(s, r, finished))
  {
    hide ActiveStarted;
    SameActive(s, AfterTick(s, r, finished));
  }

  lemma StartActive(s: State, r: nat)
    requires InRange(s) && r < |s.runs| && ActiveStarted(s)
    ensures ActiveStarted(Logged(Activated(s, r), Started(r)))
  {
    var t := Logged(Activated(s, r), Started(r));
    assert t.log[|s.log|] == Started(r) && LockOf(t, |s.log|) == s.runs[r].lock && IdOf(t, |s.log|) == s.runs[r].id;
    forall i | 0 <= i < |s.log|
      ensures t.log[i] == s.log[i] && LockOf(t, i) == LockOf(s, i) && IdOf(t, i) == IdOf(s, i)
    {}
    forall l | 0 <= l < |t.locks| && t.locks[l].active > 0 && l != s.runs[r].lock
      ensures exists i :: 0 <= i < |t.log| && t.log[i].Started? && LockOf(t, i) == l && IdOf(t, i) == t.locks[l].active
    {
      var i :| 0 <= i < |s.log| && s.log[i].Started? && LockOf(s, i) == l && IdOf(s, i) == s.locks[l].active;
      assert t.log[i].Started? && LockOf(t, i) == l && IdOf(t, i) == t.locks[l].active;
    }
  }

  lemma {:induction false} ExecutionActive(states: seq<State>, actions: seq<Action>, n: nat)
    requires Execution(states, actions) && n < |states|
    ensures ActiveStarted(states[n])
    decreases n
  {
    hide ActiveStarted, AfterTick, AfterStart, Next;
    if n == 0 {
      NothingActive();
    } else {
      var s, a := states[n - 1], actions[n - 1];
      ExecutionActive(states, actions, n - 1);
      assert Follows(s, a, states[n - 1 + 1]);
      NextActive(s, a);
    }
  }

  lemma NothingActive()
    ensures ActiveStarted(INITIAL)
  {}

  lemma NextActive(s: State, a: Action)
    requires InRange(s) && Enabled(s, a) && ActiveStarted(s)
    ensures ActiveStarted(Next(s, a))
  {
    hide ActiveStarted, AfterTick;
    match a
    case Schedule(id) =>
      NextGrows(s, a);
      SameActive(s, Next(s, a));
    case Tick(r, finished) => TickSameActive(s, r, finished);
    case Start(r, finished) =>
      if s.locks[s.runs[r].lock].active > s.runs[r].id {
        SameActive(s, AfterStop(s, r));
      } else {
        StartActive(s, r);
        TickSameActive(Logged(Activated(s, r), Started(r)), r, finished);
      }
  }

  /** A waiting run starts when its turn comes if and only if every run with a larger id
      that has started was scheduled before it, and when it was scheduled itself every
      holder of that one's lock had stopped. */
  lemma {:induction false} StartsIff(states: seq<State>, actions: seq<Action>, n: nat, r: nat, finished: bool, k: nat)
    requires Execution(states, actions) && n < |states| && r < |states[n].runs| && states[n].runs[r].phase == Waiting
    requires k < n && Schedules(states, actions, k, r)
    ensures Started(r) in AfterStart(states[n], r, finished).log <==>
      forall i :: 0 <= i < |states[n].log| && states[n].log[i].Started? && IdOf(states[n], i) > states[n].runs[r].id ==>
        states[n].log[i].run < r && AllStopped(states[k], LockOf(states[n], i))
  {
    hide Next, Counted, AllStopped, AfterTick;
    var s, l := states[n], states[n].runs[r].lock;
    ExecutionKeeps(states, actions, n);
    ExecutionActive(states, actions, n);
    WaitingIsSilent(s, r);
    StartLogs(s, r, finished);
    forall i | 0 <= i < |s.log| && s.log[i].Started? && IdOf(s, i) > s.runs[r].id
      ensures LockOf(s, i) != l <==> s.log[i].run < r && AllStopped(states[k], LockOf(s, i))
    {
      OtherLock(states, actions, n, r, k, s.log[i].run);
    }
    if s.locks[l].active > s.runs[r].id {
      var i :| 0 <= i < |s.log| && s.log[i].Started? && LockOf(s, i) == l && IdOf(s, i) == s.locks[l].active;
    }
  }

  lemma WaitingIsSilent(s: State, r: nat)
    requires InRange(s) && Sequenced(s) && r < |s.runs| && s.runs[r].phase == Waiting
    ensures Started(r) !in s.log
  {
    hide OneStart, EndIsLast;
    forall i | 0 <= i < |s.log| ensures s.log[i] != Started(r) {}
  }

  lemma StartLogs(s: State, r: nat, finished: bool)
    requires InRange(s) && r < |s.runs| && Started(r) !in s.log
    ensures Started(r) in AfterStart(s, r, finished).log <==> s.locks[s.runs[r].lock].active <= s.runs[r].id
  {
    if s.locks[s.runs[r].lock].active <= s.runs[r].id {
      assert AfterStart(s, r, finished).log[|s.log|] == Started(r);
    }
  }

  /** While a run waits, whoever is scheduled after it gets its lock. */
  lemma {:induction false} OtherLock(states: seq<State>, actions: seq<Action>, n: nat, r: nat, k: nat, w: nat)
    requires Execution(states, actions) && n < |states| && r < |states[n].runs| && states[n].runs[r].phase != Stopped
    requires k < n && Schedules(states, actions, k, r) && w < |states[n].runs| && w != r
    ensures states[n].runs[w].lock != states[n].runs[r].lock <==>
      w < r && AllStopped(states[k], states[n].runs[w].lock)
  {
    hide Next, AllStopped;
    if w < r {
      LocksOfRuns(states, actions, k, n, w, r);
    } else {
      var m := ScheduledBy(states, actions, n, w);
      LocksOfRuns(states, actions, m, n, r, w);
      LoserStopped(states, actions, m, n, r);
    }
  }

  ghost predicate OneAfterTwo(s: State) {
    && s.log == [Started(0), Tweened(0), Ended(0), Started(1), Tweened(1)]
    && |s.runs| == 2 && s.runs[0].id == 2 && s.runs[1].id == 1
  }

  /** So ids can go down on a node: 2 starts and ends, then 1 starts with a new lock. */
  lemma SmallerAfterLarger()
    ensures exists states: seq<State>, actions: seq<Action> ::
      Execution(states, actions) && OneAfterTwo(states[|states| - 1])
  {
    hide Next;
    var actions := [Schedule(2), Start(0, true), Schedule(1), Start(1, false)];
    var s1 := State(Some(0), [LockState(0, 1)], [Run(2, 0, Waiting)], []);
    var s2 := State(None, [LockState(2, 0)], [Run(2, 0, Stopped)], [Started(0), Tweened(0), Ended(0)]);
    var s3 := State(Some(1), [LockState(2, 0), LockState(0, 1)], [Run(2, 0, Stopped), Run(1, 1, Waiting)], s2.log);
    var s4 := State(Some(1), [LockState(2, 0), LockState(1, 1)], [Run(2, 0, Stopped), Run(1, 1, Running)],
                    s2.log + [Started(1)] + [Tweened(1)]);
    FourSteps(s1, s2, s3, s4);
    var states := [INITIAL, s1, s2, s3, s4];
    assert Execution(states, actions);
    assert OneAfterTwo(states[4]);
  }

  lemma FourSteps(s1: State, s2: State, s3: State, s4: State)
    requires s1 == State(Some(0), [LockState(0, 1)], [Run(2, 0, Waiting)], [])
    requires s2 == State(None, [LockState(2, 0)], [Run(2, 0, Stopped)], [Started(0), Tweened(0), Ended(0)])
    requires s3 == State(Some(1), [LockState(2, 0), LockState(0, 1)], [Run(2, 0, Stopped), Run(1, 1, Waiting)], s2.log)
    requires s4 == State(Some(1), [LockState(2, 0), LockState(1, 1)], [Run(2, 0, Stopped), Run(1, 1, Running)],
                         s2.log + [Started(1)] + [Tweened(1)])
    ensures Follows(INITIAL, Schedule(2), s1) && Follows(s1, Start(0, true), s2)
    ensures Follows(s2, Schedule(1), s3) && Follows(s3, Start(1, false), s4)
    ensures InRange(s4)
  {
    assert AfterStart(s1, 0, true).log == s2.log;
    assert AfterStart(s1, 0, true) == s2;
    assert AfterSchedule(s2, 1) == s3;
    assert AfterStart(s3, 1, false) == s4;
  }

  // ---------------------------------------------------------------------------
  // The node, its lock and its runs as the code has them
  // ---------------------------------------------------------------------------

  class Lock {
    var active: nat
    var count: int

    constructor ()
      ensures active == 0 && count == 0
    {
      active, count := 0, 0;
    }

    ghost function View(): LockState
      reads this
    {
      LockState(active, count)
    }
  }

  /** What the closures of one run share. */
  datatype Closure = Closure(id: nat, lock: Lock, phase: Phase)

  class Node {
    var transition: Lock?
    var closures: seq<Closure>
    ghost var locks: seq<Lock>       // every lock the node ever had
    ghost var present: Option<nat>
    ghost var holds: seq<nat>
    ghost var log: seq<Event>
    ghost var repr: set<Lock>

    constructor ()
      ensures Valid() && View() == INITIAL && repr == {}
    {
      transition, closures, locks, present, holds, log, repr := null, [], [], None, [], [], {};
    }

    ghost predicate Valid()
      reads this
    {
      && (forall l :: 0 <= l < |locks| ==> locks[l] in repr)
      && (forall l, m :: 0 <= l < m < |locks| ==> locks[l] != locks[m])
      && |holds| == |closures|
      && (forall r :: 0 <= r < |closures| ==> holds[r] < |locks| && locks[holds[r]] == closures[r].lock)
      && (if present.Some? then present.value < |locks| && transition == locks[present.value] else transition == null)
      && (forall i :: 0 <= i < |log| ==> log[i].run < |closures|)
    }

    ghost function View(): (s: State)
      reads this, locks
      requires Valid()
      ensures InRange(s)
    {
      State(present, LockStates(locks), RunsOf(closures, holds), log)
    }

    /** A transition reaches the node: its run takes the lock, or makes one. */
    method Schedule(id: nat) returns (r: nat)
      requires Valid()
      modifies this, repr
      ensures Valid() && View() == AfterSchedule(old(View()), id) && r == |old(closures)|
      ensures fresh(repr - old(repr))
    {
      hide LockStates, RunsOf, AfterSchedule;
      ScheduleIs(View(), id);
      r := |closures|;
      var lock := TakeLock();
      Hold(lock, id);
    }

    /** Counts a new run that holds the lock. */
    method Hold(lock: Lock, id: nat)
      requires Valid() && present.Some? && lock == locks[present.value]
      modifies this`closures, this`holds, lock
      ensures Valid() && RunsOf(closures, holds) == old(RunsOf(closures, holds)) + [Run(id, present.value, Waiting)]
      ensures var before := old(LockStates(locks)); var l := present.value;
              LockStates(locks) == before[l := before[l].(count := before[l].count + 1)]
    {
      hide LockStates, RunsOf;
      ghost var l, before := present.value, LockStates(locks);
      lock.count := lock.count + 1;
      LockChanged(locks, l, before, before[l].(count := before[l].count + 1));
      RunAdded(closures, holds, Closure(id, lock, Waiting), l);
      closures := closures + [Closure(id, lock, Waiting)];
      holds := holds + [l];
    }

    /** The lock on the node; a new one is put there if there is none. */
    method TakeLock() returns (lock: Lock)
      requires Valid()
      modifies this`transition, this`locks, this`present, this`repr
      ensures Valid() && fresh(repr - old(repr)) && present.Some? && lock == transition == locks[present.value]
      ensures present == if old(present).Some? then old(present) else Some(|old(locks)|)
      ensures LockStates(locks) == old(LockStates(locks)) + if old(present).Some? then [] else [LockState(0, 0)]
    {
      hide LockStates, RunsOf;
      if transition != null {
        lock := transition;
        assert LockStates(locks) + [] == LockStates(locks);
      } else {
        lock := new Lock();
        LockMade(locks, lock);
        transition := lock;
        locks, present, repr := locks + [lock], Some(|locks|), repr + {lock};
      }
    }

    method Stop(r: nat)
      requires Valid() && r < |closures|
      modifies this, repr
      ensures Valid() && View() == AfterStop(old(View()), r) && repr == old(repr) && |closures| == |old(closures)|
    {
      hide LockStates, RunsOf;
      var lock := closures[r].lock;
      ghost var l, before := holds[r], LockStates(locks);
      lock.count := lock.count - 1;
      LockChanged(locks, l, before, before[l].(count := before[l].count - 1));
      if lock.count == 0 {
        transition := null;
        present := None;
      }
      RunChanged(closures, holds, r, Stopped);
      closures := closures[r := closures[r].(phase := Stopped)];
    }

    method Log(e: Event)
      requires Valid() && e.run < |closures|
      modifies `log
      ensures Valid() && View() == Logged(old(View()), e)
    {
      log := log + [e];
    }

    /** `tick`: true when the timer queue may drop it. */
    method Tick(r: nat, finished: bool) returns (done: bool)
      requires Valid() && r < |closures|
      modifies this, repr
      ensures Valid() && View() == AfterTick(old(View()), r, finished) && repr == old(repr)
      ensures done <==> View().runs[r].phase == Stopped
    {
      hide LockStates, RunsOf;
      var run := closures[r];
      if run.lock.active != run.id {
        Stop(r);
        return true;
      }
      Log(Tweened(r));
      if finished {
        Stop(r);
        Log(Ended(r));
        return true;
      }
      RunChanged(closures, holds, r, Running);
      closures := closures[r := run.(phase := Running)];
      return false;
    }

    /** `start`, which ends with a first tick. */
    method Start(r: nat, finished: bool)
      requires Valid() && r < |closures|
      modifies this, repr
      ensures Valid() && View() == AfterStart(old(View()), r, finished) && repr == old(repr)
    {
      hide LockStates, RunsOf, AfterTick;
      var run := closures[r];
      ghost var l, before := holds[r], LockStates(locks);
      if run.lock.active > run.id {
        Stop(r);
        return;
      }
      run.lock.active := run.id;
      LockChanged(locks, l, before, before[l].(active := run.id));
      Log(Started(r));
      var done := Tick(r, finished);
    }
  }

  lemma ScheduleIs(s: State, id: nat)
    requires InRange(s)
    ensures var l := if s.present.Some? then s.present.value else |s.locks|;
      var locks := s.locks + if s.present.Some? then [] else [LockState(0, 0)];
      AfterSchedule(s, id)
      == State(Some(l), locks[l := locks[l].(count := locks[l].count + 1)], s.runs + [Run(id, l, Waiting)], s.log)
  {
    assert s.locks + [] == s.locks;
  }

  ghost function LockStates(locks: seq<Lock>): (s: seq<LockState>)
    reads locks
    ensures |s| == |locks| && forall l :: 0 <= l < |locks| ==> s[l] == locks[l].View()
  {
    seq(|locks|, l requires 0 <= l < |locks| reads locks => locks[l].View())
  }

  ghost function RunsOf(closures: seq<Closure>, holds: seq<nat>): (s: seq<Run>)
    requires |holds| == |closures|
    ensures |s| == |closures|
    ensures forall r :: 0 <= r < |closures| ==> s[r] == Run(closures[r].id, holds[r], closures[r].phase)
  {
    seq(|closures|, r requires 0 <= r < |closures| && |holds| == |closures| =>
      Run(closures[r].id, holds[r], closures[r].phase))
  }

  lemma LockChanged(locks: seq<Lock>, l: nat, before: seq<LockState>, v: LockState)
    requires l < |locks| == |before| && locks[l].View() == v
    requires forall m :: 0 <= m < |locks| && m != l ==> locks[m].View() == before[m]
    ensures LockStates(locks) == before[l := v]
  {}

  lemma LockMade(locks: seq<Lock>, lock: Lock)
    ensures LockStates(locks + [lock]) == LockStates(locks) + [lock.View()]
  {}

  lemma RunChanged(closures: seq<Closure>, holds: seq<nat>, r: nat, p: Phase)
    requires r < |closures| == |holds|
    ensures var runs := RunsOf(closures, holds);
      RunsOf(closures[r := closures[r].(phase := p)], holds) == runs[r := runs[r].(phase := p)]
  {}

  lemma RunAdded(closures: seq<Closure>, holds: seq<nat>, c: Closure, l: nat)
    requires |closures| == |holds|
    ensures RunsOf(closures + [c], holds + [l]) == RunsOf(closures, holds) + [Run(c.id, l, c.phase)]
  {}
}
