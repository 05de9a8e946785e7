/** Time slices: what a running task gets, when it is preempted, and how long others wait. */
module SchedulerLaws {
  import opened Basics
  import opened Sequences
  import opened SchedulerCalls
  import opened SchedulerSpec
  import opened SchedulerTheorems

  // ---------------------------------------------------------------- what one step does to one task

  /** schedule() moves at most one task, which runs from then on; of all others nothing changes. */
  lemma ScheduleMoves<T>(c: State<T>, t: T)
    requires Good(c) && c.running == c.idle && t in c.info
    ensures var r, x := Schedule(c), Pick(c);
      && r.sleeping == c.sleeping && r.blocked == c.blocked && r.terminated == c.terminated
      && r.idle == c.idle && r.now == c.now && r.info.Keys == c.info.Keys
      && r.running == (if c.allow && !NothingAvailable(c) then x else c.idle)
      && r.info[t].timeSlice == c.info[t].timeSlice && r.info[t].naptime == c.info[t].naptime
      && r.info[t].policy == c.info[t].policy && r.info[t].reqPriority == c.info[t].reqPriority
      && (t != x ==> r.info[t] == c.info[t])
  {
  }

  /** The list that task_block(st) puts the running task in. */
  ghost predicate Parks<T>(r: State<T>, t: T, st: TaskState) {
    match st
    case Blocked => t in r.blocked
    case Sleeping => t in r.sleeping
    case Terminated => t in r.terminated
    case _ => false
  }

  /** A running task that leaves is in the list it asked for, with a full slice, and no longer runs. */
  lemma BlockMoves<T>(s: State<T>, st: TaskState)
    requires Good(s) && s.running != s.idle
    ensures var r, t := Block(s, st), s.running;
      && t in r.info && r.info[t].naptime == s.info[t].naptime && r.idle == s.idle
      && (IsBlock(st) ==> Parks(r, t, st) && r.running != t && r.info[t].timeSlice == 50 && r.allow)
      && (!IsBlock(st) ==> r == s.(allow := false))
  {
    if IsBlock(st) {
      var t, c := s.running, Park(s, st).(running := s.idle);
      ParkKeeps(s, st);
      ScheduleMoves(c, t);
      assert Placed(c, t) && Placed(c, Pick(c));
    }
  }

  /** `t` sleeps until `until`, and will run with a full slice; another task runs, or the idle task. */
  ghost predicate Asleep<T>(r: State<T>, t: T, until: nat) {
    && t in r.sleeping && r.running != t && t in r.info
    && r.info[t].naptime == until && r.info[t].timeSlice == 50
  }

  lemma SleepMoves<T>(s: State<T>, until: nat)
    requires Good(s) && s.running != s.idle
    ensures var r := Sleep(s, until); Asleep(r, s.running, until) && r.allow && r.idle == s.idle
  {
    NapKeeps(s, until);
    BlockMoves(Nap(s, until), Sleeping);
  }

  lemma WokenKeepsRunning<T>(s: State<T>)
    requires Good(s)
    ensures var r := Woken(s); r.running == s.running && r.idle == s.idle && r.now == s.now
    ensures s.running != s.idle ==> Woken(s).info[s.running] == s.info[s.running]
  {
    var a := s.(allow := false);
    LockKeeps(s, false);
    FirstDueSame(s, a, 0);
    var k := FirstDue(a, 0);
    assert Placed(a, a.running);
    if k < |a.sleeping| {
      var t := a.sleeping[k];
      assert Placed(a, t);
      NaptimeKeeps(a, t, 0);
      assert Wake(a) == Unblock(SetInfo(a, t, a.info[t].(naptime := 0)), t);
    }
  }

  lemma TickParts<T>(s: State<T>)
    requires Good(s)
    ensures var s1 := Woken(s);
      Tick(s) ==
        if s1.running == s1.idle then s1.(allow := true)
        else if s1.info[s1.running].timeSlice == 1 then Sleep(s1, (s1.now + 1) % WORD).(allow := true)
        else assert Placed(s1, s1.running); CountedDown(s1).(allow := true)
  {
    hide Sleep, Woken;
    var s1 := Woken(s);
    assert s1.running != s1.idle ==> Placed(s1, s1.running);
  }

  lemma TickEndsSlice<T>(s: State<T>)
    requires Good(s) && s.running != s.idle && s.info[s.running].timeSlice == 1
    ensures var r := Tick(s); Asleep(r, s.running, (s.now + 1) % WORD) && r.idle == s.idle && r.allow
  {
    var s1 := Woken(s);
    WokenKeepsRunning(s);
    TickParts(s);
    assert s1.info[s.running].timeSlice == 1 && s1.running == s.running;
    hide Sleep, Woken, Good, Tick;
    SleepMoves(s1, (s1.now + 1) % WORD);
  }

  lemma TickCounts<T>(s: State<T>)
    requires Good(s) && s.running != s.idle && s.info[s.running].timeSlice != 1
    ensures var r, t := Tick(s), s.running;
      && t in r.info && r.idle == s.idle && r.allow && r.running == t
      && r.info[t].timeSlice == s.info[t].timeSlice - 1
  {
    var s1 := Woken(s);
    WokenKeepsRunning(s);
    TickParts(s);
    assert Placed(s1, s1.running) && s1.running == s.running;
    hide Sleep, Woken, Good, Tick, Placed;
    assert Tick(s) == CountedDown(s1).(allow := true);
  }

  /** The running task gives up the processor in this step: it blocks or sleeps, or its slice ends. */
  ghost predicate GivesUp<T>(s: State<T>, op: Op<T>)
    requires s.running in s.info
  {
    LeavesBy(op) || (op.OpTick? && s.info[s.running].timeSlice == 1)
  }

  /** A running task runs on until it gives up; ticks, and nothing else, use its slice up. */
  lemma StepRunning<T>(s: State<T>, op: Op<T>, r: State<T>)
    requires IsStep(s, op, r) && s.running != s.idle
    ensures var t := s.running;
      && t in r.info && r.idle == s.idle
      && (if GivesUp(s, op) then r.running != t && r.info[t].timeSlice == 50
          else r.running == t && r.info[t].timeSlice == s.info[t].timeSlice - if op.OpTick? then 1 else 0)
  {
    assert Placed(s, s.running);
    match op
    case OpCreate(u, policy, naptime) => assert r == Create(s, u, policy, naptime);
    case OpBlock(st) => assert r == Block(s, st); BlockMoves(s, st);
    case OpSleep(until) => assert r == Sleep(s, until); SleepMoves(s, until);
    case OpUnblock(u) => assert r == Unblock(s, u); assert Placed(s, u);
    case OpTick =>
      assert r == Tick(s);
      if s.info[s.running].timeSlice == 1 { TickEndsSlice(s); } else { TickCounts(s); }
    case OpIdle =>
    case OpClock(now) =>
  }

  // ---------------------------------------------------------------- preemption

  lemma StepAt<T>(h: seq<State<T>>, ops: seq<Op<T>>, i: nat)
    requires Run(h, ops) && i < |ops|
    ensures |h| == |ops| + 1 && IsStep(h[i], ops[i], h[i + 1])
  {
  }

  /** The ticks among the steps from `a` to `i - 1`. */
  ghost function TicksIn<T>(ops: seq<Op<T>>, a: nat, i: nat): nat
    requires a <= i <= |ops|
    decreases i
  {
    if i == a then 0 else TicksIn(ops, a, i - 1) + if ops[i - 1].OpTick? then 1 else 0
  }

  /** No running task blocks or sleeps of its own accord in the steps from `a` to `i - 1`. */
  ghost predicate NoneLeaves<T>(ops: seq<Op<T>>, a: nat, i: nat)
    requires i <= |ops|
  {
    forall k :: a <= k < i ==> !LeavesBy(ops[k])
  }

  /** A task with slice `n` keeps the processor through the first n - 1 ticks, unless it leaves itself. */
  lemma {:induction false} KeepsProcessor<T>(h: seq<State<T>>, ops: seq<Op<T>>, a: nat, i: nat)
    requires Run(h, ops) && a <= i <= |ops| && Good(h[a]) && h[a].running != h[a].idle
    requires NoneLeaves(ops, a, i)
    requires TicksIn(ops, a, i) < h[a].info[h[a].running].timeSlice
    ensures var t := h[a].running;
      && Good(h[i]) && h[i].running == t && h[i].idle == h[a].idle
      && h[i].info[t].timeSlice == h[a].info[t].timeSlice - TicksIn(ops, a, i)
    decreases i
  {
    if i > a {
      KeepsProcessor(h, ops, a, i - 1);
      assert IsStep(h[i - 1], ops[i - 1], h[i]);
      StepKeeps(h[i - 1], ops[i - 1], h[i]);
      StepRunning(h[i - 1], ops[i - 1], h[i]);
    }
  }

  lemma TickStep<T>(s: State<T>, op: Op<T>, r: State<T>)
    requires IsStep(s, op, r) && op.OpTick? && s.running != s.idle && s.info[s.running].timeSlice == 1
    ensures Asleep(r, s.running, (s.now + 1) % WORD)
  {
    TickEndsSlice(s);
  }

  /** With tick number `n` it sleeps until the next clock count, and another task or the idle task runs. */
  lemma Preempted<T>(h: seq<State<T>>, ops: seq<Op<T>>, a: nat, i: nat)
    requires Run(h, ops) && a <= i < |ops| && Good(h[a]) && h[a].running != h[a].idle
    requires NoneLeaves(ops, a, i) && ops[i].OpTick?
    requires TicksIn(ops, a, i) + 1 == h[a].info[h[a].running].timeSlice
    ensures Asleep(h[i + 1], h[a].running, (h[i].now + 1) % WORD)
  {
    hide Good, IsStep, TicksIn, NoneLeaves, Asleep;
    StepAt(h, ops, i);
    hide Run;
    KeepsProcessor(h, ops, a, i);
    TickStep(h[i], ops[i], h[i + 1]);
  }

  /** So a task that runs throughout has seen fewer ticks than its slice had counts. */
  lemma {:induction false} FewTicks<T>(h: seq<State<T>>, ops: seq<Op<T>>, a: nat, i: nat)
    requires Run(h, ops) && a <= i <= |ops| && Good(h[a]) && h[a].running != h[a].idle
    requires forall k :: a <= k <= i ==> h[k].running == h[a].running
    ensures TicksIn(ops, a, i) < h[a].info[h[a].running].timeSlice
    ensures Good(h[i]) && h[i].idle == h[a].idle
    ensures h[i].info[h[a].running].timeSlice == h[a].info[h[a].running].timeSlice - TicksIn(ops, a, i)
    decreases i
  {
    assert Placed(h[a], h[a].running);
    if i > a {
      FewTicks(h, ops, a, i - 1);
      assert IsStep(h[i - 1], ops[i - 1], h[i]);
      StepKeeps(h[i - 1], ops[i - 1], h[i]);
      StepRunning(h[i - 1], ops[i - 1], h[i]);
      assert Placed(h[i - 1], h[i - 1].running);
    }
  }

  // ---------------------------------------------------------------- full slices

  lemma BlockSlices<T>(s: State<T>, st: TaskState, u: T)
    requires Good(s) && s.running != s.idle && u in s.info && u != s.running
    ensures u in Block(s, st).info && Block(s, st).info[u].timeSlice == s.info[u].timeSlice
  {
    if IsBlock(st) {
      ParkKeeps(s, st);
      ScheduleMoves(Park(s, st).(running := s.idle), u);
    }
  }

  lemma SleepSlices<T>(s: State<T>, until: nat, u: T)
    requires Good(s) && s.running != s.idle && u in s.info && u != s.running
    ensures u in Sleep(s, until).info && Sleep(s, until).info[u].timeSlice == s.info[u].timeSlice
  {
    NapKeeps(s, until);
    BlockSlices(Nap(s, until), Sleeping, u);
  }

  lemma UnblockSlices<T>(s: State<T>, v: T, u: T)
    requires Good(s) && v in s.info && u in s.info
    ensures u in Unblock(s, v).info && Unblock(s, v).info[u].timeSlice == s.info[u].timeSlice
  {
    assert Placed(s, v);
  }

  lemma WokenSlices<T>(s: State<T>, u: T)
    requires Good(s) && u in s.info
    ensures u in Woken(s).info && Woken(s).info[u].timeSlice == s.info[u].timeSlice
  {
    var a := s.(allow := false);
    LockKeeps(s, false);
    var k := FirstDue(a, 0);
    if k < |a.sleeping| {
      var t := a.sleeping[k];
      NaptimeKeeps(a, t, 0);
      UnblockSlices(SetInfo(a, t, a.info[t].(naptime := 0)), t, u);
    }
  }

  lemma TickSlices<T>(s: State<T>, u: T)
    requires Good(s) && u in s.info && (u != s.running || s.running == s.idle)
    ensures u in Tick(s).info && Tick(s).info[u].timeSlice == s.info[u].timeSlice
  {
    var s1 := Woken(s);
    WokenKeepsRunning(s);
    WokenSlices(s, u);
    TickParts(s);
    hide Sleep, Woken, Good, Tick;
    if s1.running != s1.idle && s1.info[s1.running].timeSlice == 1 {
      SleepSlices(s1, (s1.now + 1) % WORD, u);
    }
  }

  /** No step changes the slice of a task that does not run. */
  lemma OtherSlices<T>(s: State<T>, op: Op<T>, r: State<T>, u: T)
    requires IsStep(s, op, r) && u in s.info && (u != s.running || s.running == s.idle)
    ensures u in r.info && r.info[u].timeSlice == s.info[u].timeSlice
  {
    match op
    case OpCreate(t, policy, naptime) => assert r == Create(s, t, policy, naptime);
    case OpBlock(st) => assert r == Block(s, st); BlockSlices(s, st, u);
    case OpSleep(until) => assert r == Sleep(s, until); SleepSlices(s, until, u);
    case OpUnblock(v) => assert r == Unblock(s, v); UnblockSlices(s, v, u);
    case OpTick => assert r == Tick(s); TickSlices(s, u);
    case OpIdle => assert r == Schedule(s); ScheduleMoves(s, u);
    case OpClock(now) =>
  }

  /** All tasks but a running one have a full slice. */
  ghost predicate FullSlices<T>(s: State<T>) {
    forall u <- s.info :: u != s.running || u == s.idle ==> s.info[u].timeSlice == 50
  }

  /** A step adds no task but one that it creates, with a full slice. */
  lemma NewTasks<T>(s: State<T>, op: Op<T>, r: State<T>, u: T)
    requires IsStep(s, op, r) && u in r.info && u !in s.info
    ensures op.OpCreate? && op.t == u && r.info[u].timeSlice == 50
  {
    if !op.OpCreate? { PoliciesKept(s, op, r); }
  }

  /** Slices are full again whenever a task does not run; so a task that comes to run has 50 counts. */
  lemma SlicesStayFull<T>(s: State<T>, op: Op<T>, r: State<T>)
    requires IsStep(s, op, r) && FullSlices(s)
    ensures FullSlices(r) && r.running in r.info
    ensures r.running != s.running ==> r.info[r.running].timeSlice == 50
  {
    StepKeeps(s, op, r);
    if s.running != s.idle { StepRunning(s, op, r); }
    forall u | u in r.info && (u != r.running || u == r.idle || r.running != s.running)
      ensures r.info[u].timeSlice == 50
    {
      if u !in s.info { NewTasks(s, op, r, u); }
      else if u != s.running || s.running == s.idle { OtherSlices(s, op, r, u); }
    }
  }

  /** Over any run: a task that comes to run does so with 50 counts. */
  lemma {:induction false} StartsWithFullSlice<T>(h: seq<State<T>>, ops: seq<Op<T>>, i: nat)
    requires Run(h, ops) && Good(h[0]) && FullSlices(h[0]) && i <= |ops|
    ensures Good(h[i]) && FullSlices(h[i])
    ensures i > 0 && h[i].running != h[i - 1].running ==> h[i].info[h[i].running].timeSlice == 50
  {
    if i > 0 {
      StartsWithFullSlice(h, ops, i - 1);
      StepAt(h, ops, i - 1);
      hide FullSlices, IsStep;
      StepKeeps(h[i - 1], ops[i - 1], h[i]);
      SlicesStayFull(h[i - 1], ops[i - 1], h[i]);
    }
  }

  // ---------------------------------------------------------------- waiting, counted in ticks

  /** The steps from 0 to `i - 1` that are ticks while a task other than the idle one runs. */
  ghost function BusyTicks<T>(h: seq<State<T>>, ops: seq<Op<T>>): nat
    requires |h| == |ops| + 1
  {
    if ops == [] then 0
    else (if ops[0].OpTick? && h[0].running != h[0].idle then 1 else 0) + BusyTicks(h[1..], ops[1..])
  }

  /** What is left of the slice of a running task. */
  ghost function Remaining<T>(s: State<T>): nat
    requires s.running in s.info
  {
    if s.running == s.idle then 0 else s.info[s.running].timeSlice
  }

  lemma ScheduledRuns<T>(c: State<T>, r: State<T>)
    requires Good(c) && c.running == c.idle && (r == Schedule(c) || r == Schedule(c).(allow := true))
    ensures r.idle == c.idle && (c.allow && !NothingAvailable(c) ==> r.running == Pick(c) && r.running != r.idle)
    ensures !(c.allow && !NothingAvailable(c)) ==> r.running == r.idle
  {
    ScheduleMoves(c, c.idle);
  }

  /** A step that gives up the processor or is called by the idle task runs what it selects, if it selects anything. */
  lemma SelectionRuns<T>(s: State<T>, op: Op<T>, r: State<T>)
    requires IsStep(s, op, r) && (if s.running == s.idle then op.OpIdle? else GivesUp(s, op))
    ensures if Selects(s, op) then r.running == Selected(s, op) && r.running != r.idle else r.running == r.idle
  {
    if op.OpTick? { WokenKeepsRunning(s); }
    assert Calls(s, op).Some?;
    NextCalls(s, op);
    ScheduledRuns(Calls(s, op).value, r);
  }

  /** Each busy tick uses up the slice, and only a selection brings a new one, of at most 50 counts. */
  lemma StepBusy<T>(s: State<T>, op: Op<T>, r: State<T>)
    requires IsStep(s, op, r)
    ensures Good(r)
    ensures (if op.OpTick? && s.running != s.idle then 1 else 0) + Remaining(r)
      <= Remaining(s) + if Selects(s, op) then 50 else 0
  {
    StepKeeps(s, op, r);
    assert Placed(r, r.running) && Placed(s, s.running);
    if s.running != s.idle {
      StepRunning(s, op, r);
      if GivesUp(s, op) { SelectionRuns(s, op, r); }
    } else if op.OpIdle? {
      SelectionRuns(s, op, r);
    } else {
      IdleStays(s, op, r);
    }
  }

  /** The idle task runs on until it calls schedule(). */
  lemma IdleStays<T>(s: State<T>, op: Op<T>, r: State<T>)
    requires IsStep(s, op, r) && s.running == s.idle && !op.OpIdle?
    ensures r.running == r.idle == s.idle
  {
    match op
    case OpCreate(t, policy, naptime) => assert r == Create(s, t, policy, naptime);
    case OpUnblock(v) => assert r == Unblock(s, v); assert Placed(s, v);
    case OpTick => TickParts(s); WokenKeepsRunning(s); assert r == Tick(s);
    case OpClock(now) =>
  }

  lemma {:induction false} BusyBound<T>(h: seq<State<T>>, ops: seq<Op<T>>)
    requires Run(h, ops) && Good(h[0])
    ensures BusyTicks(h, ops) <= Remaining(h[0]) + 50 * Selections(h, ops)
    decreases |ops|
  {
    if ops != [] {
      StepAt(h, ops, 0);
      StepBusy(h[0], ops[0], h[1]);
      RunTail(h, ops);
      BusyBound(h[1..], ops[1..]);
    }
  }

  /**
   * Bounded waiting in ticks: while a task of policy 0 is available and no task is created, the running tasks get at
   * most 50 ticks for each unit of the priorities of the other tasks of policy 0, and 50 for the one that runs first.
   */
  lemma WaitInTicks<T>(h: seq<State<T>>, ops: seq<Op<T>>, t: T, us: seq<T>)
    requires Waits(h, ops, t) && Good(h[0]) && Others(us, h[0], t)
    requires forall u <- h[0].info :: u != t && u != h[0].idle && h[0].info[u].policy == 0 ==> u in us
    ensures BusyTicks(h, ops) <= 50 * (TotalPriority(us, h[0]) + 1)
  {
    BusyBound(h, ops);
    BoundedWaiting(h, ops, t, us);
    assert Placed(h[0], h[0].running);
  }
}
