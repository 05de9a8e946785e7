/** Runs of calls that reach the scheduler, and what they promise to the tasks. */
module SchedulerCalls {
  import opened Sequences
  import opened SchedulerSpec
  import opened SchedulerTheorems

  /** The calls that reach the scheduler from tasks and interrupts; `u` names a task. */
  datatype Command<T> =
    | CmdCreate(policy: nat, naptime: nat)
    | CmdBlock(st: TaskState)
    | CmdSleep(milisec: nat)
    | CmdUnblock(u: T)
    | CmdTick
    | CmdIdle
    | CmdClock(now: nat)

  /** The step of the machine that a call is, if it comes at time `now`. */
  ghost predicate Answers<T>(c: Command<T>, op: Op<T>, now: nat) {
    match c
    case CmdCreate(policy, naptime) => op.OpCreate? && op.policy == policy && op.naptime == naptime
    case CmdBlock(st) => op == OpBlock(st)
    case CmdSleep(milisec) => op == if milisec == 0 then OpClock(now) else OpSleep(WakeTime(milisec, now))
    case CmdUnblock(u) => op == OpUnblock(u)
    case CmdTick => op == OpTick
    case CmdIdle => op == OpIdle
    case CmdClock(time) => op == OpClock(time)
  }

  /** The tasks that can be named before step `i`: those in `ts`, then those created, in order. */
  ghost function Tasks<T>(ts: seq<T>, ops: seq<Op<T>>, i: nat): seq<T>
    requires i <= |ops|
  {
    if i == 0 then ts else Tasks(ts, ops, i - 1) + if ops[i - 1].OpCreate? then [ops[i - 1].t] else []
  }

  /** Call `c`, with the task it names. */
  function Resolved<T>(c: Command<nat>, ts: seq<T>): Command<T>
    requires c.CmdUnblock? ==> c.u < |ts|
  {
    match c
    case CmdCreate(policy, naptime) => CmdCreate(policy, naptime)
    case CmdBlock(st) => CmdBlock(st)
    case CmdSleep(milisec) => CmdSleep(milisec)
    case CmdUnblock(u) => CmdUnblock(ts[u])
    case CmdTick => CmdTick
    case CmdIdle => CmdIdle
    case CmdClock(now) => CmdClock(now)
  }

  /** Step `i` is call `i`. */
  ghost predicate AnsweredAt<T>(ts: seq<T>, cs: seq<Command<nat>>, h: seq<State<T>>, ops: seq<Op<T>>, i: nat)
    requires i < |ops| <= |cs| && |ops| < |h|
  {
    var named := Tasks(ts, ops, i);
    (cs[i].CmdUnblock? ==> cs[i].u < |named|) && Answers(Resolved(cs[i], named), ops[i], h[i].now)
  }

  /** `h` and `ops` are a run of the machine whose steps are the first calls of `cs`, one for one. */
  ghost predicate Answered<T>(ts: seq<T>, cs: seq<Command<nat>>, h: seq<State<T>>, ops: seq<Op<T>>) {
    Run(h, ops) && |ops| <= |cs| && forall i :: 0 <= i < |ops| ==> AnsweredAt(ts, cs, h, ops, i)
  }

  lemma AnsweredNone<T>(ts: seq<T>, cs: seq<Command<nat>>, s: State<T>)
    ensures Answered(ts, cs, [s], []) && Tasks(ts, [], 0) == ts
  {
  }

  lemma {:induction false} TasksExtended<T>(ts: seq<T>, ops: seq<Op<T>>, op: Op<T>, i: nat)
    requires i <= |ops|
    ensures Tasks(ts, ops + [op], i) == Tasks(ts, ops, i)
  {
    if i > 0 { TasksExtended(ts, ops, op, i - 1); }
  }

  lemma TasksNext<T>(ts: seq<T>, ops: seq<Op<T>>, i: nat)
    requires i < |ops|
    ensures Tasks(ts, ops, i + 1) == Tasks(ts, ops, i) + if ops[i].OpCreate? then [ops[i].t] else []
  {
  }

  /** One more call. */
  lemma AnsweredNext<T>(ts: seq<T>, cs: seq<Command<nat>>, h: seq<State<T>>, ops: seq<Op<T>>, op: Op<T>, r: State<T>)
    requires Answered(ts, cs, h, ops) && |ops| < |cs| && |h| == |ops| + 1 && IsStep(h[|ops|], op, r)
    requires var c, named := cs[|ops|], Tasks(ts, ops, |ops|);
      (c.CmdUnblock? ==> c.u < |named|) && Answers(Resolved(c, named), op, h[|ops|].now)
    ensures Answered(ts, cs, h + [r], ops + [op])
    ensures Tasks(ts, ops + [op], |ops| + 1) == Tasks(ts, ops, |ops|) + if op.OpCreate? then [op.t] else []
  {
    hide IsStep, Answers, Resolved, Tasks;
    var g, more := h + [r], ops + [op];
    TasksExtended(ts, ops, op, |ops|);
    TasksNext(ts, more, |ops|);
    forall i | 0 <= i < |more| ensures IsStep(g[i], more[i], g[i + 1]) && AnsweredAt(ts, cs, g, more, i) {
      TasksExtended(ts, ops, op, i);
      if i < |ops| { assert IsStep(h[i], ops[i], h[i + 1]) && AnsweredAt(ts, cs, h, ops, i); }
    }
  }

  // ---------------------------------------------------------------- counting calls

  /** The running task gives up the processor: task_block with a state that it knows, or sleep. */
  predicate Leaves<T>(c: Command<T>) {
    (c.CmdBlock? && IsBlock(c.st)) || (c.CmdSleep? && c.milisec != 0)
  }

  predicate LeavesBy<T>(op: Op<T>) {
    (op.OpBlock? && IsBlock(op.st)) || op.OpSleep?
  }

  function TickCalls<T>(cs: seq<Command<T>>): nat {
    if cs == [] then 0 else (if cs[0].CmdTick? then 1 else 0) + TickCalls(cs[1..])
  }

  function LeaveCalls<T>(cs: seq<Command<T>>): nat {
    if cs == [] then 0 else (if Leaves(cs[0]) then 1 else 0) + LeaveCalls(cs[1..])
  }

  function LeaveSteps<T>(ops: seq<Op<T>>): nat {
    if ops == [] then 0 else (if LeavesBy(ops[0]) then 1 else 0) + LeaveSteps(ops[1..])
  }

  /** Calls and steps of the same kinds. */
  ghost predicate SameKinds<T>(cs: seq<Command<nat>>, ops: seq<Op<T>>) {
    |cs| == |ops| && forall i :: 0 <= i < |ops| ==>
      (cs[i].CmdTick? <==> ops[i].OpTick?) && (Leaves(cs[i]) <==> LeavesBy(ops[i]))
  }

  lemma {:induction false} SameCounts<T>(cs: seq<Command<nat>>, ops: seq<Op<T>>)
    requires SameKinds(cs, ops)
    ensures TickCalls(cs) == Ticks(ops) && LeaveCalls(cs) == LeaveSteps(ops)
  {
    if ops != [] { SameCounts(cs[1..], ops[1..]); }
  }

  lemma AnswerKind<T>(c: Command<nat>, named: seq<T>, op: Op<T>, now: nat)
    requires (c.CmdUnblock? ==> c.u < |named|) && Answers(Resolved(c, named), op, now)
    ensures c.CmdTick? <==> op.OpTick?
    ensures c.CmdCreate? <==> op.OpCreate?
    ensures Leaves(c) <==> LeavesBy(op)
  {
  }

  lemma AnsweredKinds<T>(ts: seq<T>, cs: seq<Command<nat>>, h: seq<State<T>>, ops: seq<Op<T>>)
    requires Answered(ts, cs, h, ops)
    ensures SameKinds(cs[..|ops|], ops)
    ensures forall i :: 0 <= i < |ops| ==> (cs[i].CmdCreate? <==> ops[i].OpCreate?)
  {
    assert |h| == |ops| + 1;
    hide Run, Answers, Resolved, Leaves, LeavesBy;
    forall i | 0 <= i < |ops|
      ensures (cs[i].CmdTick? <==> ops[i].OpTick?) && (Leaves(cs[i]) <==> LeavesBy(ops[i]))
      ensures cs[i].CmdCreate? <==> ops[i].OpCreate?
    {
      assert AnsweredAt(ts, cs, h, ops, i);
      AnswerKind(cs[i], Tasks(ts, ops, i), ops[i], h[i].now);
    }
  }

  // ---------------------------------------------------------------- wake-up latency of the calls

  /** schedule() changes neither the clock nor a wake-up time. */
  lemma ScheduleTimes<T>(c: State<T>, t: T)
    requires Good(c) && c.running == c.idle && t in c.info
    ensures var r := Schedule(c); r.now == c.now && t in r.info && r.info[t].naptime == c.info[t].naptime
  {
  }

  lemma BlockTimes<T>(s: State<T>, st: TaskState, t: T)
    requires Good(s) && s.running != s.idle && t in s.info
    ensures var r := Block(s, st); r.now == s.now && t in r.info && r.info[t].naptime == s.info[t].naptime
  {
    if IsBlock(st) {
      ParkKeeps(s, st);
      ScheduleTimes(Park(s, st).(running := s.idle), t);
    }
  }

  lemma SleepTimes<T>(s: State<T>, until: nat, t: T)
    requires Good(s) && s.running != s.idle && t in s.info && t != s.running
    ensures var r := Sleep(s, until); r.now == s.now && t in r.info && r.info[t].naptime == s.info[t].naptime
  {
    NapKeeps(s, until);
    BlockTimes(Nap(s, until), Sleeping, t);
  }

  lemma UnblockTimes<T>(s: State<T>, u: T, t: T)
    requires Good(s) && u in s.info && t in s.info
    ensures var r := Unblock(s, u); r.now == s.now && t in r.info && r.info[t].naptime == s.info[t].naptime
  {
    assert Placed(s, u);
  }

  lemma WokenTimes<T>(s: State<T>, t: T)
    requires Good(s) && t in s.info && t in s.sleeping && t in Woken(s).sleeping
    ensures var r := Woken(s);
      && r.now == s.now && r.running == s.running && r.idle == s.idle
      && t in r.info && r.info[t].naptime == s.info[t].naptime
  {
    WokenSleeping(s);
    var a := s.(allow := false);
    LockKeeps(s, false);
    FirstDueSame(s, a, 0);
    var k := FirstDue(a, 0);
    if k < |a.sleeping| {
      var w := a.sleeping[k];
      WithoutMembers(s.sleeping, w);
      NaptimeKeeps(a, w, 0);
      UnblockTimes(SetInfo(a, w, a.info[w].(naptime := 0)), w, t);
    }
  }

  lemma TickTimes<T>(s: State<T>, t: T)
    requires Good(s) && t in s.info && t in s.sleeping && t in Tick(s).sleeping
    ensures var r := Tick(s); r.now == s.now && t in r.info && r.info[t].naptime == s.info[t].naptime
  {
    hide Sleep;
    var s1 := Woken(s);
    TickSleeping(s);
    WokenRunning(s);
    assert Placed(s, t) && t in s1.sleeping;
    WokenTimes(s, t);
    if s1.running != s1.idle && s1.info[s1.running].timeSlice == 1 {
      SleepTimes(s1, (s1.now + 1) % WORD, t);
    }
  }

  /** A task that stays asleep keeps its wake-up time, and only the clock changes the time. */
  lemma StepTimes<T>(s: State<T>, op: Op<T>, r: State<T>, t: T)
    requires IsStep(s, op, r) && t in s.info && t in s.sleeping && t in r.sleeping
    ensures r.now == (if op.OpClock? then op.now else s.now)
    ensures t in r.info && r.info[t].naptime == s.info[t].naptime
  {
    assert Placed(s, t);
    match op
    case OpCreate(u, policy, naptime) => assert r == Create(s, u, policy, naptime);
    case OpBlock(st) => assert r == Block(s, st); BlockTimes(s, st, t);
    case OpSleep(until) => assert r == Sleep(s, until); SleepTimes(s, until, t);
    case OpUnblock(u) => assert r == Unblock(s, u); UnblockTimes(s, u, t);
    case OpTick => assert r == Tick(s); TickTimes(s, t);
    case OpIdle => assert r == Schedule(s); ScheduleTimes(s, t);
    case OpClock(now) =>
  }

  /** The calls never set the clock to a time before `time`. */
  ghost predicate ClockFrom(cs: seq<Command<nat>>, time: nat) {
    forall i :: 0 <= i < |cs| && cs[i].CmdClock? ==> cs[i].now >= time
  }

  /** A due task stays due while it sleeps. */
  lemma {:induction false} StaysDue<T>(
      ts: seq<T>, cs: seq<Command<nat>>, h: seq<State<T>>, ops: seq<Op<T>>, t: T, i: nat)
    requires Answered(ts, cs, h, ops) && i <= |ops| && t in h[0].info && Due(h[0], t)
    requires ClockFrom(cs[..|ops|], h[0].info[t].naptime) && forall k :: 0 <= k <= i ==> t in h[k].sleeping
    ensures t in h[i].info && h[i].info[t].naptime == h[0].info[t].naptime && Due(h[i], t)
  {
    hide Good, Answers, Resolved, Next;
    if i > 0 {
      StaysDue(ts, cs, h, ops, t, i - 1);
      assert IsStep(h[i - 1], ops[i - 1], h[i]) && AnsweredAt(ts, cs, h, ops, i - 1);
      StepTimes(h[i - 1], ops[i - 1], h[i], t);
      assert cs[..|ops|][i - 1] == cs[i - 1];
      if ops[i - 1].OpClock? { ClockStep(cs[i - 1], Tasks(ts, ops, i - 1), ops[i - 1], h[i - 1].now); }
    }
  }

  lemma ClockStep<T>(c: Command<nat>, named: seq<T>, op: Op<T>, now: nat)
    requires (c.CmdUnblock? ==> c.u < |named|) && Answers(Resolved(c, named), op, now) && op.OpClock?
    ensures op.now == now || (c.CmdClock? && c.now == op.now)
  {
  }

  /**
   * Wake-up latency: a due task at position k of the sleeping list is awake after at most k + 1 timer interrupts,
   * whatever the other calls are, unless they set the clock back before its wake-up time.
   */
  lemma AwakeInTime<T>(ts: seq<T>, cs: seq<Command<nat>>, h: seq<State<T>>, ops: seq<Op<T>>, t: T)
    requires Answered(ts, cs, h, ops) && Good(h[0])
    requires t in h[0].info && t in h[0].sleeping && h[0].info[t].naptime <= h[0].now
    requires ClockFrom(cs[..|ops|], h[0].info[t].naptime)
    requires TickCalls(cs[..|ops|]) > IndexOf(h[0].sleeping, t)
    ensures exists i :: 0 <= i <= |ops| && t !in h[i].sleeping
  {
    if forall i :: 0 <= i <= |ops| ==> t in h[i].sleeping {
      AnsweredKinds(ts, cs, h, ops);
      SameCounts(cs[..|ops|], ops);
      forall i | 0 <= i <= |ops| ensures t in h[i].info && Due(h[i], t) { StaysDue(ts, cs, h, ops, t, i); }
      WakeLatency(h, ops, t);
    }
  }

  // ---------------------------------------------------------------- bounded waiting for the calls

  /** A call that gives up the processor makes an effective call of schedule() while some task is available. */
  lemma LeavingSelects<T>(s: State<T>, op: Op<T>)
    requires Good(s) && Enabled(s, op) && LeavesBy(op) && !NothingAvailable(s)
    ensures Selects(s, op)
  {
  }

  lemma {:induction false} LeavesSelect<T>(h: seq<State<T>>, ops: seq<Op<T>>, t: T)
    requires Waits(h, ops, t) && Good(h[0])
    ensures LeaveSteps(ops) <= Selections(h, ops)
    decreases |ops|
  {
    hide Good;
    if ops != [] {
      assert IsStep(h[0], ops[0], h[1]);
      StepKeeps(h[0], ops[0], h[1]);
      RunTail(h, ops);
      if LeavesBy(ops[0]) { LeavingSelects(h[0], ops[0]); }
      LeavesSelect(h[1..], ops[1..], t);
    }
  }

  /**
   * Bounded waiting: an available task of policy 0 is taken out of its list before the running tasks have blocked or
   * slept more often than the sum of the priorities that the other tasks of policy 0 were created with, if no task is
   * created.
   */
  lemma SelectedInTime<T>(ts: seq<T>, cs: seq<Command<nat>>, h: seq<State<T>>, ops: seq<Op<T>>, t: T, us: seq<T>)
    requires Answered(ts, cs, h, ops) && Good(h[0]) && t in h[0].info && t in h[0].avail[0] && Others(us, h[0], t)
    requires forall u <- h[0].info :: u != t && u != h[0].idle && h[0].info[u].policy == 0 ==> u in us
    requires forall i :: 0 <= i < |ops| ==> !cs[i].CmdCreate?
    requires LeaveCalls(cs[..|ops|]) > TotalPriority(us, h[0])
    ensures exists i :: 0 <= i <= |ops| && Good(h[i]) && t !in h[i].avail[0]
  {
    forall i | 0 <= i <= |ops| ensures Good(h[i]) && |h[i].avail| == POLICIES && t in h[i].info {
      GoodAt(h, ops, i, t);
    }
    hide Good, Run, AnsweredAt, Leaves, LeavesBy;
    if forall i :: 0 <= i <= |ops| ==> t in h[i].avail[0] {
      AnsweredKinds(ts, cs, h, ops);
      SameCounts(cs[..|ops|], ops);
      LeavesSelect(h, ops, t);
      BoundedWaiting(h, ops, t, us);
    }
  }

  lemma {:induction false} GoodAt<T>(h: seq<State<T>>, ops: seq<Op<T>>, i: nat, t: T)
    requires Run(h, ops) && Good(h[0]) && i <= |ops| && t in h[0].info
    ensures Good(h[i]) && t in h[i].info
  {
    if i > 0 {
      GoodAt(h, ops, i - 1, t);
      assert IsStep(h[i - 1], ops[i - 1], h[i]);
      StepKeeps(h[i - 1], ops[i - 1], h[i]);
      TasksStay(h[i - 1], ops[i - 1], h[i], t);
    }
  }

  /** No step forgets a task. */
  lemma TasksStay<T>(s: State<T>, op: Op<T>, r: State<T>, t: T)
    requires IsStep(s, op, r) && t in s.info
    ensures t in r.info
  {
    match op
    case OpCreate(u, policy, naptime) => assert r == Create(s, u, policy, naptime);
    case _ => PoliciesKept(s, op, r);
  }
}
