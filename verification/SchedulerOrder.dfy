/** Who is asleep, who is blocked, and whose turn it is, over runs of steps and of calls. */
module SchedulerOrder {
  import opened Basics
  import opened Sequences
  import opened SchedulerCalls
  import opened SchedulerLaws
  import opened SchedulerSpec
  import opened SchedulerTheorems

  // ---------------------------------------------------------------- asleep until it is time

  /** Only its own unblocking, or a tick when it is due, takes a task out of the sleeping list. */
  lemma StaysAsleep<T>(s: State<T>, op: Op<T>, r: State<T>, t: T)
    requires IsStep(s, op, r) && t in s.info && t in s.sleeping
    requires op != OpUnblock(t) && (op.OpTick? ==> !Due(s, t))
    ensures t in r.sleeping && t in r.info && r.info[t].naptime == s.info[t].naptime
  {
    assert Placed(s, t);
    SleepersStay(s, op, t);
    StepTimes(s, op, r, t);
  }

  lemma SleepersStay<T>(s: State<T>, op: Op<T>, t: T)
    requires Good(s) && Enabled(s, op) && t in s.info && t in s.sleeping
    requires op != OpUnblock(t) && (op.OpTick? ==> !Due(s, t))
    ensures t in Next(s, op).sleeping
  {
    match op
    case OpCreate(u, policy, naptime) => assert Next(s, op).sleeping == s.sleeping;
    case OpBlock(st) => if IsBlock(st) { ParkSleeping(s, st); }
    case OpSleep(until) => NapSleeping(s, until);
    case OpUnblock(u) =>
      assert Placed(s, u) && Next(s, op) == Unblock(s, u);
      WithoutMembers(s.sleeping, u);
    case OpTick =>
      WokenSleeping(s);
      TickSleeping(s);
      var k := FirstDue(s, 0);
      if k < |s.sleeping| { WithoutMembers(s.sleeping, s.sleeping[k]); }
      assert Next(s, op) == Tick(s);
    case OpIdle => ScheduleMoves(s, t);
    case OpClock(now) =>
  }

  /** Call `x` unblocks task `t`. */
  ghost predicate Unblocks<T>(ts: seq<T>, cs: seq<Command<nat>>, ops: seq<Op<T>>, x: nat, t: T)
    requires x < |ops| <= |cs|
  {
    cs[x].CmdUnblock? && cs[x].u < |Tasks(ts, ops, x)| && Tasks(ts, ops, x)[cs[x].u] == t
  }

  lemma AnswerNames<T>(ts: seq<T>, cs: seq<Command<nat>>, h: seq<State<T>>, ops: seq<Op<T>>, x: nat, t: T)
    requires Answered(ts, cs, h, ops) && x < |ops|
    ensures |h| == |ops| + 1 && IsStep(h[x], ops[x], h[x + 1])
    ensures ops[x] == OpUnblock(t) <==> Unblocks(ts, cs, ops, x, t)
    ensures cs[x].CmdTick? <==> ops[x].OpTick?
    ensures cs[x].CmdSleep? && cs[x].milisec != 0 ==> ops[x] == OpSleep(WakeTime(cs[x].milisec, h[x].now))
    ensures cs[x].CmdBlock? ==> ops[x] == OpBlock(cs[x].st)
  {
    hide IsStep, Tasks;
    assert AnsweredAt(ts, cs, h, ops, x);
    StepAt(h, ops, x);
  }

  /**
   * A task that called sleep stays in the sleeping list as long as no call unblocks it and each timer interrupt finds
   * the clock below the time that it asked for.
   */
  lemma {:induction false} SleepsLongEnough<T>(
      ts: seq<T>, cs: seq<Command<nat>>, h: seq<State<T>>, ops: seq<Op<T>>, i: nat, j: nat)
    requires Answered(ts, cs, h, ops) && i < j <= |ops| && cs[i].CmdSleep? && cs[i].milisec != 0
    requires forall x :: i < x < j ==> !Unblocks(ts, cs, ops, x, h[i].running)
    requires forall x :: i < x < j && cs[x].CmdTick? ==> h[x].now < WakeTime(cs[i].milisec, h[i].now)
    ensures var t := h[i].running;
      t in h[j].sleeping && t in h[j].info && h[j].info[t].naptime == WakeTime(cs[i].milisec, h[i].now)
    decreases j
  {
    hide Good, Next, Answers, Resolved, WakeTime, Unblocks;
    var t, until := h[i].running, WakeTime(cs[i].milisec, h[i].now);
    if j == i + 1 {
      AnswerNames(ts, cs, h, ops, i, t);
      SleepStep(h[i], ops[i], h[j]);
    } else {
      SleepsLongEnough(ts, cs, h, ops, i, j - 1);
      AnswerNames(ts, cs, h, ops, j - 1, t);
      StaysAsleep(h[j - 1], ops[j - 1], h[j], t);
    }
  }

  lemma SleepStep<T>(s: State<T>, op: Op<T>, r: State<T>)
    requires IsStep(s, op, r) && op.OpSleep?
    ensures Asleep(r, s.running, op.until)
  {
    SleepMoves(s, op.until);
  }

  // ---------------------------------------------------------------- blocked until unblocked

  lemma BlockLists<T>(s: State<T>, st: TaskState)
    requires Good(s) && s.running != s.idle
    ensures var r, t := Block(s, st), s.running;
      && r.blocked == (if st == Blocked then s.blocked + [t] else s.blocked)
      && r.terminated == (if st == Terminated then s.terminated + [t] else s.terminated)
  {
    if IsBlock(st) {
      ParkKeeps(s, st);
      ScheduleMoves(Park(s, st).(running := s.idle), s.running);
    }
  }

  lemma SleepLists<T>(s: State<T>, until: nat)
    requires Good(s) && s.running != s.idle
    ensures Sleep(s, until).blocked == s.blocked && Sleep(s, until).terminated == s.terminated
  {
    NapKeeps(s, until);
    BlockLists(Nap(s, until), Sleeping);
  }

  lemma WokenLists<T>(s: State<T>)
    requires Good(s)
    ensures Woken(s).blocked == s.blocked && Woken(s).terminated == s.terminated
  {
    var a := s.(allow := false);
    LockKeeps(s, false);
    var k := FirstDue(a, 0);
    if k < |a.sleeping| {
      var t := a.sleeping[k];
      assert Placed(a, t);
      NaptimeKeeps(a, t, 0);
      assert Wake(a) == Unblock(SetInfo(a, t, a.info[t].(naptime := 0)), t);
    }
  }

  lemma TickLists<T>(s: State<T>)
    requires Good(s)
    ensures Tick(s).blocked == s.blocked && Tick(s).terminated == s.terminated
  {
    var s1 := Woken(s);
    TickParts(s);
    WokenLists(s);
    hide Sleep, Woken, Good, Tick;
    if s1.running != s1.idle && s1.info[s1.running].timeSlice == 1 { SleepLists(s1, (s1.now + 1) % WORD); }
  }

  /** Only its own unblocking takes a task out of the blocked or the terminated list. */
  lemma ParkedStay<T>(s: State<T>, op: Op<T>, r: State<T>, t: T)
    requires IsStep(s, op, r) && op != OpUnblock(t)
    ensures t in s.blocked ==> t in r.blocked
    ensures t in s.terminated ==> t in r.terminated
  {
    match op
    case OpCreate(u, policy, naptime) => assert r == Create(s, u, policy, naptime);
    case OpBlock(st) => assert r == Block(s, st); BlockLists(s, st);
    case OpSleep(until) => assert r == Sleep(s, until); SleepLists(s, until);
    case OpUnblock(u) =>
      assert Placed(s, u) && r == Unblock(s, u);
      WithoutMembers(s.blocked, u);
      WithoutMembers(s.terminated, u);
    case OpTick => assert r == Tick(s); TickLists(s);
    case OpIdle => assert r == Schedule(s); ScheduleMoves(s, s.idle);
    case OpClock(now) =>
  }

  lemma BlockStep<T>(s: State<T>, op: Op<T>, r: State<T>)
    requires IsStep(s, op, r) && op.OpBlock?
    ensures op.st == Blocked ==> s.running in r.blocked
    ensures op.st == Terminated ==> s.running in r.terminated
  {
    BlockLists(s, op.st);
  }

  /** A task that blocked or ended is in the list of its state until a call unblocks it. */
  lemma {:induction false} StaysBlocked<T>(
      ts: seq<T>, cs: seq<Command<nat>>, h: seq<State<T>>, ops: seq<Op<T>>, i: nat, j: nat)
    requires Answered(ts, cs, h, ops) && i < j <= |ops| && cs[i].CmdBlock?
    requires forall x :: i < x < j ==> !Unblocks(ts, cs, ops, x, h[i].running)
    ensures cs[i].st == Blocked ==> h[i].running in h[j].blocked
    ensures cs[i].st == Terminated ==> h[i].running in h[j].terminated
    decreases j
  {
    hide Good, Next, Answers, Resolved, Unblocks;
    var t := h[i].running;
    if j == i + 1 {
      AnswerNames(ts, cs, h, ops, i, t);
      BlockStep(h[i], ops[i], h[j]);
    } else {
      StaysBlocked(ts, cs, h, ops, i, j - 1);
      AnswerNames(ts, cs, h, ops, j - 1, t);
      ParkedStay(h[j - 1], ops[j - 1], h[j], t);
    }
  }

  // ---------------------------------------------------------------- available again

  /** A parked task that is unblocked is the last available task of its policy; another one is left alone. */
  lemma UnblockedIs<T>(s: State<T>, op: Op<T>, r: State<T>)
    requires IsStep(s, op, r) && op.OpUnblock?
    ensures var u := op.u;
      && u in s.info && r.running == s.running && r.now == s.now
      && (if u in s.blocked || u in s.sleeping || u in s.terminated then
            var p := s.info[u].policy;
            && p < POLICIES && r.avail == s.avail[p := s.avail[p] + [u]] && r.allow
            && u !in r.blocked && u !in r.sleeping && u !in r.terminated
            && r.info == s.info[u := s.info[u].(state := Available)]
            && (forall v <- s.info :: v != u ==>
                 ((v in r.blocked <==> v in s.blocked) && (v in r.sleeping <==> v in s.sleeping)
                  && (v in r.terminated <==> v in s.terminated)))
          else r == s.(allow := false))
  {
    assert Placed(s, op.u);
    WithoutMembers(s.blocked, op.u);
    WithoutMembers(s.sleeping, op.u);
    WithoutMembers(s.terminated, op.u);
  }

  lemma WokenNap<T>(s: State<T>, t: T)
    requires Good(s) && t in s.sleeping && t !in Woken(s).sleeping
    ensures t in Woken(s).info && Woken(s).info[t].naptime == 0 && t != Woken(s).running
  {
    WokenSleeping(s);
    WokenKeepsRunning(s);
    assert Placed(s, t);
    var a := s.(allow := false);
    LockKeeps(s, false);
    FirstDueSame(s, a, 0);
    var k := FirstDue(a, 0);
    var w := a.sleeping[k];
    WithoutMembers(s.sleeping, w);
    NaptimeKeeps(a, w, 0);
    UnblockTimes(SetInfo(a, w, a.info[w].(naptime := 0)), w, t);
  }

  lemma TickNap<T>(s: State<T>, t: T)
    requires Good(s) && t in s.sleeping && t !in Tick(s).sleeping
    ensures t in Tick(s).info && Tick(s).info[t].naptime == 0
  {
    var s1 := Woken(s);
    TickSleeping(s);
    WokenNap(s, t);
    TickParts(s);
    hide Sleep, Woken, Good, Tick;
    if s1.running != s1.idle && s1.info[s1.running].timeSlice == 1 { SleepTimes(s1, (s1.now + 1) % WORD, t); }
  }

  /** A task that a tick wakes is available, with its wake-up time cleared, or runs already. */
  lemma WokenIs<T>(s: State<T>, op: Op<T>, r: State<T>, t: T)
    requires IsStep(s, op, r) && op.OpTick? && t in s.sleeping && t !in r.sleeping
    ensures t in s.info && t in r.info && r.info[t].naptime == 0 && s.info[t].policy < POLICIES && |r.avail| == POLICIES
    ensures r.running == t || t in r.avail[s.info[t].policy]
  {
    TickNap(s, t);
    TickLists(s);
    StepKeeps(s, op, r);
    PoliciesKept(s, op, r);
    assert Placed(s, t) && Placed(r, t);
  }

  /** A new task is the last available one of its policy, with the priority of the policy and a full slice. */
  lemma CreatedIs<T>(s: State<T>, op: Op<T>, r: State<T>)
    requires IsStep(s, op, r) && op.OpCreate?
    ensures var t, p := op.t, op.policy;
      && p < POLICIES && r.avail == s.avail[p := s.avail[p] + [t]] && t !in s.info && t in r.info && r.allow
      && r.info[t].priority == r.info[t].reqPriority == (if p == 0 || p == 1 then 128 else 0)
      && r.info[t].policy == p && r.info[t].timeSlice == 50 && r.info[t].naptime == op.naptime
      && r.running == s.running && (forall u <- s.info :: u in r.info && r.info[u] == s.info[u])
  {
  }

  // ---------------------------------------------------------------- the lock

  /** Whether schedule() may switch after a step: the calls that fail leave it locked. */
  lemma LockIs<T>(s: State<T>, op: Op<T>, r: State<T>)
    requires IsStep(s, op, r)
    ensures r.allow == match op
      case OpCreate(_, _, _) => true
      case OpBlock(st) => IsBlock(st)
      case OpSleep(_) => true
      case OpUnblock(u) => u in s.blocked || u in s.sleeping || u in s.terminated
      case OpTick => true
      case OpIdle => s.allow
      case OpClock(_) => s.allow
    ensures op.OpIdle? && !s.allow ==> r == s
  {
    match op
    case OpBlock(st) => BlockMoves(s, st);
    case OpSleep(until) => SleepMoves(s, until);
    case OpUnblock(u) => UnblockedIs(s, op, r);
    case OpTick => TickParts(s);
    case _ =>
  }

  // ---------------------------------------------------------------- whose turn it is

  /** The tasks before position `b` of `s` have a lower priority than the one there, and no task has a higher one. */
  ghost predicate FirstBest<T>(s: seq<T>, info: map<T, Info>, b: nat)
    requires b < |s| && forall u <- s :: u in info
  {
    && (forall i :: 0 <= i < |s| ==> info[s[i]].priority <= info[s[b]].priority)
    && (forall i :: 0 <= i < b ==> info[s[i]].priority < info[s[b]].priority)
  }

  /** `x` is first in turn in the state `c`. */
  ghost predicate FirstInTurn<T>(c: State<T>, x: T) {
    && Good(c) && x in c.info && c.info[x].policy < POLICIES && x in c.avail[c.info[x].policy]
    && var p := c.info[x].policy;
    && (forall q :: 0 <= q < p ==> c.avail[q] == [])
    && (if p <= 1 then FirstBest(c.avail[p], c.info, IndexOf(c.avail[p], x)) else c.avail[p][0] == x)
  }

  lemma PickIs<T>(c: State<T>)
    requires Good(c) && !NothingAvailable(c)
    ensures FirstInTurn(c, Pick(c))
  {
    var x := Pick(c);
    assert Placed(c, x);
    var p := c.info[x].policy;
    assert forall q, u :: 0 <= q < POLICIES && u in c.avail[q] ==> Placed(c, u);
    hide Placed;
    var a := c.avail[p];
    assert p <= 1 ==> a[IndexOf(a, x)] == x && forall i :: 0 <= i < |a| ==> a[i] in a;
  }

  /**
   * What schedule() selects: a task of the first policy that has one; by priority for policies 0 and 1, the first of
   * equals; the one that waits longest for policies 2 and 3.
   */
  lemma SelectedIs<T>(s: State<T>, op: Op<T>)
    requires Good(s) && Enabled(s, op) && Selects(s, op)
    ensures FirstInTurn(Calls(s, op).value, Selected(s, op))
  {
    PickIs(Calls(s, op).value);
  }

  // ---------------------------------------------------------------- priorities

  /** Being selected takes one off the priority of a task of policy 0 or 1, and nothing else changes a priority. */
  lemma ScheduledPriority<T>(c: State<T>, t: T)
    requires Good(c) && c.running == c.idle && t in c.info
    ensures var r, i := Schedule(c), c.info[t];
      t in r.info && r.info[t].priority ==
        if c.allow && !NothingAvailable(c) && Pick(c) == t && i.policy <= 1
        then (if i.priority == 1 then i.reqPriority else i.priority - 1) else i.priority
  {
    assert Placed(c, t);
  }

  lemma PriorityStep<T>(s: State<T>, op: Op<T>, r: State<T>, t: T)
    requires IsStep(s, op, r) && t in s.info
    ensures t in r.info && r.info[t].policy == s.info[t].policy && r.info[t].reqPriority == s.info[t].reqPriority
    ensures r.info[t].priority ==
      if Selects(s, op) && Selected(s, op) == t && s.info[t].policy <= 1
      then (if s.info[t].priority == 1 then s.info[t].reqPriority else s.info[t].priority - 1)
      else s.info[t].priority
  {
    if op.OpCreate? {
      CreatedIs(s, op, r);
    } else if Calls(s, op).None? {
      NoCallSameQueue(s, op);
    } else {
      var c := Calls(s, op).value;
      CallsSameQueue(s, op);
      NextCalls(s, op);
      ScheduleMoves(c, t);
      ScheduledPriority(c, t);
      assert Placed(c, t);
    }
  }

  /** How often `t` is selected. */
  ghost function TimesSelected<T>(h: seq<State<T>>, ops: seq<Op<T>>, t: T): nat
    requires Run(h, ops)
  {
    if ops == [] then 0 else
      assert IsStep(h[0], ops[0], h[1]);
      RunTail(h, ops);
      (if Selects(h[0], ops[0]) && Selected(h[0], ops[0]) == t then 1 else 0) + TimesSelected(h[1..], ops[1..], t)
  }

  /** `q` is `m` places further down than `p` on the circle from `n` to 1, after `rounds` rounds. */
  ghost predicate Further(p: nat, q: nat, m: nat, n: nat, rounds: nat) {
    1 <= q <= n && q == p - m + rounds * n
  }

  lemma FurtherNext(p: nat, q: nat, m: nat, n: nat, rounds: nat)
    requires 1 <= p <= n && Further(if p == 1 then n else p - 1, q, m, n, rounds)
    ensures Further(p, q, m + 1, n, if p == 1 then rounds + 1 else rounds)
  {
    assert (rounds + 1) * n == rounds * n + n;
  }

  /** The priority goes round from the requested one down to 1 and again, one place with each selection. */
  lemma {:induction false} PriorityCycle<T>(h: seq<State<T>>, ops: seq<Op<T>>, t: T) returns (rounds: nat)
    requires Run(h, ops) && Good(h[0]) && t in h[0].info && h[0].info[t].policy <= 1
    ensures t in h[|ops|].info && h[|ops|].info[t].reqPriority == h[0].info[t].reqPriority
    ensures Further(h[0].info[t].priority, h[|ops|].info[t].priority,
                    TimesSelected(h, ops, t), h[0].info[t].reqPriority, rounds)
    decreases |ops|
  {
    assert Placed(h[0], t);
    rounds := 0;
    if ops != [] {
      StepAt(h, ops, 0);
      StepKeeps(h[0], ops[0], h[1]);
      PriorityStep(h[0], ops[0], h[1], t);
      RunTail(h, ops);
      hide Good, Run, IsStep, Further, Selects, Selected, Placed;
      rounds := PriorityCycle(h[1..], ops[1..], t);
      if Selects(h[0], ops[0]) && Selected(h[0], ops[0]) == t {
        var i := h[0].info[t];
        FurtherNext(i.priority, h[|ops|].info[t].priority, TimesSelected(h[1..], ops[1..], t), i.reqPriority, rounds);
        rounds := if i.priority == 1 then rounds + 1 else rounds;
      }
    }
  }

  // ---------------------------------------------------------------- first come, first served

  /** `b` is `a`, perhaps with a new element behind it. */
  ghost predicate Appended<T>(a: seq<T>, b: seq<T>) {
    b == a || (|b| > 0 && b[|b| - 1] !in a && b == a + [b[|b| - 1]])
  }

  lemma WokenQueue<T>(s: State<T>, p: nat)
    requires Good(s) && p < POLICIES
    ensures |Woken(s).avail| == POLICIES && Appended(s.avail[p], Woken(s).avail[p])
  {
    var a := s.(allow := false);
    LockKeeps(s, false);
    var k := FirstDue(a, 0);
    if k < |a.sleeping| {
      var t := a.sleeping[k];
      assert Placed(a, t);
      NaptimeKeeps(a, t, 0);
      assert Wake(a) == Unblock(SetInfo(a, t, a.info[t].(naptime := 0)), t);
    }
  }

  lemma CallsQueue<T>(s: State<T>, op: Op<T>, p: nat)
    requires Good(s) && Enabled(s, op) && Calls(s, op).Some? && p < POLICIES
    ensures var c := Calls(s, op).value; |c.avail| == POLICIES && Appended(s.avail[p], c.avail[p])
  {
    if op.OpTick? {
      var s1 := Woken(s);
      WokenQueue(s, p);
      assert Calls(s, op) == Some(SliceCall(s1));
      SliceCallParks(s1);
    }
  }

  lemma NoCallQueue<T>(s: State<T>, op: Op<T>, p: nat)
    requires Good(s) && Enabled(s, op) && Calls(s, op).None? && p < POLICIES
    ensures |Next(s, op).avail| == POLICIES && Appended(s.avail[p], Next(s, op).avail[p])
  {
    match op
    case OpCreate(t, policy, naptime) => CreateQueue(s, t, policy, naptime, p);
    case OpBlock(st) => assert Next(s, op) == Block(s, st);
    case OpUnblock(u) => assert Placed(s, u) && Next(s, op) == Unblock(s, u);
    case OpTick =>
      WokenQueue(s, p);
      TickParts(s);
      assert Next(s, op) == Tick(s);
    case OpClock(now) =>
  }

  lemma CreateQueue<T>(s: State<T>, t: T, policy: nat, naptime: nat, p: nat)
    requires Good(s) && t !in s.info && policy < POLICIES && p < POLICIES
    ensures var r := Create(s, t, policy, naptime); |r.avail| == POLICIES && Appended(s.avail[p], r.avail[p])
  {
  }

  /** schedule() takes what it selects out of the list of its policy. */
  lemma ScheduledQueue<T>(c: State<T>, p: nat)
    requires Good(c) && c.running == c.idle && p < POLICIES
    ensures var r, x := Schedule(c), Pick(c);
      |r.avail| == POLICIES && r.avail[p] ==
        if c.allow && !NothingAvailable(c) && c.info[x].policy == p then Without(c.avail[p], x) else c.avail[p]
  {
  }

  /** The step takes a task from the available tasks of policy `p`. */
  ghost predicate SelectsFrom<T>(s: State<T>, op: Op<T>, p: nat)
    requires Good(s) && Enabled(s, op)
  {
    Selects(s, op) && Calls(s, op).value.info[Selected(s, op)].policy == p
  }

  /** A task of policy 2 or 3 moves up one place with each selection from its list, and no step moves it back. */
  lemma QueueStep<T>(s: State<T>, op: Op<T>, r: State<T>, t: T, p: nat)
    requires IsStep(s, op, r) && 2 <= p < POLICIES && |r.avail| == POLICIES && t in s.avail[p] && t in r.avail[p]
    ensures IndexOf(r.avail[p], t) == IndexOf(s.avail[p], t) - if SelectsFrom(s, op, p) then 1 else 0
  {
    if Calls(s, op).None? {
      NoCallQueue(s, op, p);
      AppendedIndex(s.avail[p], r.avail[p], t);
    } else {
      CallsQueue(s, op, p);
      NextCalls(s, op);
      var c := Calls(s, op).value;
      AppendedIndex(s.avail[p], c.avail[p], t);
      ScheduledQueue(c, p);
      if SelectsFrom(s, op, p) {
        SelectedIs(s, op);
        HeadTaken(c.avail[p], t);
      }
    }
  }

  lemma AppendedIndex<T>(a: seq<T>, b: seq<T>, t: T)
    requires Appended(a, b) && t in a
    ensures t in b && IndexOf(b, t) == IndexOf(a, t)
  {
    if b != a { IndexOfAppend(a, b[|b| - 1], t); }
  }

  lemma HeadTaken<T>(a: seq<T>, t: T)
    requires Distinct(a) && a != [] && t in Without(a, a[0])
    ensures t in a && IndexOf(Without(a, a[0]), t) == IndexOf(a, t) - 1
  {
    WithoutMembers(a, a[0]);
    IndexOfWithout(a, a[0], t);
  }

  ghost function SelectionsFrom<T>(h: seq<State<T>>, ops: seq<Op<T>>, p: nat): nat
    requires Run(h, ops)
  {
    if ops == [] then 0 else
      assert IsStep(h[0], ops[0], h[1]);
      RunTail(h, ops);
      (if SelectsFrom(h[0], ops[0], p) then 1 else 0) + SelectionsFrom(h[1..], ops[1..], p)
  }

  /** First come, first served: while a task of policy 2 or 3 waits, just the tasks in front of it are taken. */
  lemma {:induction false} ServedInOrder<T>(h: seq<State<T>>, ops: seq<Op<T>>, t: T, p: nat)
    requires Run(h, ops) && Good(h[0]) && 2 <= p < POLICIES
    requires forall i :: 0 <= i < |h| ==> |h[i].avail| == POLICIES && t in h[i].avail[p]
    ensures IndexOf(h[|ops|].avail[p], t) == IndexOf(h[0].avail[p], t) - SelectionsFrom(h, ops, p)
    decreases |ops|
  {
    if ops != [] {
      StepAt(h, ops, 0);
      StepKeeps(h[0], ops[0], h[1]);
      QueueStep(h[0], ops[0], h[1], t, p);
      RunTail(h, ops);
      ServedInOrder(h[1..], ops[1..], t, p);
    }
  }

  // ---------------------------------------------------------------- preemption and waiting, in terms of the calls

  /** The timer interrupts among the calls from `a` to `i - 1`. */
  ghost function TickCallsIn(cs: seq<Command<nat>>, a: nat, i: nat): nat
    requires a <= i <= |cs|
    decreases i
  {
    if i == a then 0 else TickCallsIn(cs, a, i - 1) + if cs[i - 1].CmdTick? then 1 else 0
  }

  lemma {:induction false} SameTicks<T>(cs: seq<Command<nat>>, ops: seq<Op<T>>, a: nat, i: nat)
    requires a <= i <= |ops| <= |cs| && SameKinds(cs[..|ops|], ops)
    ensures TickCallsIn(cs, a, i) == TicksIn(ops, a, i)
    decreases i
  {
    if i > a {
      SameTicks(cs, ops, a, i - 1);
      assert cs[..|ops|][i - 1] == cs[i - 1];
    }
  }

  lemma CallsLeave<T>(ts: seq<T>, cs: seq<Command<nat>>, h: seq<State<T>>, ops: seq<Op<T>>, a: nat, i: nat)
    requires Answered(ts, cs, h, ops) && a <= i <= |ops| && forall k :: a <= k < i ==> !Leaves(cs[k])
    ensures NoneLeaves(ops, a, i) && TicksIn(ops, a, i) == TickCallsIn(cs, a, i)
  {
    AnsweredKinds(ts, cs, h, ops);
    SameTicks(cs, ops, a, i);
    hide Answered, Leaves, LeavesBy;
    forall k | a <= k < i ensures !LeavesBy(ops[k]) { assert cs[..|ops|][k] == cs[k]; }
  }

  /** A task runs on until it blocks or sleeps itself, or its slice of timer interrupts is used up. */
  lemma RunsOn<T>(ts: seq<T>, cs: seq<Command<nat>>, h: seq<State<T>>, ops: seq<Op<T>>, a: nat, i: nat)
    requires Answered(ts, cs, h, ops) && |h| == |ops| + 1 && a <= i <= |ops| && Good(h[a])
    requires h[a].running != h[a].idle && forall k :: a <= k < i ==> !Leaves(cs[k])
    requires TickCallsIn(cs, a, i) < h[a].info[h[a].running].timeSlice
    ensures h[i].running == h[a].running
  {
    hide Good, TicksIn, TickCallsIn;
    CallsLeave(ts, cs, h, ops, a, i);
    KeepsProcessor(h, ops, a, i);
  }

  /** The timer interrupt that uses the slice up puts it to sleep until the next clock count. */
  lemma PreemptedInTime<T>(ts: seq<T>, cs: seq<Command<nat>>, h: seq<State<T>>, ops: seq<Op<T>>, a: nat, i: nat)
    requires Answered(ts, cs, h, ops) && |h| == |ops| + 1 && a <= i < |ops| && Good(h[a])
    requires h[a].running != h[a].idle && (forall k :: a <= k < i ==> !Leaves(cs[k])) && cs[i].CmdTick?
    requires TickCallsIn(cs, a, i) + 1 == h[a].info[h[a].running].timeSlice
    ensures Asleep(h[i + 1], h[a].running, (h[i].now + 1) % WORD)
  {
    hide Good, TicksIn, TickCallsIn, Asleep;
    CallsLeave(ts, cs, h, ops, a, i);
    AnswerNames(ts, cs, h, ops, i, h[a].running);
    Preempted(h, ops, a, i);
  }

  /** The timer interrupts that meet a running task other than the idle one. */
  ghost function BusyCalls<T>(cs: seq<Command<nat>>, h: seq<State<T>>): nat
    requires |h| == |cs| + 1
  {
    if cs == [] then 0
    else (if cs[0].CmdTick? && h[0].running != h[0].idle then 1 else 0) + BusyCalls(cs[1..], h[1..])
  }

  lemma {:induction false} SameBusy<T>(cs: seq<Command<nat>>, h: seq<State<T>>, ops: seq<Op<T>>)
    requires |h| == |cs| + 1 && SameKinds(cs, ops)
    ensures BusyCalls(cs, h) == BusyTicks(h, ops)
  {
    if ops != [] { SameBusy(cs[1..], h[1..], ops[1..]); }
  }

  /**
   * Bounded waiting in time: an available task of policy 0 is selected before the running tasks have had more than 50
   * timer interrupts for each unit of the priorities of the other tasks of policy 0, and 50 more, if none is created.
   */
  lemma SelectedInTicks<T>(ts: seq<T>, cs: seq<Command<nat>>, h: seq<State<T>>, ops: seq<Op<T>>, t: T, us: seq<T>)
    requires Answered(ts, cs, h, ops) && Good(h[0]) && t in h[0].info && t in h[0].avail[0] && Others(us, h[0], t)
    requires forall u <- h[0].info :: u != t && u != h[0].idle && h[0].info[u].policy == 0 ==> u in us
    requires forall i :: 0 <= i < |ops| ==> !cs[i].CmdCreate?
    requires |h| == |ops| + 1 && BusyCalls(cs[..|ops|], h) > 50 * (TotalPriority(us, h[0]) + 1)
    ensures exists i :: 0 <= i <= |ops| && Good(h[i]) && t !in h[i].avail[0]
  {
    forall i | 0 <= i <= |ops| ensures Good(h[i]) && |h[i].avail| == POLICIES && t in h[i].info {
      GoodAt(h, ops, i, t);
    }
    hide Good, Run, AnsweredAt, Leaves, LeavesBy;
    if forall i :: 0 <= i <= |ops| ==> t in h[i].avail[0] {
      AnsweredKinds(ts, cs, h, ops);
      SameBusy(cs[..|ops|], h, ops);
      WaitInTicks(h, ops, t, us);
    }
  }
}
