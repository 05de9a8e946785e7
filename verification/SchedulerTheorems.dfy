/** Liveness bounds of the scheduler over whole runs. */
module SchedulerTheorems {
  import opened Basics
  import opened Sequences
  import opened SchedulerSpec

  // ---------------------------------------------------------------- positions

  lemma {:induction false} IndexOfAppend<T>(s: seq<T>, x: T, t: T)
    requires t in s
    ensures IndexOf(s + [x], t) == IndexOf(s, t)
  {
    assert (s + [x])[0] == s[0];
    if s[0] != t {
      assert (s + [x])[1..] == s[1..] + [x];
      IndexOfAppend(s[1..], x, t);
    }
  }

  /** Taking out an element moves those behind it up by one. */
  lemma {:induction false} IndexOfWithout<T>(s: seq<T>, x: T, t: T)
    requires Distinct(s) && t in s && x in s && x != t
    ensures t in Without(s, x)
    ensures IndexOf(Without(s, x), t) == IndexOf(s, t) - if IndexOf(s, x) < IndexOf(s, t) then 1 else 0
  {
    WithoutMembers(s, x);
    if s[0] == x {
      assert s[1..][0..] == s[1..];
    } else if s[0] != t {
      assert s == [s[0]] + s[1..];
      IndexOfWithout(s[1..], x, t);
    }
  }

  lemma {:induction false} IndexOfAt<T>(s: seq<T>, i: nat)
    requires Distinct(s) && i < |s|
    ensures IndexOf(s, s[i]) == i
  {
    if i > 0 {
      assert s[1..][i - 1] == s[i];
      IndexOfAt(s[1..], i - 1);
    }
  }

  /** `u` stands before `t` in `s`. */
  ghost predicate Before<T>(s: seq<T>, u: T, t: T)
    requires t in s
  {
    u in s && IndexOf(s, u) < IndexOf(s, t)
  }

  lemma BeforeAppend<T>(s: seq<T>, x: T, u: T, t: T)
    requires t in s && x !in s
    ensures Before(s + [x], u, t) == Before(s, u, t)
  {
    IndexOfAppend(s, x, t);
    if u in s {
      IndexOfAppend(s, x, u);
    } else if u == x {
      assert forall k :: 0 <= k < |s| ==> (s + [x])[k] == s[k] && s[k] != x;
    }
  }

  lemma BeforeWithout<T>(s: seq<T>, x: T, u: T, t: T)
    requires Distinct(s) && t in s && x != t
    ensures t in Without(s, x)
    ensures Before(Without(s, x), u, t) == (u != x && Before(s, u, t))
  {
    WithoutMembers(s, x);
    if x !in s {
      WithoutAbsent(s, x);
    } else if u in s && u != x {
      OrderWithout(s, x, u, t);
    }
  }

  /** Taking out another element keeps the order of two elements. */
  lemma OrderWithout<T>(s: seq<T>, x: T, u: T, t: T)
    requires Distinct(s) && t in s && x in s && u in s && x != t && x != u
    ensures t in Without(s, x) && u in Without(s, x)
    ensures IndexOf(Without(s, x), u) < IndexOf(Without(s, x), t) <==> IndexOf(s, u) < IndexOf(s, t)
  {
    IndexOfWithout(s, x, t);
    IndexOfWithout(s, x, u);
    IndexOfOther(s, x, t);
    IndexOfOther(s, x, u);
  }

  lemma IndexOfOther<T>(s: seq<T>, x: T, t: T)
    requires x in s && t in s && x != t
    ensures IndexOf(s, x) != IndexOf(s, t)
  {
    assert s[IndexOf(s, x)] == x && s[IndexOf(s, t)] == t;
  }

  // ---------------------------------------------------------------- bounded waiting

  /** How often `u` can still be selected while `t` waits in the list of policy 0. */
  ghost function Debt<T>(s: State<T>, u: T, t: T): nat
    requires Good(s) && u in s.info && t in s.info && t in s.avail[0]
  {
    var p, q, r := s.info[u].priority, s.info[t].priority, s.info[u].reqPriority;
    if p > q then p - q
    else if p == q && Before(s.avail[0], u, t) then (if p == 1 then r else 1)
    else 0
  }

  /** No debt exceeds the priority the task was created with. */
  lemma DebtBound<T>(s: State<T>, u: T, t: T)
    requires Good(s) && u in s.info && t in s.info && t in s.avail[0] && s.info[u].policy == 0
    ensures Debt(s, u, t) <= s.info[u].reqPriority
  {
    assert Placed(s, u) && Placed(s, t);
  }

  /** While `t` waits, selecting another task lowers that task's debt and leaves the other debts alone. */
  lemma SelectionLowersDebt<T>(s: State<T>, t: T, u: T)
    requires Good(s) && s.running == s.idle && s.allow && t in s.avail[0] && t in s.info
    requires Pick(s) != t && u in s.info && u != t && s.info[u].policy == 0
    ensures Good(Schedule(s)) && t in Schedule(s).avail[0]
    ensures Debt(Schedule(s), u, t) <= Debt(s, u, t) - if u == Pick(s) then 1 else 0
    ensures s.info[Pick(s)].policy == 0 && Pick(s) != s.idle
  {
    var x := Pick(s);
    ScheduleKeeps(s);
    assert Placed(s, x) && Placed(s, t) && Placed(s, u);
    BeforeWithout(s.avail[0], x, u, t);
    var j := IndexOf(s.avail[0], t);
    assert s.avail[0][j] == t && s.avail[0][IndexOf(s.avail[0], x)] == x;
  }

  /** `r` differs from `s` in nothing that the debt towards `t` depends on, except tasks queued behind `t`. */
  ghost predicate SameQueue<T>(s: State<T>, r: State<T>) {
    && Good(s) && Good(r) && s.info.Keys <= r.info.Keys && r.idle == s.idle
    && (r.avail[0] == s.avail[0] || (|r.avail[0]| > 0 && r.avail[0][|r.avail[0]| - 1] !in s.avail[0]
          && r.avail[0] == s.avail[0] + [r.avail[0][|r.avail[0]| - 1]]))
    && forall u <- s.info :: u in r.info && r.info[u].priority == s.info[u].priority
         && r.info[u].reqPriority == s.info[u].reqPriority && r.info[u].policy == s.info[u].policy
  }

  lemma SameQueueSameDebt<T>(s: State<T>, r: State<T>, u: T, t: T)
    requires SameQueue(s, r) && u in s.info && t in s.info && t in s.avail[0]
    ensures t in r.avail[0] && Debt(r, u, t) == Debt(s, u, t)
  {
    if r.avail[0] != s.avail[0] {
      BeforeAppend(s.avail[0], r.avail[0][|r.avail[0]| - 1], u, t);
    }
  }

  lemma UnblockSameQueue<T>(s: State<T>, t: T)
    requires Good(s) && t in s.info
    ensures SameQueue(s, Unblock(s, t)) && Unblock(s, t).info.Keys == s.info.Keys
  {
    UnblockKeeps(s, t);
    assert Placed(s, t);
  }

  lemma WakeSameQueue<T>(s: State<T>)
    requires Good(s)
    ensures SameQueue(s, Wake(s)) && Wake(s).info.Keys == s.info.Keys
  {
    WakeKeeps(s);
    var k := FirstDue(s, 0);
    if k < |s.sleeping| {
      var t := s.sleeping[k];
      var s1 := SetInfo(s, t, s.info[t].(naptime := 0));
      NaptimeKeeps(s, t, 0);
      assert Wake(s) == Unblock(s1, t);
      UnblockSameQueue(s1, t);
    }
  }

  lemma ParkSameQueue<T>(s: State<T>, st: TaskState)
    requires Good(s) && s.running != s.idle && IsBlock(st)
    ensures var r := Park(s, st).(running := s.idle);
      SameQueue(s, r) && r.info.Keys == s.info.Keys && r.running == r.idle && r.allow
  {
    ParkKeeps(s, st);
  }

  lemma FlagSameQueue<T>(s: State<T>, allow: bool)
    requires Good(s)
    ensures SameQueue(s, s.(allow := allow))
  {
    LockKeeps(s, allow);
  }

  lemma NapSameQueue<T>(s: State<T>, until: nat)
    requires Good(s)
    ensures SameQueue(s, Nap(s, until)) && Nap(s, until).info.Keys == s.info.Keys
  {
    NapKeeps(s, until);
  }

  lemma SameQueueTransitive<T>(s: State<T>, m: State<T>, r: State<T>)
    requires SameQueue(s, m) && SameQueue(m, r) && (m.avail[0] == s.avail[0] || r.avail[0] == m.avail[0])
    ensures SameQueue(s, r)
  {
  }

  // ---------------------------------------------------------------- which operations select

  /** The state in which a used-up time slice calls schedule(). */
  ghost function SliceCall<T>(s: State<T>): (c: State<T>)
    requires Good(s) && s.running != s.idle
    ensures Good(c) && c.running == c.idle
  {
    NapKeeps(s, (s.now + 1) % WORD);
    ParkKeeps(Nap(s, (s.now + 1) % WORD), Sleeping);
    Park(Nap(s, (s.now + 1) % WORD), Sleeping).(running := s.idle)
  }

  /** The state in which an operation calls schedule(), if it does; the task that leaves is already in its list. */
  ghost function Calls<T>(s: State<T>, op: Op<T>): (c: Option<State<T>>)
    requires Good(s) && Enabled(s, op)
    ensures c.Some? ==> Good(c.value) && c.value.running == c.value.idle
  {
    match op
    case OpIdle => Some(s)
    case OpBlock(st) => if IsBlock(st) then ParkKeeps(s, st); Some(Park(s, st).(running := s.idle)) else None
    case OpSleep(until) => NapKeeps(s, until); ParkKeeps(Nap(s, until), Sleeping);
      Some(Park(Nap(s, until), Sleeping).(running := s.idle))
    case OpTick =>
      var s1 := Woken(s);
      if s1.running == s1.idle || s1.info[s1.running].timeSlice != 1 then None else Some(SliceCall(s1))
    case _ => None
  }

  /** The operation makes an effective call of schedule(): one that selects a task. */
  ghost predicate Selects<T>(s: State<T>, op: Op<T>)
    requires Good(s) && Enabled(s, op)
  {
    var c := Calls(s, op);
    c.Some? && c.value.allow && !NothingAvailable(c.value)
  }

  ghost function Selected<T>(s: State<T>, op: Op<T>): T
    requires Good(s) && Enabled(s, op) && Selects(s, op)
  {
    Pick(Calls(s, op).value)
  }

  lemma ScheduleDebt<T>(c: State<T>, u: T, t: T)
    requires Good(c) && c.running == c.idle && t in c.info && t in c.avail[0] && t in Schedule(c).avail[0]
    requires u in c.info && u != t && c.info[u].policy == 0
    ensures Good(Schedule(c)) && u in Schedule(c).info
    ensures Debt(Schedule(c), u, t) <= Debt(c, u, t) - if c.allow && u == Pick(c) then 1 else 0
    ensures c.allow ==> c.info[Pick(c)].policy == 0 && Pick(c) != t && Pick(c) != c.idle
  {
    ScheduleKeeps(c);
    if c.allow {
      assert Placed(c, t) && Placed(c, Pick(c));
      WithoutMembers(c.avail[0], Pick(c));
      SelectionLowersDebt(c, t, u);
    }
  }

  /** Parking changes nothing that debts depend on. */
  lemma NapParkSameQueue<T>(s: State<T>, until: nat)
    requires Good(s) && s.running != s.idle
    ensures var r := Park(Nap(s, until), Sleeping).(running := s.idle);
      SameQueue(s, r) && r.info.Keys == s.info.Keys && r.avail[0] == s.avail[0]
  {
    var n := Nap(s, until);
    NapSameQueue(s, until);
    ParkSameQueue(n, Sleeping);
    var r := Park(n, Sleeping).(running := n.idle);
    SameQueueTransitive(s, n, r);
  }

  lemma WokenSameQueue<T>(s: State<T>)
    requires Good(s)
    ensures SameQueue(s, Woken(s)) && Woken(s).info.Keys == s.info.Keys
  {
    var a := s.(allow := false);
    FlagSameQueue(s, false);
    WakeSameQueue(a);
    SameQueueTransitive(s, a, Woken(s));
  }

  lemma CallsSameQueue<T>(s: State<T>, op: Op<T>)
    requires Good(s) && Enabled(s, op) && Calls(s, op).Some?
    ensures var c := Calls(s, op).value; SameQueue(s, c) && c.info.Keys == s.info.Keys
  {
    match op
    case OpIdle =>
    case OpBlock(st) => ParkSameQueue(s, st);
    case OpSleep(until) => NapParkSameQueue(s, until);
    case OpTick => TickCallsSameQueue(s);
  }

  lemma TickCallsSameQueue<T>(s: State<T>)
    requires Good(s) && Calls(s, OpTick).Some?
    ensures var c := Calls(s, OpTick).value; SameQueue(s, c) && c.info.Keys == s.info.Keys
  {
    var s1 := Woken(s);
    var c := SliceCall(s1);
    assert Calls(s, OpTick) == Some(c);
    SliceCallParks(s1);
    WokenSameQueue(s);
    NapParkSameQueue(s1, (s1.now + 1) % WORD);
    SameQueueTransitive(s, s1, c);
  }

  lemma SliceCalls<T>(s: State<T>)
    requires Good(s) && s.running != s.idle && s.info[s.running].timeSlice == 1
    ensures Slice(s) == Schedule(SliceCall(s))
  {
    SleepCalls(s, (s.now + 1) % WORD);
    SliceCallParks(s);
  }

  lemma SliceCallParks<T>(s: State<T>)
    requires Good(s) && s.running != s.idle
    ensures SliceCall(s) == Park(Nap(s, (s.now + 1) % WORD), Sleeping).(running := s.idle)
  {
  }

  /** sleep ends with a call of schedule() for the task that has just been parked. */
  lemma SleepCalls<T>(s: State<T>, until: nat)
    requires Good(s) && s.running != s.idle
    ensures var c := Park(Nap(s, until), Sleeping).(running := s.idle);
      Good(c) && c.running == c.idle && Sleep(s, until) == Schedule(c)
  {
    var n := Nap(s, until);
    NapKeeps(s, until);
    ParkKeeps(n, Sleeping);
    assert Sleep(s, until) == Block(n, Sleeping);
    assert Block(n, Sleeping) == Leave(Park(n, Sleeping));
  }

  lemma TickCalls<T>(s: State<T>, s1: State<T>)
    requires Good(s) && s1 == Woken(s) && s1.running != s1.idle && s1.info[s1.running].timeSlice == 1
    ensures Tick(s) == Slice(s1).(allow := true)
  {
  }

  lemma NextCalls<T>(s: State<T>, op: Op<T>)
    requires Good(s) && Enabled(s, op) && Calls(s, op).Some?
    ensures var r := Schedule(Calls(s, op).value); Next(s, op) == if op.OpTick? then r.(allow := true) else r
  {
    match op
    case OpIdle =>
    case OpBlock(st) => assert Next(s, op) == Leave(Park(s, st));
    case OpSleep(until) => assert Next(s, op) == Leave(Park(Nap(s, until), Sleeping));
    case OpTick =>
      var s1 := Woken(s);
      TickCalls(s, s1);
      var c := SliceCall(s1);
      SliceCalls(s1);
      assert Calls(s, op) == Some(c);
      assert Next(s, op) == Tick(s);
  }

  lemma NoCallSameQueue<T>(s: State<T>, op: Op<T>)
    requires Good(s) && Enabled(s, op) && Calls(s, op).None? && !op.OpCreate?
    ensures SameQueue(s, Next(s, op)) && Next(s, op).info.Keys == s.info.Keys
  {
    match op
    case OpBlock(st) => FlagSameQueue(s, false);
    case OpUnblock(u) => UnblockSameQueue(s, u);
    case OpTick => TickSameQueue(s);
    case OpClock(now) => ClockKeeps(s, now);
  }

  lemma TickSameQueue<T>(s: State<T>)
    requires Good(s) && Calls(s, OpTick).None?
    ensures SameQueue(s, Tick(s)) && Tick(s).info.Keys == s.info.Keys
  {
    hide Sleep, Unblock;
    var s1 := Woken(s);
    WokenSameQueue(s);
    var s2 := if s1.running != s1.idle then Slice(s1) else s1;
    assert SameQueue(s1, s2) && s2.avail[0] == s1.avail[0] by {
      if s1.running != s1.idle { SliceKeeps(s1); }
    }
    FlagSameQueue(s2, true);
    SameQueueTransitive(s, s1, s2);
    SameQueueTransitive(s, s2, s2.(allow := true));
  }

  /** The case of a step that calls schedule(). */
  lemma CallDebt<T>(s: State<T>, op: Op<T>, r: State<T>, c: State<T>, u: T, t: T)
    requires IsStep(s, op, r) && Good(r) && !op.OpCreate? && Calls(s, op) == Some(c)
    requires t in s.info && t in s.avail[0] && t in r.avail[0] && u in s.info && u != t && s.info[u].policy == 0
    ensures r.info.Keys == s.info.Keys
    ensures Debt(r, u, t) <= Debt(s, u, t) - if c.allow && u == Pick(c) then 1 else 0
  {
    hide Good, Pick;
    CallsSameQueue(s, op);
    NextCalls(s, op);
    SameQueueSameDebt(s, c, u, t);
    var d := Schedule(c);
    assert d.avail == r.avail && d.info == r.info;
    ScheduleDebt(c, u, t);
    assert Debt(r, u, t) == Debt(d, u, t);
  }

  /** One step: the debt of the task that is selected drops, and no other debt grows. */
  lemma StepDebt<T>(s: State<T>, op: Op<T>, r: State<T>, u: T, t: T)
    requires IsStep(s, op, r) && !op.OpCreate?
    requires t in s.info && t in s.avail[0] && |r.avail| == POLICIES && t in r.avail[0]
    requires u in s.info && u != t && s.info[u].policy == 0
    ensures Good(r) && r.info.Keys == s.info.Keys
    ensures Debt(r, u, t) <= Debt(s, u, t) - if Selects(s, op) && u == Selected(s, op) then 1 else 0
  {
    StepKeeps(s, op, r);
    if Calls(s, op).None? {
      NoCallSameQueue(s, op);
      SameQueueSameDebt(s, r, u, t);
    } else {
      CallDebt(s, op, r, Calls(s, op).value, u, t);
    }
  }

  lemma ScheduledIsOther<T>(c: State<T>, t: T)
    requires Good(c) && c.running == c.idle && c.allow && t in c.info && t in c.avail[0] && t in Schedule(c).avail[0]
    ensures Pick(c) in c.info && c.info[Pick(c)].policy == 0 && Pick(c) != t && Pick(c) != c.idle
  {
    var x := Pick(c);
    assert Placed(c, t) && Placed(c, x);
    WithoutMembers(c.avail[0], x);
  }

  /** What is selected while `t` waits is another task of policy 0. */
  lemma SelectedIsOther<T>(s: State<T>, op: Op<T>, r: State<T>, t: T)
    requires IsStep(s, op, r) && !op.OpCreate?
    requires t in s.info && t in s.avail[0] && |r.avail| == POLICIES && t in r.avail[0]
    requires Selects(s, op)
    ensures Selected(s, op) in s.info && s.info[Selected(s, op)].policy == 0
    ensures Selected(s, op) != t && Selected(s, op) != s.idle
  {
    var c := Calls(s, op).value;
    CallsSameQueue(s, op);
    NextCalls(s, op);
    assert Schedule(c).avail == r.avail;
    ScheduledIsOther(c, t);
  }

  ghost predicate Others<T>(us: seq<T>, s: State<T>, t: T) {
    && Distinct(us) && forall u <- us :: u in s.info && u != t && s.info[u].policy == 0
  }

  ghost function TotalDebt<T>(us: seq<T>, s: State<T>, t: T): nat
    requires Good(s) && t in s.info && t in s.avail[0] && forall u <- us :: u in s.info
  {
    if us == [] then 0 else Debt(s, us[0], t) + TotalDebt(us[1..], s, t)
  }

  ghost function TotalPriority<T>(us: seq<T>, s: State<T>): nat
    requires forall u <- us :: u in s.info
  {
    if us == [] then 0 else s.info[us[0]].reqPriority + TotalPriority(us[1..], s)
  }

  lemma {:induction false} TotalDebtBound<T>(us: seq<T>, s: State<T>, t: T)
    requires Good(s) && t in s.info && t in s.avail[0] && Others(us, s, t)
    ensures TotalDebt(us, s, t) <= TotalPriority(us, s)
  {
    if us != [] {
      DebtBound(s, us[0], t);
      TotalDebtBound(us[1..], s, t);
    }
  }

  lemma {:induction false} StepTotalDebt<T>(us: seq<T>, s: State<T>, op: Op<T>, r: State<T>, t: T)
    requires IsStep(s, op, r) && !op.OpCreate?
    requires t in s.info && t in s.avail[0] && |r.avail| == POLICIES && t in r.avail[0]
    requires Others(us, s, t)
    ensures Good(r) && r.info.Keys == s.info.Keys
    ensures TotalDebt(us, r, t) <= TotalDebt(us, s, t) - if Selects(s, op) && Selected(s, op) in us then 1 else 0
  {
    hide Good;
    StepKeeps(s, op, r);
    assert r.info.Keys == s.info.Keys by {
      if Calls(s, op).None? { NoCallSameQueue(s, op); } else { CallsSameQueue(s, op); NextCalls(s, op); }
    }
    if us != [] {
      StepDebt(s, op, r, us[0], t);
      StepTotalDebt(us[1..], s, op, r, t);
    }
  }

  /** Task `t` waits in the list of policy 0 throughout the run, and no task is created. */
  ghost predicate Waits<T>(h: seq<State<T>>, ops: seq<Op<T>>, t: T) {
    && Run(h, ops)
    && (forall i :: 0 <= i < |h| ==> t in h[i].info && |h[i].avail| == POLICIES && t in h[i].avail[0])
    && (forall op <- ops :: !op.OpCreate?)
  }

  /** The number of effective schedule() calls of a run. */
  ghost function Selections<T>(h: seq<State<T>>, ops: seq<Op<T>>): nat
    requires Run(h, ops)
  {
    if ops == [] then 0 else
      assert IsStep(h[0], ops[0], h[1]);
      RunTail(h, ops);
      (if Selects(h[0], ops[0]) then 1 else 0) + Selections(h[1..], ops[1..])
  }

  lemma RunTail<T>(h: seq<State<T>>, ops: seq<Op<T>>)
    requires Run(h, ops) && ops != []
    ensures Run(h[1..], ops[1..])
  {
    forall i | 0 <= i < |ops[1..]| ensures IsStep(h[1..][i], ops[1..][i], h[1..][i + 1]) {
      assert IsStep(h[i + 1], ops[i + 1], h[i + 2]);
    }
  }

  lemma {:induction false} SelectionsBound<T>(h: seq<State<T>>, ops: seq<Op<T>>, t: T, us: seq<T>)
    requires Waits(h, ops, t) && Good(h[0]) && Others(us, h[0], t)
    requires forall u <- h[0].info :: u != t && u != h[0].idle && h[0].info[u].policy == 0 ==> u in us
    ensures Selections(h, ops) <= TotalDebt(us, h[0], t)
    decreases |ops|
  {
    if ops != [] {
      assert IsStep(h[0], ops[0], h[1]) && ops[0] in ops;
      RunTail(h, ops);
      StepTotalDebt(us, h[0], ops[0], h[1], t);
      if Selects(h[0], ops[0]) { SelectedIsOther(h[0], ops[0], h[1], t); }
      PoliciesKept(h[0], ops[0], h[1]);
      SelectionsBound(h[1..], ops[1..], t, us);
    }
  }

  lemma CallPolicies<T>(s: State<T>, op: Op<T>, r: State<T>, c: State<T>)
    requires IsStep(s, op, r) && Calls(s, op) == Some(c)
    ensures r.info.Keys == s.info.Keys && forall u <- s.info :: r.info[u].policy == s.info[u].policy
    ensures r.idle == s.idle
  {
    hide Good, Pick;
    CallsSameQueue(s, op);
    NextCalls(s, op);
    assert Schedule(c).info == r.info;
  }

  lemma PoliciesKept<T>(s: State<T>, op: Op<T>, r: State<T>)
    requires IsStep(s, op, r) && !op.OpCreate?
    ensures r.info.Keys == s.info.Keys && forall u <- s.info :: r.info[u].policy == s.info[u].policy
    ensures r.idle == s.idle
  {
    if Calls(s, op).None? {
      NoCallSameQueue(s, op);
    } else {
      CallPolicies(s, op, r, Calls(s, op).value);
    }
  }

  /** Bounded waiting: while a task of policy 0 is available and no task is created, other tasks are selected at most
      as often as the sum of the priorities that the other tasks of policy 0 were created with. */
  lemma BoundedWaiting<T>(h: seq<State<T>>, ops: seq<Op<T>>, t: T, us: seq<T>)
    requires Waits(h, ops, t) && Good(h[0]) && Others(us, h[0], t)
    requires forall u <- h[0].info :: u != t && u != h[0].idle && h[0].info[u].policy == 0 ==> u in us
    ensures Selections(h, ops) <= TotalPriority(us, h[0])
  {
    SelectionsBound(h, ops, t, us);
    TotalDebtBound(us, h[0], t);
  }

  // ---------------------------------------------------------------- wake-up latency

  /** The sleeping list after schedule(), and after parking the running task. */
  lemma ParkSleeping<T>(s: State<T>, st: TaskState)
    requires Good(s) && s.running != s.idle && IsBlock(st)
    ensures Block(s, st).sleeping == if st == Sleeping then s.sleeping + [s.running] else s.sleeping
  {
    var p := Park(s, st);
    ParkKeeps(s, st);
    var c := p.(running := s.idle);
    assert Block(s, st) == Schedule(c);
    assert Schedule(c).sleeping == c.sleeping;
  }

  lemma NapSleeping<T>(s: State<T>, until: nat)
    requires Good(s) && s.running != s.idle
    ensures Sleep(s, until).sleeping == s.sleeping + [s.running]
  {
    NapKeeps(s, until);
    ParkSleeping(Nap(s, until), Sleeping);
  }

  /** manage_sleeping_tasks takes exactly the first due task out of the list. */
  lemma WokenSleeping<T>(s: State<T>)
    requires Good(s)
    ensures var k := FirstDue(s, 0);
      Woken(s).sleeping == if k == |s.sleeping| then s.sleeping else Without(s.sleeping, s.sleeping[k])
  {
    var a := s.(allow := false);
    LockKeeps(s, false);
    FirstDueSame(s, a, 0);
    var k := FirstDue(a, 0);
    if k < |a.sleeping| {
      var t := a.sleeping[k];
      assert Placed(a, t);
      var s1 := SetInfo(a, t, a.info[t].(naptime := 0));
      NaptimeKeeps(a, t, 0);
      assert Wake(a) == Unblock(s1, t);
    }
  }

  lemma {:induction false} FirstDueSame<T>(s: State<T>, a: State<T>, i: nat)
    requires i <= |s.sleeping| && (forall t <- s.sleeping :: t in s.info) && a == s.(allow := a.allow)
    ensures FirstDue(a, i) == FirstDue(s, i)
    decreases |s.sleeping| - i
  {
    if i < |s.sleeping| && !Due(s, s.sleeping[i]) { FirstDueSame(s, a, i + 1); }
  }

  lemma TickSleeping<T>(s: State<T>)
    requires Good(s)
    ensures Tick(s).sleeping == Woken(s).sleeping ||
      (Woken(s).running !in Woken(s).sleeping && Tick(s).sleeping == Woken(s).sleeping + [Woken(s).running])
  {
    hide Sleep;
    var s1 := Woken(s);
    if s1.running != s1.idle {
      assert Placed(s1, s1.running);
      var s2 := Slice(s1);
      assert Tick(s) == s2.(allow := true);
      if s1.info[s1.running].timeSlice == 1 {
        assert s2 == Sleep(s1, (s1.now + 1) % WORD);
        NapSleeping(s1, (s1.now + 1) % WORD);
      }
    } else {
      assert Tick(s) == s1.(allow := true);
    }
  }

  /** Taking out an element at or before `t` and appending another one moves `t` one place forward. */
  lemma RankDrops<T>(s: seq<T>, k: nat, f: seq<T>, r: T, t: T)
    requires Distinct(s) && k < |s| && t in s && k <= IndexOf(s, t) && t != r
    requires var w := Without(s, s[k]); f == w || (r !in w && f == w + [r])
    requires t in f
    ensures IndexOf(f, t) == IndexOf(s, t) - 1
  {
    var w := Without(s, s[k]);
    WithoutMembers(s, s[k]);
    assert t in w && t != s[k];
    IndexOfAt(s, k);
    IndexOfWithout(s, s[k], t);
    IndexOfOther(s, s[k], t);
    if f != w { IndexOfAppend(w, r, t); }
  }

  /** A tick moves a due task that stays asleep one place forward. */
  lemma TickRank<T>(s: State<T>, t: T)
    requires Good(s) && t in s.info && t in s.sleeping && Due(s, t) && t in Tick(s).sleeping
    ensures IndexOf(Tick(s).sleeping, t) == IndexOf(s.sleeping, t) - 1
  {
    var k, f, s1 := FirstDue(s, 0), Tick(s).sleeping, Woken(s);
    assert s.sleeping[IndexOf(s.sleeping, t)] == t;
    WokenSleeping(s);
    TickSleeping(s);
    WokenRunning(s);
    assert Placed(s, t) && Placed(s, s.running);
    RankDrops(s.sleeping, k, f, s1.running, t);
  }

  lemma WokenRunning<T>(s: State<T>)
    requires Good(s)
    ensures Woken(s).running == s.running
  {
  }

  /** No other operation moves a task that stays asleep back. */
  lemma OtherRank<T>(s: State<T>, op: Op<T>, t: T)
    requires Good(s) && Enabled(s, op) && !op.OpTick?
    requires t in s.info && t in s.sleeping && t in Next(s, op).sleeping
    ensures IndexOf(Next(s, op).sleeping, t) <= IndexOf(s.sleeping, t)
  {
    assert Placed(s, t);
    match op
    case OpCreate(u, policy, naptime) => assert Next(s, op).sleeping == s.sleeping;
    case OpBlock(st) =>
      assert Next(s, op) == Block(s, st);
      if IsBlock(st) {
        ParkSleeping(s, st);
        if st == Sleeping { IndexOfAppend(s.sleeping, s.running, t); }
      }
    case OpSleep(until) =>
      assert Next(s, op) == Sleep(s, until);
      NapSleeping(s, until);
      IndexOfAppend(s.sleeping, s.running, t);
    case OpUnblock(u) =>
      assert Next(s, op) == Unblock(s, u);
      assert Placed(s, u);
      WithoutMembers(s.sleeping, u);
      if u in s.sleeping && u != t { IndexOfWithout(s.sleeping, u, t); }
    case OpIdle => assert Next(s, op).sleeping == s.sleeping;
    case OpClock(now) =>
  }

  /** Task `t` sleeps throughout the run and is due at every tick. */
  ghost predicate Oversleeps<T>(h: seq<State<T>>, ops: seq<Op<T>>, t: T) {
    && Run(h, ops)
    && (forall i :: 0 <= i < |h| ==> t in h[i].info && t in h[i].sleeping)
    && (forall i :: 0 <= i < |ops| && ops[i].OpTick? ==> Due(h[i], t))
  }

  ghost function Ticks<T>(ops: seq<Op<T>>): nat {
    if ops == [] then 0 else (if ops[0].OpTick? then 1 else 0) + Ticks(ops[1..])
  }

  /** Wake-up latency: a due task at position k of the sleeping list survives at most k ticks asleep, whatever other
      tasks go to sleep meanwhile; the tick number k + 1 finds it awake. */
  lemma {:induction false} WakeLatency<T>(h: seq<State<T>>, ops: seq<Op<T>>, t: T)
    requires Oversleeps(h, ops, t) && Good(h[0])
    ensures Ticks(ops) <= IndexOf(h[0].sleeping, t)
    decreases |ops|
  {
    if ops != [] {
      assert IsStep(h[0], ops[0], h[1]);
      StepKeeps(h[0], ops[0], h[1]);
      RunTail(h, ops);
      if ops[0].OpTick? {
        assert Next(h[0], ops[0]) == Tick(h[0]);
        TickRank(h[0], t);
      } else {
        OtherRank(h[0], ops[0], t);
      }
      forall i | 0 <= i < |ops[1..]| && ops[1..][i].OpTick? ensures Due(h[1..][i], t) { assert ops[i + 1].OpTick?; }
      WakeLatency(h[1..], ops[1..], t);
    }
  }
}
