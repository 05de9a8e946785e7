/** The scheduler as a machine over sequences of tasks (Process/process.c, without the pointers). */
module SchedulerSpec {
  import opened Sequences

  const DEFAULT_TIME_SLICE: nat := 50
  const DEFAULT_PRIORITY: nat := 128
  const POLICIES: nat := 4
  const WORD: nat := 0x1_0000_0000

  datatype TaskState = Active | Available | Terminated | Blocked | Sleeping | Waiting

  datatype Info = Info(state: TaskState, policy: nat, priority: nat, reqPriority: nat, timeSlice: nat, naptime: nat)

  /** `avail` has one list per policy; `idle` is the scheduler task. */
  datatype State<T(==)> = State(
    avail: seq<seq<T>>, sleeping: seq<T>, blocked: seq<T>, terminated: seq<T>,
    running: T, idle: T, info: map<T, Info>, now: nat, allow: bool)

  // ---------------------------------------------------------------- the invariant

  /** `t` is where its state says, and nowhere else; the idle task is in no list. */
  ghost predicate Placed<T>(s: State<T>, t: T)
    requires |s.avail| == POLICIES && t in s.info
  {
    var i := s.info[t];
    && (forall p :: 0 <= p < POLICIES ==> (t in s.avail[p] <==> t != s.idle && i.state == Available && i.policy == p))
    && (t in s.sleeping <==> t != s.idle && i.state == Sleeping)
    && (t in s.blocked <==> t != s.idle && i.state == Blocked)
    && (t in s.terminated <==> t != s.idle && i.state == Terminated)
    && (i.state == Active <==> t == s.running || t == s.idle)
    && i.state != Waiting && i.policy < POLICIES
    && (i.policy <= 1 ==> 1 <= i.priority <= i.reqPriority < 256)
    && 1 <= i.timeSlice <= DEFAULT_TIME_SLICE
  }

  ghost predicate Good<T>(s: State<T>) {
    && |s.avail| == POLICIES && s.running in s.info && s.idle in s.info
    && (forall p :: 0 <= p < POLICIES ==> Distinct(s.avail[p]) && forall t <- s.avail[p] :: t in s.info)
    && Distinct(s.sleeping) && (forall t <- s.sleeping :: t in s.info)
    && Distinct(s.blocked) && (forall t <- s.blocked :: t in s.info)
    && Distinct(s.terminated) && (forall t <- s.terminated :: t in s.info)
    && (forall t {:trigger Placed(s, t)} :: t in s.info ==> Placed(s, t))
  }

  /** Everywhere a task can be. */
  ghost function Places<T>(s: State<T>): multiset<T>
    requires |s.avail| == POLICIES
  {
    multiset(s.avail[0]) + multiset(s.avail[1]) + multiset(s.avail[2]) + multiset(s.avail[3])
    + multiset(s.sleeping) + multiset(s.blocked) + multiset(s.terminated)
    + if s.running == s.idle then multiset{} else multiset{s.running}
  }

  lemma {:induction false} CountInDistinct<T>(s: seq<T>, t: T)
    requires Distinct(s)
    ensures multiset(s)[t] == if t in s then 1 else 0
  {
    if s != [] {
      var init, last := s[..|s| - 1], s[|s| - 1];
      assert s == init + [last];
      CountInDistinct(init, t);
    }
  }

  /** Conservation: every task but the idle one is in exactly one place. */
  lemma ExactlyOnePlace<T>(s: State<T>, t: T)
    requires Good(s)
    ensures Places(s)[t] == if t in s.info && t != s.idle then 1 else 0
  {
    forall p | 0 <= p < POLICIES ensures multiset(s.avail[p])[t] == if t in s.avail[p] then 1 else 0 {
      CountInDistinct(s.avail[p], t);
    }
    CountInDistinct(s.sleeping, t);
    CountInDistinct(s.blocked, t);
    CountInDistinct(s.terminated, t);
    if t in s.info { assert Placed(s, t); }
  }

  // ---------------------------------------------------------------- selection

  /** The leftmost task of highest priority. */
  ghost function Best<T>(s: seq<T>, info: map<T, Info>): (b: T)
    requires s != [] && forall t <- s :: t in info
    ensures b in s && forall t <- s :: info[t].priority <= info[b].priority
    ensures forall i :: 0 <= i < IndexOf(s, b) ==> info[s[i]].priority < info[b].priority
  {
    if |s| == 1 then s[0]
    else
      var init, last := s[..|s| - 1], s[|s| - 1];
      var b := Best(init, info);
      assert s == init + [last];
      if info[last].priority > info[b].priority then last else b
  }

  /** Leftmost and maximal determine the selection. */
  lemma BestIs<T>(s: seq<T>, info: map<T, Info>, b: nat)
    requires b < |s| && forall t <- s :: t in info
    requires forall i :: 0 <= i < |s| ==> info[s[i]].priority <= info[s[b]].priority
    requires forall i :: 0 <= i < b ==> info[s[i]].priority < info[s[b]].priority
    ensures Best(s, info) == s[b]
  {
    var t := Best(s, info);
    var k := IndexOf(s, t);
    assert s[k] == t && s[b] in s;
  }

  ghost predicate NothingAvailable<T>(s: State<T>)
    requires |s.avail| == POLICIES
  {
    s.avail[0] == [] && s.avail[1] == [] && s.avail[2] == [] && s.avail[3] == []
  }

  /** Policies 0 and 1 by priority, then policies 2 and 3 in order, then the idle task. */
  ghost function Pick<T>(s: State<T>): (t: T)
    requires Good(s)
    ensures t in s.info && (NothingAvailable(s) ==> t == s.idle)
    ensures !NothingAvailable(s) ==>
      t != s.idle && s.info[t].state == Available && s.info[t].policy < POLICIES && t in s.avail[s.info[t].policy]
  {
    var t :=
      if s.avail[0] != [] then Best(s.avail[0], s.info)
      else if s.avail[1] != [] then Best(s.avail[1], s.info)
      else if s.avail[2] != [] then s.avail[2][0]
      else if s.avail[3] != [] then s.avail[3][0]
      else s.idle;
    assert Placed(s, t);
    t
  }

  /** A priority is counted down by each selection and starts over when it reaches 0 (8-bit arithmetic). */
  function Decayed(i: Info): Info {
    var p := (i.priority + 255) % 256;
    i.(priority := if p == 0 then i.reqPriority else p)
  }

  // ---------------------------------------------------------------- transitions

  ghost function SetInfo<T>(s: State<T>, t: T, i: Info): State<T> {
    s.(info := s.info[t := i])
  }

  /** `t` leaves the available list of its policy and runs; the switch unlocks task switching. */
  ghost function RunTask<T>(s: State<T>, t: T): State<T>
    requires Good(s) && t in s.info && s.info[t].policy < POLICIES
  {
    var i := s.info[t];
    var p := i.policy;
    State(s.avail[p := Without(s.avail[p], t)], s.sleeping, s.blocked, s.terminated,
          t, s.idle, s.info[t := (if p <= 1 then Decayed(i) else i).(state := Active)], s.now, true)
  }

  /** schedule() called by the idle task. */
  ghost function Schedule<T>(s: State<T>): State<T>
    requires Good(s) && s.running == s.idle
  {
    if !s.allow then s
    else if !NothingAvailable(s) then assert Placed(s, Pick(s)); RunTask(s, Pick(s))
    else s
  }

  /** task_list_insert_back(available_tasks[task->policy], task), with the state change before it. */
  ghost function Enqueued<T>(s: State<T>, t: T): State<T>
    requires |s.avail| == POLICIES && t in s.info && s.info[t].policy < POLICIES
  {
    var p := s.info[t].policy;
    s.(avail := s.avail[p := s.avail[p] + [t]], info := s.info[t := s.info[t].(state := Available)], allow := true)
  }

  /** The queueing part of create_task_handler. */
  ghost function Create<T>(s: State<T>, t: T, policy: nat, naptime: nat): State<T>
    requires Good(s) && t !in s.info && policy < POLICIES
  {
    var priority := if policy <= 1 then DEFAULT_PRIORITY else 0;
    Enqueued(SetInfo(s, t, Info(Available, policy, priority, priority, DEFAULT_TIME_SLICE, naptime)), t)
  }

  /** task_unblock */
  ghost function Unblock<T>(s: State<T>, t: T): State<T>
    requires Good(s) && t in s.info
  {
    assert Placed(s, t);
    match s.info[t].state
    case Blocked => Enqueued(s.(blocked := Without(s.blocked, t)), t)
    case Sleeping => Enqueued(s.(sleeping := Without(s.sleeping, t)), t)
    case Terminated => Enqueued(s.(terminated := Without(s.terminated, t)), t)
    case _ => s.(allow := false)
  }

  predicate IsBlock(st: TaskState) {
    st == Blocked || st == Sleeping || st == Terminated
  }

  /** The first half of task_block: the running task joins the list of `st`. */
  ghost function Park<T>(s: State<T>, st: TaskState): State<T>
    requires s.running in s.info && IsBlock(st)
  {
    var t := s.running;
    s.(blocked := if st == Blocked then s.blocked + [t] else s.blocked,
       sleeping := if st == Sleeping then s.sleeping + [t] else s.sleeping,
       terminated := if st == Terminated then s.terminated + [t] else s.terminated,
       info := s.info[t := s.info[t].(state := st, timeSlice := DEFAULT_TIME_SLICE)], allow := true)
  }

  /** A state in which the running task has just been parked: it is in a list although it is still running. */
  ghost predicate Parked<T>(s: State<T>) {
    && s.running in s.info && IsBlock(s.info[s.running].state) && s.allow
    && s.idle in s.info && Good(s.(running := s.idle))
  }

  /** schedule(), when the running task has just been parked. */
  ghost function Leave<T>(s: State<T>): State<T>
    requires Parked(s)
  {
    Schedule(s.(running := s.idle))
  }

  /** task_block; an invalid state leaves task switching locked. */
  ghost function Block<T>(s: State<T>, st: TaskState): State<T>
    requires Good(s) && s.running != s.idle
  {
    if IsBlock(st) then ParkKeeps(s, st); Leave(Park(s, st)) else s.(allow := false)
  }

  /** HERTZ(milisec) + time_counter, computed in real numbers and cut to 32 bits. */
  function WakeTime(milisec: nat, now: nat): nat {
    (1024.0 * (milisec as real / 1000.0) + now as real).Floor % WORD
  }

  /** In whole clock counts: 1024 of them in a second. */
  lemma WakeTimeIs(milisec: nat, now: nat)
    ensures WakeTime(milisec, now) == (now + 1024 * milisec / 1000) % WORD
  {
    var q, r := 1024 * milisec / 1000, 1024 * milisec % 1000;
    assert 1024.0 * (milisec as real / 1000.0) == q as real + r as real / 1000.0;
    assert (1024.0 * (milisec as real / 1000.0) + now as real).Floor == now + q;
  }

  lemma OneMillisecond(now: nat)
    ensures WakeTime(1, now) == (now + 1) % WORD
  {
    WakeTimeIs(1, now);
  }

  ghost function Nap<T>(s: State<T>, until: nat): State<T>
    requires s.running in s.info
  {
    SetInfo(s, s.running, s.info[s.running].(naptime := until))
  }

  /** sleep: set_naptime, then task_block(TASK_SLEEPING). */
  ghost function Sleep<T>(s: State<T>, until: nat): State<T>
    requires Good(s) && s.running != s.idle
  {
    NapKeeps(s, until);
    Block(Nap(s, until), Sleeping)
  }

  ghost predicate Due<T>(s: State<T>, t: T)
    requires t in s.info
  {
    s.now >= s.info[t].naptime
  }

  /** The first sleeping task that is due, or the length of the list. */
  ghost function FirstDue<T>(s: State<T>, i: nat): (k: nat)
    requires i <= |s.sleeping| && forall t <- s.sleeping :: t in s.info
    ensures i <= k <= |s.sleeping|
    ensures forall j :: i <= j < k ==> !Due(s, s.sleeping[j])
    ensures k < |s.sleeping| ==> Due(s, s.sleeping[k])
    decreases |s.sleeping| - i
  {
    if i == |s.sleeping| || Due(s, s.sleeping[i]) then i else FirstDue(s, i + 1)
  }

  /** manage_sleeping_tasks: exactly the first due task wakes, because queueing it ends the walk. */
  ghost function Wake<T>(s: State<T>): State<T>
    requires Good(s)
  {
    var k := FirstDue(s, 0);
    if k == |s.sleeping| then s else
      var t := s.sleeping[k];
      assert Placed(s, t);
      NaptimeKeeps(s, t, 0);
      Unblock(SetInfo(s, t, s.info[t].(naptime := 0)), t)
  }

  /** manage_time_slice: a task whose slice ends sleeps until the next clock count. */
  ghost function Slice<T>(s: State<T>): (r: State<T>)
    requires Good(s) && s.running != s.idle
    ensures s.info[s.running].timeSlice == 1 ==> r == Sleep(s, (s.now + 1) % WORD)
    ensures Good(r)
  {
    assert Placed(s, s.running);
    if s.info[s.running].timeSlice == 1 then
      SleepKeeps(s, (s.now + 1) % WORD);
      Sleep(s, (s.now + 1) % WORD)
    else
      CountedDownKeeps(s);
      CountedDown(s)
  }

  ghost function CountedDown<T>(s: State<T>): State<T>
    requires s.running in s.info && s.info[s.running].timeSlice > 1
  {
    var i := s.info[s.running];
    SetInfo(s, s.running, i.(timeSlice := i.timeSlice - 1))
  }

  /** The first half of scheduler_tick: switching is locked and a sleeper may wake. */
  ghost function Woken<T>(s: State<T>): (r: State<T>)
    requires Good(s)
    ensures Good(r)
  {
    LockKeeps(s, false);
    WakeKeeps(s.(allow := false));
    Wake(s.(allow := false))
  }

  /** scheduler_tick */
  ghost function Tick<T>(s: State<T>): State<T>
    requires Good(s)
  {
    Ticked(Woken(s))
  }

  /** The second half of scheduler_tick. */
  ghost function Ticked<T>(s: State<T>): State<T>
    requires Good(s)
  {
    (if s.running != s.idle then Slice(s) else s).(allow := true)
  }

  // ---------------------------------------------------------------- what every transition keeps

  lemma LockKeeps<T>(s: State<T>, allow: bool)
    requires Good(s)
    ensures Good(s.(allow := allow))
  {
    var r := s.(allow := allow);
    forall t | t in r.info ensures Placed(r, t) { assert Placed(s, t); }
  }

  lemma InfoKeeps<T>(s: State<T>, t: T, i: Info)
    requires Good(s) && t in s.info && 1 <= i.timeSlice <= DEFAULT_TIME_SLICE
    requires i == s.info[t].(naptime := i.naptime, timeSlice := i.timeSlice)
    ensures Good(SetInfo(s, t, i))
  {
    var r := SetInfo(s, t, i);
    forall u | u in r.info ensures Placed(r, u) { assert Placed(s, u); }
  }

  lemma NaptimeKeeps<T>(s: State<T>, t: T, n: nat)
    requires Good(s) && t in s.info
    ensures Good(SetInfo(s, t, s.info[t].(naptime := n)))
  {
    assert Placed(s, t);
    InfoKeeps(s, t, s.info[t].(naptime := n));
  }

  lemma NapKeeps<T>(s: State<T>, until: nat)
    requires Good(s)
    ensures Good(Nap(s, until))
  {
    NaptimeKeeps(s, s.running, until);
  }

  lemma EnqueuedKeeps<T>(s: State<T>, t: T)
    requires Good(s) && t in s.info && IsBlock(s.info[t].state)
    ensures Good(Unblock(s, t))
  {
    var r := Unblock(s, t);
    assert Placed(s, t);
    WithoutMembers(s.blocked, t);
    WithoutMembers(s.sleeping, t);
    WithoutMembers(s.terminated, t);
    EnqueuedPlaces(s, t, r);
  }

  lemma EnqueuedPlaces<T>(s: State<T>, t: T, r: State<T>)
    requires Good(s) && t in s.info && IsBlock(s.info[t].state) && r == Unblock(s, t)
    requires forall u <- s.blocked :: u != t ==> u in Without(s.blocked, t)
    requires forall u <- s.sleeping :: u != t ==> u in Without(s.sleeping, t)
    requires forall u <- s.terminated :: u != t ==> u in Without(s.terminated, t)
    requires forall u <- Without(s.blocked, t) :: u in s.blocked && u != t
    requires forall u <- Without(s.sleeping, t) :: u in s.sleeping && u != t
    requires forall u <- Without(s.terminated, t) :: u in s.terminated && u != t
    ensures |r.avail| == POLICIES && forall u <- r.info :: Placed(r, u)
  {
    assert Placed(s, t);
    forall u | u in r.info ensures Placed(r, u) { assert Placed(s, u); }
  }

  lemma UnblockKeeps<T>(s: State<T>, t: T)
    requires Good(s) && t in s.info
    ensures Good(Unblock(s, t))
  {
    assert Placed(s, t);
    if IsBlock(s.info[t].state) { EnqueuedKeeps(s, t); } else { LockKeeps(s, false); }
  }

  lemma CreateKeeps<T>(s: State<T>, t: T, policy: nat, naptime: nat)
    requires Good(s) && t !in s.info && policy < POLICIES
    ensures Good(Create(s, t, policy, naptime))
  {
    var r := Create(s, t, policy, naptime);
    forall u | u in r.info ensures Placed(r, u) { if u != t { assert Placed(s, u); } }
  }

  lemma ParkKeeps<T>(s: State<T>, st: TaskState)
    requires Good(s) && s.running != s.idle && IsBlock(st)
    ensures Parked(Park(s, st))
  {
    var r := Park(s, st).(running := s.idle);
    assert Placed(s, s.running) && Placed(s, s.idle);
    forall u | u in r.info ensures Placed(r, u) { assert Placed(s, u); }
  }

  lemma RunTaskKeeps<T>(s: State<T>, t: T)
    requires Good(s) && s.running == s.idle && t in s.info && t != s.idle && s.info[t].state == Available
    requires s.info[t].policy < POLICIES
    ensures Good(RunTask(s, t))
  {
    var r := RunTask(s, t);
    assert Placed(s, t);
    var from := s.avail[s.info[t].policy];
    WithoutMembers(from, t);
    forall u | u in r.info ensures Placed(r, u) { assert Placed(s, u); }
  }

  lemma ScheduleKeeps<T>(s: State<T>)
    requires Good(s) && s.running == s.idle
    ensures Good(Schedule(s))
  {
    if s.allow && !NothingAvailable(s) { RunTaskKeeps(s, Pick(s)); }
  }

  lemma BlockKeeps<T>(s: State<T>, st: TaskState)
    requires Good(s) && s.running != s.idle
    ensures Good(Block(s, st))
  {
    if IsBlock(st) {
      ParkKeeps(s, st);
      ScheduleKeeps(Park(s, st).(running := s.idle));
    } else {
      LockKeeps(s, false);
    }
  }

  lemma WakeKeeps<T>(s: State<T>)
    requires Good(s)
    ensures Good(Wake(s))
  {
    var k := FirstDue(s, 0);
    if k < |s.sleeping| {
      var t := s.sleeping[k];
      NaptimeKeeps(s, t, 0);
      UnblockKeeps(SetInfo(s, t, s.info[t].(naptime := 0)), t);
    }
  }

  lemma SleepKeeps<T>(s: State<T>, until: nat)
    requires Good(s) && s.running != s.idle
    ensures Good(Sleep(s, until))
  {
    NapKeeps(s, until);
    BlockKeeps(Nap(s, until), Sleeping);
  }

  lemma CountedDownKeeps<T>(s: State<T>)
    requires Good(s) && s.running != s.idle && s.info[s.running].timeSlice > 1
    ensures Good(CountedDown(s))
  {
    var i := s.info[s.running];
    assert Placed(s, s.running);
    InfoKeeps(s, s.running, i.(timeSlice := i.timeSlice - 1));
  }

  lemma SliceKeeps<T>(s: State<T>)
    requires Good(s) && s.running != s.idle
    ensures Good(Slice(s))
  {
    var r := Slice(s);
  }

  lemma TickKeeps<T>(s: State<T>)
    requires Good(s)
    ensures Good(Tick(s))
  {
    var s1 := Woken(s);
    if s1.running != s1.idle {
      SliceKeeps(s1);
      LockKeeps(Slice(s1), true);
    } else {
      LockKeeps(s1, true);
    }
  }

  // ---------------------------------------------------------------- runs

  datatype Op<T> =
    | OpCreate(t: T, policy: nat, naptime: nat)
    | OpBlock(st: TaskState)
    | OpSleep(until: nat)
    | OpUnblock(u: T)
    | OpTick
    | OpIdle
    | OpClock(now: nat)

  /** The idle task never blocks, and only it calls schedule() on its own. */
  ghost predicate Enabled<T>(s: State<T>, op: Op<T>) {
    match op
    case OpCreate(t, policy, _) => t !in s.info && policy < POLICIES
    case OpBlock(_) => s.running != s.idle
    case OpSleep(_) => s.running != s.idle
    case OpUnblock(u) => u in s.info
    case OpTick => true
    case OpIdle => s.running == s.idle
    case OpClock(now) => true
  }

  ghost function Next<T>(s: State<T>, op: Op<T>): State<T>
    requires Good(s) && Enabled(s, op)
  {
    match op
    case OpCreate(t, policy, naptime) => Create(s, t, policy, naptime)
    case OpBlock(st) => Block(s, st)
    case OpSleep(until) => Sleep(s, until)
    case OpUnblock(u) => Unblock(s, u)
    case OpTick => Tick(s)
    case OpIdle => Schedule(s)
    case OpClock(now) => s.(now := now)
  }

  ghost predicate IsStep<T>(s: State<T>, op: Op<T>, r: State<T>) {
    Good(s) && Enabled(s, op) && r == Next(s, op)
  }

  lemma ClockKeeps<T>(s: State<T>, now: nat)
    requires Good(s)
    ensures Good(s.(now := now))
  {
    var r := s.(now := now);
    forall u | u in r.info ensures Placed(r, u) { assert Placed(s, u); }
  }

  lemma StepKeeps<T>(s: State<T>, op: Op<T>, r: State<T>)
    requires IsStep(s, op, r)
    ensures Good(r)
  {
    match op
    case OpCreate(t, policy, naptime) => assert r == Create(s, t, policy, naptime); CreateKeeps(s, t, policy, naptime);
    case OpBlock(st) => assert r == Block(s, st); BlockKeeps(s, st);
    case OpSleep(until) => assert r == Sleep(s, until); SleepKeeps(s, until);
    case OpUnblock(u) => assert r == Unblock(s, u); UnblockKeeps(s, u);
    case OpTick => assert r == Tick(s); TickKeeps(s);
    case OpIdle => assert r == Schedule(s); ScheduleKeeps(s);
    case OpClock(now) => ClockKeeps(s, now);
  }

  ghost predicate Run<T>(h: seq<State<T>>, ops: seq<Op<T>>) {
    |h| == |ops| + 1 && forall i {:trigger ops[i]} :: 0 <= i < |ops| ==> IsStep(h[i], ops[i], h[i + 1])
  }

  /** Conservation over whole runs: in every state every task is in exactly one place, the one its state names. */
  lemma {:induction false} RunConserves<T>(h: seq<State<T>>, ops: seq<Op<T>>, i: nat, t: T)
    requires Run(h, ops) && Good(h[0]) && i <= |ops|
    ensures Good(h[i]) && Places(h[i])[t] == if t in h[i].info && t != h[i].idle then 1 else 0
  {
    if i > 0 {
      RunConserves(h, ops, i - 1, t);
      assert IsStep(h[i - 1], ops[i - 1], h[i]);
      StepKeeps(h[i - 1], ops[i - 1], h[i]);
    }
    ExactlyOnePlace(h[i], t);
  }
}
