/** The scheduler itself (Process/process.c): global task pointers and lists that share one link per task. */
module Scheduling {
  import opened Sequences
  import opened SchedulerCalls
  import SchedulerLaws
  import opened SchedulerSpec
  import opened TaskLists

  class Scheduler {
    const available: seq<TaskList>
    const sleeping: TaskList
    const blocked: TaskList
    const terminated: TaskList
    /** scheduler_task */
    const idle: Tcb
    /** running_task, next_task and the task switching lock */
    var running: Tcb
    var next: Tcb?
    var allowTs: bool
    var timeCounter: nat
    /** Every task ever created, the idle task included. */
    ghost var all: set<Tcb>
    ghost const lists: set<TaskList>

    /** The seven lists are different objects, all of them in `lists`. */
    ghost predicate Apart()
    {
      && |available| == POLICIES && Distinct(available)
      && sleeping !in available && blocked !in available && terminated !in available
      && sleeping != blocked && sleeping != terminated && blocked != terminated
      && (forall i :: 0 <= i < POLICIES ==> available[i] in lists)
      && sleeping in lists && blocked in lists && terminated in lists
      && (forall l <- lists :: l in available || l == sleeping || l == blocked || l == terminated)
    }

    ghost predicate ListOk(l: TaskList)
      reads this`all, l, all`flink
    {
      (forall t <- l.tasks :: t in all) && l.Valid()
    }

    ghost predicate Disjoint(l: TaskList, m: TaskList)
      reads l`tasks, m`tasks
    {
      l != m ==> forall t <- l.tasks :: t !in m.tasks
    }

    /** Every list is well formed, and no task is in two of them although they share the link. */
    ghost predicate ListsOk()
      reads this`all, lists, all`flink
    {
      && Apart()
      && (forall l {:trigger ListOk(l)} :: l in lists ==> ListOk(l))
      && (forall l, m {:trigger Disjoint(l, m)} :: l in lists && m in lists ==> Disjoint(l, m))
    }

    ghost function InfoOf(t: Tcb): Info
      reads t
    {
      Info(t.state, t.policy, t.priority, t.reqPriority, t.timeSlice, t.naptime)
    }

    /** The state of the machine over sequences. */
    ghost function Abs(): State<Tcb>
      requires |available| == POLICIES
      reads this, available, sleeping, blocked, terminated, all
    {
      State([available[0].tasks, available[1].tasks, available[2].tasks, available[3].tasks],
            sleeping.tasks, blocked.tasks, terminated.tasks,
            running, idle, map t | t in all :: InfoOf(t), timeCounter, allowTs)
    }

    /** setup_multitasking: `n` empty lists. */
    static method NewLists(n: nat) returns (a: seq<TaskList>)
      ensures |a| == n && Distinct(a) && fresh(a)
      ensures forall l <- a :: l.Valid() && l.tasks == []
    {
      a := [];
      while |a| < n
        invariant |a| <= n && Distinct(a) && fresh(a)
        invariant forall l <- a :: l.Valid() && l.tasks == []
      {
        var l := new TaskList();
        a := a + [l];
      }
    }

    /** The start-up task becomes the idle task (init_multitasking). */
    constructor (a: seq<TaskList>, task: Tcb)
      requires |a| == POLICIES + 3 && Distinct(a) && forall l <- a :: l.Valid() && l.tasks == []
      requires task.policy == 0 && task.priority == task.reqPriority == 127 && task.timeSlice == DEFAULT_TIME_SLICE
      requires task.state == Active
      ensures available == a[..POLICIES] && sleeping == a[4] && blocked == a[5] && terminated == a[6]
      ensures lists == (set l | l in a) && all == {task} && idle == task && running == task && next == null
      ensures ListsOk() && allowTs
    {
      available, sleeping, blocked, terminated := a[..POLICIES], a[4], a[5], a[6];
      lists := set l | l in a;
      idle, running, next := task, task, null;
      allowTs, timeCounter := true, 0;
      all := {task};
    }

    /** The first state satisfies the invariant of the machine, and the slices are full. */
    lemma StartsGood()
      requires ListsOk() && all == {idle} && running == idle && idle.state == Active
      requires forall l <- lists :: l.tasks == []
      requires idle.policy == 0 && idle.priority == idle.reqPriority == 127 && idle.timeSlice == DEFAULT_TIME_SLICE
      ensures Good(Abs()) && SchedulerLaws.FullSlices(Abs())
    {
      var s := Abs();
      forall p | 0 <= p < POLICIES ensures s.avail[p] == [] { assert available[p] in lists; }
      assert Placed(s, idle);
    }

    /** task_list_insert_back on one of the lists. */
    method Append(l: TaskList, t: Tcb)
      requires ListsOk() && l in lists && t in all
      requires forall m <- lists :: t !in m.tasks
      modifies l, all`flink
      ensures ListsOk() && l.tasks == old(l.tasks) + [t] && t.flink == null
    {
      assert ListOk(l);
      assert l.tail != null ==> l.tail in l.tasks;
      l.InsertBack(t);
      forall m | m in lists ensures ListOk(m) {
        if m != l {
          assert old(ListOk(m)) && old(Disjoint(l, m));
          m.Untouched();
        }
      }
      forall k, m | k in lists && m in lists ensures Disjoint(k, m) { assert old(Disjoint(k, m)); }
    }

    /** task_list_remove_task on one of the lists. */
    method Take(l: TaskList, t: Tcb)
      requires ListsOk() && l in lists
      modifies l, all`flink
      ensures ListsOk() && l.tasks == Without(old(l.tasks), t)
    {
      assert ListOk(l);
      WithoutMembers(l.tasks, t);
      l.Remove(t);
      forall m | m in lists ensures ListOk(m) {
        if m != l {
          assert old(ListOk(m)) && old(Disjoint(m, l));
          m.Untouched();
        }
      }
      forall k, m | k in lists && m in lists ensures Disjoint(k, m) { assert old(Disjoint(k, m)); }
    }

    /** Either the idle task is running, or the running task has just joined a list. */
    ghost predicate Ready()
      reads this, available, sleeping, blocked, terminated, all, lists
    {
      ListsOk() && ((Good(Abs()) && running == idle) || Parked(Abs()))
    }

    /** The machine state that schedule() sees. */
    ghost function Seen(): (c: State<Tcb>)
      requires Ready()
      reads this, available, sleeping, blocked, terminated, all, lists
      ensures Good(c) && c.running == c.idle
    {
      assert Good(Abs()) && running == idle ==> Abs().(running := idle) == Abs();
      Abs().(running := idle)
    }

    /** schedule_time_slice_task */
    method TimeSliceTask() returns (task: Tcb?)
      requires ListsOk()
      ensures task == if available[2].tasks != [] then available[2].tasks[0]
                      else if available[3].tasks != [] then available[3].tasks[0] else null
    {
      assert ListOk(available[2]) && ListOk(available[3]);
      task := available[2].head;
      if task == null { task := available[3].head; }
    }

    /** `c` is what schedule() sees: the present state, with the idle task in place of one that has been parked. */
    ghost predicate Shows(c: State<Tcb>)
      reads this, available, sleeping, blocked, terminated, all, lists
    {
      ListsOk() && Good(c) && c == Abs().(running := idle, allow := c.allow)
    }

    /** Lines 382-385 of schedule: the best task of policy 0, else of policy 1. */
    method PriorityTask(ghost info: map<Tcb, Info>) returns (task: Tcb?)
      requires ListsOk() && forall t <- all :: t in info && info[t].priority == t.priority
      ensures forall t <- available[0].tasks + available[1].tasks :: t in info
      ensures task == if available[0].tasks != [] then Best(available[0].tasks, info)
                      else if available[1].tasks != [] then Best(available[1].tasks, info) else null
    {
      assert ListOk(available[0]) && ListOk(available[1]);
      var high0 := available[0].HighestPriority(info);
      var high1 := available[1].HighestPriority(info);
      task := if high0 != null then high0 else high1;
    }

    /** Line 388 of schedule: 8-bit countdown, and back to the requested priority at 0. */
    method Decay(task: Tcb)
      modifies task`priority
      ensures task.priority == Decayed(old(InfoOf(task))).priority
    {
      task.priority := (task.priority + 255) % 256;
      if task.priority == 0 { task.priority := task.reqPriority; }
    }

    lemma PickFromPriority(c: State<Tcb>, t: Tcb)
      requires Shows(c) && (c.avail[0] != [] || c.avail[1] != [])
      requires t == if c.avail[0] != [] then Best(c.avail[0], c.info) else Best(c.avail[1], c.info)
      ensures !NothingAvailable(c) && Pick(c) == t && t in all && t.policy <= 1 && c.info[t].state == Available
    {
      assert Placed(c, t);
    }

    lemma PickFromOrder(c: State<Tcb>, t: Tcb)
      requires Shows(c) && c.avail[0] == c.avail[1] == []
      requires (c.avail[2] != [] && t == c.avail[2][0]) || (c.avail[2] == [] && c.avail[3] != [] && t == c.avail[3][0])
      ensures !NothingAvailable(c) && Pick(c) == t && t in all && 2 <= t.policy < POLICIES
      ensures c.info[t].state == Available
    {
      assert Placed(c, t);
    }

    /** The choice of lines 382-389 of schedule. */
    method Find(ghost c: State<Tcb>) returns (task: Tcb?, byPriority: bool)
      requires Shows(c)
      ensures task == if NothingAvailable(c) then null else Pick(c)
      ensures task != null ==>
        task in all && task != idle && task.policy < POLICIES && c.info[task].state == Available
      ensures byPriority <==> task != null && task.policy <= 1
    {
      hide Good, Pick;
      task := PriorityTask(c.info);
      byPriority := task != null;
      if task != null {
        PickFromPriority(c, task);
      } else {
        task := TimeSliceTask();
        if task != null { PickFromOrder(c, task); }
      }
    }

    /** Lines 382-389 of schedule: the choice of a task and the decay of its priority. */
    method Choose(ghost c: State<Tcb>) returns (task: Tcb?)
      requires Shows(c)
      modifies all`priority
      ensures task == if NothingAvailable(c) then null else Pick(c)
      ensures task != null ==>
        task in all && task != idle && task.policy < POLICIES && c.info[task].state == Available
      ensures task == null ==> Abs() == old(Abs())
      ensures task != null ==> Abs() == SetInfo(old(Abs()), task,
        if task.policy <= 1 then Decayed(old(InfoOf(task))) else old(InfoOf(task)))
    {
      hide Good, Pick;
      var byPriority;
      task, byPriority := Find(c);
      ghost var s := Abs();
      if byPriority { Decay(task); }
      assert task != null ==> s.info[task := s.info[task]] == s.info;
    }

    /** run_task and the switch it makes. */
    method RunTask()
      requires next != null
      modifies this`running, this`next, this`allowTs, next`state
      ensures running == old(next) && next == null && allowTs && running.state == Active
    {
      next.state := Active;
      running := next;
      allowTs := true;
      next := null;
    }

    /** Lines 391-398 of schedule, when a task was chosen. */
    method SwitchTo(task: Tcb)
      requires ListsOk() && task in all && task.policy < POLICIES && task != running
      modifies this`running, this`next, this`allowTs, lists, all`state, all`flink
      ensures ListsOk() && next == null
      ensures var s := old(Abs()); var p := task.policy;
        Abs() == State(s.avail[p := Without(s.avail[p], task)], s.sleeping, s.blocked, s.terminated,
                       task, s.idle, s.info[task := s.info[task].(state := Active)], s.now, true)
    {
      hide ListOk, Disjoint;
      Take(available[task.policy], task);
      next := task;
      RunTask();
    }

    /** Lines 391-398 of schedule, when no task was chosen: the idle task runs. */
    method SwitchToIdle()
      requires ListsOk() && idle in all && idle.state == Active
      modifies this`running, this`next, this`allowTs, idle`state
      ensures ListsOk() && next == null
      ensures Abs() == old(Abs()).(running := idle, allow := true)
    {
      if running == idle {
        next := null;
        allowTs := true;
      } else {
        next := idle;
      }
      if next != null { RunTask(); }
    }

    lemma SwitchedIs(c: State<Tcb>, s: State<Tcb>, t: Tcb)
      requires Good(c) && t in c.info && c.info[t].policy < POLICIES
      requires s == SetInfo(c, t, if c.info[t].policy <= 1 then Decayed(c.info[t]) else c.info[t])
        .(running := s.running, allow := s.allow)
      ensures var p := c.info[t].policy;
        State(s.avail[p := Without(s.avail[p], t)], s.sleeping, s.blocked, s.terminated,
              t, s.idle, s.info[t := s.info[t].(state := Active)], s.now, true) == SchedulerSpec.RunTask(c, t)
    {
      var i := if c.info[t].policy <= 1 then Decayed(c.info[t]) else c.info[t];
      assert c.info[t := i][t := i.(state := Active)] == c.info[t := i.(state := Active)];
    }

    /** Lines 381-398 of schedule, when task switching was not locked. */
    method Select(ghost c: State<Tcb>)
      requires Shows(c) && (running == idle || (running in c.info && IsBlock(c.info[running].state)))
      modifies this`running, this`next, this`allowTs, lists, all`priority, all`state, all`flink
      ensures ListsOk()
      ensures Abs() ==
        if NothingAvailable(c) then old(Abs()).(running := idle, allow := true)
        else SchedulerSpec.RunTask(c, Pick(c))
    {
      assert Placed(c, idle);
      var task := Choose(c);
      if task == null {
        SwitchToIdle();
      } else {
        SwitchedIs(c, Abs(), task);
        assert task != running;
        SwitchTo(task);
      }
    }

    /** schedule */
    method Schedule()
      requires Ready()
      modifies this`running, this`next, this`allowTs, lists, all`priority, all`state, all`flink
      ensures ListsOk()
      ensures Abs() == SchedulerSpec.Schedule(old(Seen()))
    {
      ghost var c := Seen();
      if !allowTs { return; }
      allowTs := false;
      ghost var s := Abs();
      Select(c);
      assert NothingAvailable(c) ==> s.(running := idle, allow := true) == c;
    }

    /** A task that is neither available nor blocked is in no list. */
    lemma InNoList(t: Tcb)
      requires ListsOk() && Good(Abs()) && t in all && (t.state == Active || t == idle)
      ensures forall l <- lists :: t !in l.tasks
    {
      assert Placed(Abs(), t);
      forall l | l in lists ensures t !in l.tasks {
        if l in available {
          var p :| 0 <= p < POLICIES && available[p] == l;
          assert Abs().avail[p] == l.tasks;
        }
      }
    }

    /** The list insertion of task_block. */
    method Join(t: Tcb, st: TaskState)
      requires ListsOk() && IsBlock(st) && t in all && forall l <- lists :: t !in l.tasks
      modifies lists, all`flink
      ensures ListsOk()
      ensures var s := old(Abs());
        Abs() == s.(blocked := if st == Blocked then s.blocked + [t] else s.blocked,
                    sleeping := if st == Sleeping then s.sleeping + [t] else s.sleeping,
                    terminated := if st == Terminated then s.terminated + [t] else s.terminated)
    {
      if st == Blocked {
        Append(blocked, t);
      } else if st == Sleeping {
        Append(sleeping, t);
      } else {
        Append(terminated, t);
      }
    }

    /** Lines 276-278 of task_block. */
    method Mark(t: Tcb, st: TaskState)
      requires |available| == POLICIES && t in all
      modifies t`state, t`timeSlice
      ensures Abs() == SetInfo(old(Abs()), t, old(InfoOf(t)).(state := st, timeSlice := DEFAULT_TIME_SLICE))
    {
      t.state := st;
      t.timeSlice := DEFAULT_TIME_SLICE;
    }

    /** The first half of task_block: the running task joins the list of its new state. */
    method ParkRunning(st: TaskState)
      requires ListsOk() && Good(Abs()) && running != idle && IsBlock(st)
      modifies this`allowTs, lists, all`flink, all`state, all`timeSlice
      ensures ListsOk() && Abs() == Park(old(Abs()), st)
    {
      ghost var s := Abs();
      allowTs := false;
      assert Abs() == s.(allow := false);
      LockKeeps(s, false);
      Enlist(st);
      ghost var s1 := Abs();
      allowTs := true;
      assert Abs() == s1.(allow := true);
    }

    /** Lines 265-278 of task_block. */
    method Enlist(st: TaskState)
      requires ListsOk() && Good(Abs()) && running != idle && IsBlock(st)
      modifies lists, all`flink, all`state, all`timeSlice
      ensures ListsOk() && Abs() == Park(old(Abs()), st).(allow := allowTs)
    {
      assert Placed(Abs(), running);
      InNoList(running);
      Join(running, st);
      Mark(running, st);
    }

    /** task_block */
    method TaskBlock(st: TaskState)
      requires ListsOk() && Good(Abs()) && running != idle
      modifies this`running, this`next, this`allowTs, lists
      modifies all`flink, all`state, all`timeSlice, all`priority
      ensures ListsOk() && Abs() == Block(old(Abs()), st)
    {
      if !IsBlock(st) {
        allowTs := false;
        return;
      }
      ghost var s := Abs();
      ParkRunning(st);
      ParkKeeps(s, st);
      Schedule();
    }

    /** The list that holds a parked task. */
    ghost function Home(t: Tcb): TaskList
      reads t
    {
      if t.state == Blocked then blocked else if t.state == Sleeping then sleeping else terminated
    }

    lemma OnlyHome(t: Tcb)
      requires ListsOk() && Good(Abs()) && t in all && IsBlock(t.state)
      ensures forall m <- lists :: m != Home(t) ==> t !in m.tasks
    {
      assert Placed(Abs(), t);
      forall m | m in lists && m != Home(t) ensures t !in m.tasks {
        if m in available {
          var p :| 0 <= p < POLICIES && available[p] == m;
          assert Abs().avail[p] == m.tasks;
        }
      }
    }

    /** The list removal of task_unblock. */
    method Quit(t: Tcb)
      requires ListsOk() && Good(Abs()) && t in all && IsBlock(t.state)
      modifies lists, all`flink
      ensures ListsOk() && forall l <- lists :: t !in l.tasks
      ensures var s := old(Abs());
        Abs() == s.(blocked := if t.state == Blocked then Without(s.blocked, t) else s.blocked,
                    sleeping := if t.state == Sleeping then Without(s.sleeping, t) else s.sleeping,
                    terminated := if t.state == Terminated then Without(s.terminated, t) else s.terminated)
    {
      hide Good;
      var l := if t.state == Blocked then blocked else if t.state == Sleeping then sleeping else terminated;
      OnlyHome(t);
      assert ListOk(l);
      WithoutMembers(l.tasks, t);
      Take(l, t);
    }

    /** Lines 304-307 of task_unblock, and the queueing part of create_task_handler. */
    method Enqueue(t: Tcb)
      requires ListsOk() && t in all && t.policy < POLICIES && forall l <- lists :: t !in l.tasks
      modifies lists, all`flink, t`state, this`allowTs
      ensures ListsOk() && t.flink == null
      ensures Abs() == Enqueued(old(Abs()), t)
    {
      hide ListOk, Disjoint;
      ghost var s := Abs();
      MarkAvailable(t);
      AppendAvailable(t);
      ghost var s1 := Abs();
      allowTs := true;
      assert Abs() == s1.(allow := true);
    }

    method MarkAvailable(t: Tcb)
      requires ListsOk() && t in all
      modifies t`state
      ensures ListsOk() && Abs() == SetInfo(old(Abs()), t, old(InfoOf(t)).(state := Available))
    {
      t.state := Available;
    }

    method AppendAvailable(t: Tcb)
      requires ListsOk() && t in all && t.policy < POLICIES && forall l <- lists :: t !in l.tasks
      modifies lists, all`flink
      ensures ListsOk() && t.flink == null
      ensures var s := old(Abs()); var p := t.policy; Abs() == s.(avail := s.avail[p := s.avail[p] + [t]])
    {
      Append(available[t.policy], t);
    }

    /** task_unblock */
    method TaskUnblock(t: Tcb)
      requires ListsOk() && Good(Abs()) && t in all
      modifies this`allowTs, lists, all`flink, all`state
      ensures ListsOk() && Abs() == Unblock(old(Abs()), t)
      ensures IsBlock(old(t.state)) ==> t.flink == null
    {
      ghost var s := Abs();
      assert Placed(s, t);
      if !IsBlock(t.state) {
        allowTs := false;
        return;
      }
      allowTs := false;
      assert Abs() == s.(allow := false);
      LockKeeps(s, false);
      Quit(t);
      Enqueue(t);
    }

    /** manage_sleeping_tasks: after a wake the walk ends, because the task is last in its new list. */
    method ManageSleeping()
      requires ListsOk() && Good(Abs())
      modifies this`allowTs, lists, all`flink, all`state, all`naptime
      ensures ListsOk() && Abs() == Wake(old(Abs()))
    {
      ghost var s := Abs();
      assert ListOk(sleeping);
      var task := sleeping.head;
      ghost var i, woken := 0, false;
      while task != null
        invariant ListsOk() && i <= |s.sleeping|
        invariant !woken ==> Abs() == s && task == (if i < |s.sleeping| then s.sleeping[i] else null)
        invariant !woken ==> forall j :: 0 <= j < i ==> !Due(s, s.sleeping[j])
        invariant woken ==> task == null && Abs() == Wake(s)
        decreases |s.sleeping| - i, !woken
      {
        assert ListOk(sleeping) && sleeping.Link(i);
        if timeCounter >= task.naptime {
          WakeOne(task, i);
          woken := true;
        } else {
          i := i + 1;
        }
        task := task.flink;
      }
    }

    /** Line 321: the first due task wakes. */
    method WakeOne(task: Tcb, ghost i: nat)
      requires ListsOk() && Good(Abs()) && i < |sleeping.tasks| && task == sleeping.tasks[i]
      requires Due(Abs(), task) && forall j :: 0 <= j < i ==> !Due(Abs(), sleeping.tasks[j])
      modifies this`allowTs, lists, all`flink, all`state, all`naptime
      ensures ListsOk() && Abs() == Wake(old(Abs())) && task.flink == null
    {
      ghost var s := Abs();
      assert Placed(s, task);
      assert FirstDue(s, 0) == i;
      task.naptime := 0;
      ghost var s1 := SetInfo(s, task, s.info[task].(naptime := 0));
      assert Abs() == s1;
      NaptimeKeeps(s, task, 0);
      TaskUnblock(task);
    }

    /** Lines 441-442 of sleep. */
    method SleepUntil(until: nat)
      requires ListsOk() && Good(Abs()) && running != idle
      modifies this`running, this`next, this`allowTs, lists
      modifies all`flink, all`state, all`timeSlice, all`priority, all`naptime
      ensures ListsOk() && Abs() == Sleep(old(Abs()), until)
    {
      ghost var s := Abs();
      running.naptime := until;
      assert Abs() == Nap(s, until);
      NapKeeps(s, until);
      TaskBlock(Sleeping);
    }

    /** sleep */
    method SleepFor(milisec: nat)
      requires ListsOk() && Good(Abs()) && running != idle
      modifies this`running, this`next, this`allowTs, lists
      modifies all`flink, all`state, all`timeSlice, all`priority, all`naptime
      ensures ListsOk() && (milisec == 0 ==> Abs() == old(Abs()))
      ensures milisec != 0 ==> Abs() == Sleep(old(Abs()), WakeTime(milisec, old(timeCounter)))
    {
      if milisec == 0 { return; }
      SleepUntil(WakeTime(milisec, timeCounter));
    }

    /** sleep(1) of manage_time_slice: until the next clock count. */
    method Expire()
      requires ListsOk() && Good(Abs()) && running != idle
      modifies this`running, this`next, this`allowTs, lists
      modifies all`flink, all`state, all`timeSlice, all`priority, all`naptime
      ensures ListsOk() && Abs() == Sleep(old(Abs()), (old(timeCounter) + 1) % WORD)
    {
      OneMillisecond(timeCounter);
      SleepFor(1);
    }

    /** manage_time_slice; the count that reaches 0 is overwritten by task_block. */
    method ManageTimeSlice()
      requires ListsOk() && Good(Abs()) && running != idle
      modifies this`running, this`next, this`allowTs, lists
      modifies all`flink, all`state, all`timeSlice, all`priority, all`naptime
      ensures ListsOk() && Abs() == Slice(old(Abs()))
    {
      ghost var s := Abs();
      assert Placed(s, running);
      if running.timeSlice - 1 == 0 {
        Expire();
      } else {
        running.timeSlice := running.timeSlice - 1;
      }
    }

    /** Lines 403-405 of scheduler_tick. */
    method WakeSleepers()
      requires ListsOk() && Good(Abs())
      modifies this`allowTs, lists, all`flink, all`state, all`naptime
      ensures ListsOk() && Good(Abs()) && Abs() == Woken(old(Abs()))
    {
      ghost var s := Abs();
      allowTs := false;
      assert Abs() == s.(allow := false);
      LockKeeps(s, false);
      ManageSleeping();
      WakeKeeps(s.(allow := false));
    }

    /** scheduler_tick */
    method SchedulerTick()
      requires ListsOk() && Good(Abs())
      modifies this`running, this`next, this`allowTs, lists
      modifies all`flink, all`state, all`timeSlice, all`priority, all`naptime
      ensures ListsOk() && Abs() == Tick(old(Abs()))
    {
      WakeSleepers();
      EndTick();
    }

    /** Lines 408-409 of scheduler_tick. */
    method EndTick()
      requires ListsOk() && Good(Abs())
      modifies this`running, this`next, this`allowTs, lists
      modifies all`flink, all`state, all`timeSlice, all`priority, all`naptime
      ensures ListsOk() && Abs() == Ticked(old(Abs()))
    {
      if idle != running { ManageTimeSlice(); }
      ghost var s2 := Abs();
      allowTs := true;
      assert Abs() == s2.(allow := true);
    }

    /** Lists stay well formed when tasks are added to the system. */
    twostate lemma Grown()
      requires old(ListsOk()) && old(all) <= all && unchanged(lists)
      requires forall t <- old(all) :: t.flink == old(t.flink)
      ensures ListsOk()
    {
      forall l | l in lists ensures ListOk(l) {
        assert old(ListOk(l));
        l.Untouched();
      }
      forall k, m | k in lists && m in lists ensures Disjoint(k, m) { assert old(Disjoint(k, m)); }
    }

    /** A task control block that is in no list yet (lines 144-156 of create_task_handler). */
    method NewTask(policy: nat, naptime: nat) returns (t: Tcb)
      requires ListsOk() && Good(Abs())
      modifies this`all
      ensures fresh(t) && ListsOk() && all == old(all) + {t} && t.policy == policy
      ensures forall l <- lists :: t !in l.tasks
      ensures var priority := if policy <= 1 then DEFAULT_PRIORITY else 0;
        Abs() == SetInfo(old(Abs()), t, Info(Available, policy, priority, priority, DEFAULT_TIME_SLICE, naptime))
    {
      hide Good;
      t := new Tcb(policy, if policy <= 1 then DEFAULT_PRIORITY else 0, naptime);
      all := all + {t};
      Grown();
      forall l | l in lists ensures t !in l.tasks { assert old(ListOk(l)); }
    }

    /** The queueing part of create_task_handler. */
    method CreateTask(policy: nat, naptime: nat) returns (t: Tcb)
      requires ListsOk() && Good(Abs()) && policy < POLICIES
      modifies this`allowTs, this`all, lists, all`flink
      ensures fresh(t) && ListsOk() && all == old(all) + {t}
      ensures Abs() == Create(old(Abs()), t, policy, naptime)
    {
      t := NewTask(policy, naptime);
      ghost var s := Abs();
      allowTs := false;
      assert Abs() == s.(allow := false);
      Enqueue(t);
    }

    /** Whether a call can happen: parameters name existing tasks, idle never blocks, only idle calls schedule(). */
    ghost predicate Possible(c: Command<Tcb>)
      reads this`running, this`all
    {
      match c
      case CmdCreate(policy, _) => policy < POLICIES
      case CmdBlock(_) => running != idle
      case CmdSleep(_) => running != idle
      case CmdUnblock(u) => u in all
      case CmdTick => true
      case CmdIdle => running == idle
      case CmdClock(_) => true
    }

    /** Every call moves the machine by the step that it stands for, and keeps both invariants. */
    method Apply(c: Command<Tcb>) returns (created: Tcb?, ghost op: Op<Tcb>)
      requires ListsOk() && Good(Abs()) && Possible(c)
      modifies this, lists, all
      ensures ListsOk() && old(all) <= all && fresh(all - old(all))
      ensures Answers(c, op, old(timeCounter)) && IsStep(old(Abs()), op, Abs()) && Good(Abs())
      ensures if c.CmdCreate? then created != null && created in all && op.t == created else created == null
    {
      ghost var s := Abs();
      created, op := ApplyCommand(c);
      StepKeeps(s, op, Abs());
    }

    /** The calls of the running task. */
    method ApplyOwn(c: Command<Tcb>) returns (ghost op: Op<Tcb>)
      requires ListsOk() && Good(Abs()) && Possible(c) && (c.CmdBlock? || c.CmdSleep? || c.CmdIdle?)
      modifies this, lists, all
      ensures ListsOk() && all == old(all)
      ensures Answers(c, op, old(timeCounter)) && IsStep(old(Abs()), op, Abs())
    {
      hide Good, Block, Sleep, SchedulerSpec.Schedule, ListOk, Disjoint;
      match c
      case CmdBlock(st) => TaskBlock(st); op := OpBlock(st);
      case CmdSleep(milisec) =>
        op := if milisec == 0 then OpClock(timeCounter) else OpSleep(WakeTime(milisec, timeCounter));
        SleepFor(milisec);
      case CmdIdle => Schedule(); op := OpIdle;
    }

    /** The dispatch of Apply. */
    method ApplyCommand(c: Command<Tcb>) returns (created: Tcb?, ghost op: Op<Tcb>)
      requires ListsOk() && Good(Abs()) && Possible(c)
      modifies this, lists, all
      ensures ListsOk() && old(all) <= all && fresh(all - old(all))
      ensures Answers(c, op, old(timeCounter)) && IsStep(old(Abs()), op, Abs())
      ensures if c.CmdCreate? then created != null && created in all && op.t == created else created == null
    {
      hide Good, Create, Unblock, Tick, ListOk, Disjoint;
      created := null;
      if c.CmdBlock? || c.CmdSleep? || c.CmdIdle? {
        op := ApplyOwn(c);
        return;
      }
      match c
      case CmdCreate(policy, naptime) =>
        created := CreateTask(policy, naptime);
        op := OpCreate(created, policy, naptime);
      case CmdUnblock(u) => TaskUnblock(u); op := OpUnblock(u);
      case CmdTick => SchedulerTick(); op := OpTick;
      case CmdClock(now) =>
        ghost var s := Abs();
        timeCounter := now;
        assert Abs() == s.(now := now);
        op := OpClock(now);
    }

    /** Possible, for a call that names one of `n` tasks by its number. */
    predicate CanFollow(c: Command<nat>, n: nat)
      reads this`running
    {
      match c
      case CmdCreate(policy, _) => policy < POLICIES
      case CmdBlock(_) => running != idle
      case CmdSleep(_) => running != idle
      case CmdUnblock(u) => u < n
      case CmdTick => true
      case CmdIdle => running == idle
      case CmdClock(_) => true
    }

    /** The calls that cannot happen: all others do, so a run stops only there. */
    lemma CannotFollow(c: Command<nat>, n: nat)
      ensures !CanFollow(c, n) <==>
        || (c.CmdCreate? && c.policy >= 4) || (c.CmdUnblock? && c.u >= n)
        || ((c.CmdBlock? || c.CmdSleep?) && running == idle) || (c.CmdIdle? && running != idle)
    {
    }

    /** A call that can happen, with the task that it names. */
    method Follow(named: seq<Tcb>, c: Command<nat>) returns (more: seq<Tcb>, ghost op: Op<Tcb>)
      requires ListsOk() && Good(Abs()) && CanFollow(c, |named|) && forall t <- named :: t in all
      modifies this, lists, all
      ensures ListsOk() && Good(Abs()) && fresh(all - old(all)) && (forall t <- more :: t in all)
      ensures (c.CmdUnblock? ==> c.u < |named|) && Answers(Resolved(c, named), op, old(Abs()).now)
      ensures IsStep(old(Abs()), op, Abs()) && more == named + if op.OpCreate? then [op.t] else []
    {
      hide ListsOk, Good, IsStep;
      var created;
      created, op := Apply(Resolved(c, named));
      more := if created == null then named else named + [created];
    }

    /** One more call of a run. */
    method Continue(ghost tasks: seq<Tcb>, cs: seq<Command<nat>>, i: nat, named: seq<Tcb>,
                    ghost h: seq<State<Tcb>>, ghost ops: seq<Op<Tcb>>)
      returns (more: seq<Tcb>, ghost g: seq<State<Tcb>>, ghost steps: seq<Op<Tcb>>)
      requires ListsOk() && Good(Abs()) && forall t <- named :: t in all
      requires i == |ops| < |cs| && |h| == |ops| + 1 && Answered(tasks, cs, h, ops) && h[|ops|] == Abs()
      requires named == Tasks(tasks, ops, |ops|) && CanFollow(cs[|ops|], |named|)
      modifies this, lists, all
      ensures ListsOk() && Good(Abs()) && fresh(all - old(all)) && (forall t <- more :: t in all)
      ensures |steps| == |ops| + 1 && |g| == |steps| + 1 && Answered(tasks, cs, g, steps)
      ensures g[0] == h[0] && g[|steps|] == Abs() && more == Tasks(tasks, steps, |steps|)
    {
      assert |available| == POLICIES;
      hide Good, ListsOk, IsStep, Answers, Answered, Tasks, Resolved, CanFollow;
      ghost var op;
      more, op := Follow(named, cs[i]);
      AnsweredNext(tasks, cs, h, ops, op, Abs());
      g, steps := h + [Abs()], ops + [op];
    }

    /** Every task but the idle one is in exactly one place. */
    ghost predicate OnePlaceEach()
      requires ListsOk()
      reads this, lists, all, all`flink, available, sleeping, blocked, terminated
    {
      forall t <- all :: Places(Abs())[t] == if t == idle then 0 else 1
    }

    lemma EachPlaced()
      requires ListsOk() && Good(Abs())
      ensures OnePlaceEach()
    {
      forall t | t in all ensures Places(Abs())[t] == if t == idle then 0 else 1 { ExactlyOnePlace(Abs(), t); }
    }

    /**
     * Any run of calls is a run of the machine, step for step, until a call that cannot happen; `h` has the states
     * before and after each call, and `named` the tasks that a call can name. In the end every
     * task is in exactly one place.
     */
    method Run(tasks: seq<Tcb>, cs: seq<Command<nat>>)
      returns (done: nat, named: seq<Tcb>, ghost h: seq<State<Tcb>>, ghost ops: seq<Op<Tcb>>)
      requires ListsOk() && Good(Abs()) && forall t <- tasks :: t in all
      modifies this, lists, all
      ensures |ops| == done <= |cs| && (done < |cs| ==> !CanFollow(cs[done], |named|))
      ensures Answered(tasks, cs, h, ops) && named == Tasks(tasks, ops, done)
      ensures h[0] == old(Abs()) && h[done] == Abs()
      ensures ListsOk() && Good(Abs()) && (forall t <- named :: t in all) && OnePlaceEach()
    {
      assert |available| == POLICIES;
      hide Good, ListsOk, Abs, IsStep, Answers, Answered, Tasks, Resolved, CanFollow, OnePlaceEach;
      done, named, h, ops := 0, tasks, [Abs()], [];
      AnsweredNone(tasks, cs, Abs());
      while done < |cs|
        invariant |ops| == done <= |cs| && |h| == done + 1 && Answered(tasks, cs, h, ops)
        invariant named == Tasks(tasks, ops, done) && h[0] == old(Abs()) && h[done] == Abs()
        invariant ListsOk() && Good(Abs()) && (forall t <- named :: t in all) && fresh(all - old(all))
      {
        if !CanFollow(cs[done], |named|) { break; }
        named, h, ops := Continue(tasks, cs, done, named, h, ops);
        done := done + 1;
      }
      EachPlaced();
    }
  }
}
