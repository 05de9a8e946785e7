/** Tasks and the lists threaded through their one link (Process/process.c, process.h). */
module TaskLists {
  import opened Sequences
  import opened SchedulerSpec

  /** The scheduling part of tcb_t. The policy and the requested priority never change after creation. */
  class Tcb {
    const policy: nat
    const reqPriority: nat
    var flink: Tcb?
    var state: TaskState
    var priority: nat
    var timeSlice: nat
    var naptime: nat

    constructor (policy: nat, priority: nat, naptime: nat)
      ensures this.policy == policy && this.reqPriority == this.priority == priority && this.naptime == naptime
      ensures state == Available && timeSlice == DEFAULT_TIME_SLICE
    {
      this.policy, this.reqPriority, this.priority := policy, priority, priority;
      this.naptime := naptime;
      flink, state, timeSlice := null, Available, DEFAULT_TIME_SLICE;
    }
  }

  /** task_list_t: `tasks` is the sequence from head to tail. */
  class TaskList {
    var head: Tcb?
    var tail: Tcb?
    ghost var tasks: seq<Tcb>

    ghost predicate Link(i: nat)
      requires i < |tasks|
      reads this`tasks, tasks`flink
    {
      tasks[i].flink == if i + 1 < |tasks| then tasks[i + 1] else null
    }

    ghost predicate Valid()
      reads this, tasks`flink
    {
      && Distinct(tasks)
      && head == (if tasks == [] then null else tasks[0])
      && tail == (if tasks == [] then null else tasks[|tasks| - 1])
      && forall i {:trigger Link(i)} :: 0 <= i < |tasks| ==> Link(i)
    }

    constructor ()
      ensures Valid() && tasks == []
    {
      head, tail, tasks := null, null, [];
    }

    /** A list none of whose members was relinked is still a list. */
    twostate lemma Untouched()
      requires old(Valid()) && unchanged(this)
      requires forall t <- tasks :: t.flink == old(t.flink)
      ensures Valid()
    {
      forall i | 0 <= i < |tasks| ensures Link(i) { assert old(Link(i)); }
    }

    /** task_list_insert_front */
    method InsertFront(task: Tcb)
      requires Valid() && task !in tasks
      modifies this, task`flink
      ensures Valid() && tasks == [task] + old(tasks)
    {
      if head == null {
        head, tail := task, task;
        task.flink := null;
      } else {
        task.flink := head;
        head := task;
      }
      tasks := [task] + tasks;
      forall i | 0 <= i < |tasks| ensures Link(i) {
        if i > 0 { assert old(Link(i - 1)); }
      }
    }

    /** task_list_insert_back */
    method InsertBack(task: Tcb)
      requires Valid() && task !in tasks
      modifies this, task`flink, (if tail == null then {} else {tail})`flink
      ensures Valid() && tasks == old(tasks) + [task] && task.flink == null
    {
      if tail == null {
        tail, head := task, task;
        task.flink := null;
      } else {
        tail.flink := task;
        tail := task;
        task.flink := null;
      }
      tasks := tasks + [task];
      forall i | 0 <= i < |tasks| ensures Link(i) {
        if i < |tasks| - 1 { assert old(Link(i)); }
      }
    }

    /** task_list_remove_task; a task that is not in the list changes nothing. */
    method Remove(task: Tcb)
      requires Valid()
      modifies this, tasks`flink
      ensures Valid() && tasks == Without(old(tasks), task)
      ensures task !in old(tasks) ==> forall t <- old(tasks) :: t.flink == old(t.flink)
    {
      if head == null { return; }
      var prev: Tcb? := null;
      var it: Tcb := head;
      ghost var i := 0;
      while it != task
        invariant i < |tasks| && it == tasks[i] && task !in tasks[..i]
        invariant prev == if i == 0 then null else tasks[i - 1]
        decreases |tasks| - i
      {
        assert Link(i);
        if it.flink == null {
          WithoutAbsent(tasks, task);
          return;
        }
        prev, it := it, it.flink;
        i := i + 1;
      }
      WithoutAt(tasks, i);
      Unlink(prev, task, i);
    }

    /** Lines 362-366 of task_list_remove_task: the pointer to the task is redirected behind it. */
    method Unlink(prev: Tcb?, task: Tcb, ghost i: nat)
      requires Valid() && i < |tasks| && task == tasks[i] && prev == if i == 0 then null else tasks[i - 1]
      modifies this, tasks`flink
      ensures Valid() && tasks == old(tasks[..i] + tasks[i + 1..])
      ensures forall t <- old(tasks) :: t == prev || t.flink == old(t.flink)
    {
      ghost var was, rest := tasks, tasks[..i] + tasks[i + 1..];
      assert Link(i);
      if prev == null { head := task.flink; } else { prev.flink := task.flink; }
      tasks := rest;
      forall k | 0 <= k < |tasks| ensures Link(k) {
        assert old(Link(if k < i then k else k + 1));
      }
      FindTail();
    }

    /** The end of task_list_remove_task: the tail is looked up again. */
    method FindTail()
      requires Distinct(tasks) && head == (if tasks == [] then null else tasks[0])
      requires forall i {:trigger Link(i)} :: 0 <= i < |tasks| ==> Link(i)
      modifies this`tail
      ensures Valid()
    {
      tail := head;
      if head == null { return; }
      ghost var i := 0;
      while tail.flink != null
        invariant i < |tasks| && tail == tasks[i]
        decreases |tasks| - i
      {
        assert Link(i);
        tail := tail.flink;
        i := i + 1;
      }
      assert Link(i);
    }

    /** schedule_priority_task: the leftmost task of highest priority. */
    method HighestPriority(ghost info: map<Tcb, Info>) returns (best: Tcb?)
      requires Valid() && forall t <- tasks :: t in info && info[t].priority == t.priority
      ensures best == if tasks == [] then null else Best(tasks, info)
    {
      best := head;
      var task := head;
      ghost var i, b := 0, 0;
      while task != null
        invariant i <= |tasks| && task == (if i < |tasks| then tasks[i] else null)
        invariant tasks == [] ==> best == null && b == 0
        invariant tasks != [] ==> b < |tasks| && b <= i && best == tasks[b]
        invariant forall k :: 0 <= k < i ==> tasks[k].priority <= tasks[b].priority
        invariant forall k :: 0 <= k < b ==> tasks[k].priority < tasks[b].priority
        decreases |tasks| - i
      {
        assert Link(i);
        if task.priority > best.priority { best, b := task, i; }
        task := task.flink;
        i := i + 1;
      }
      if tasks != [] { BestIs(tasks, info, b); }
    }
  }
}
