/** Tasks as values: the ready queue, the task list and one function for every
    atomic step a task or a timer interrupt takes
    (src/kernel/task/scheduler.c, src/kernel/task/task.c). */
module Lifecycle {

  datatype State = READY | RUNNING | BLOCKED | SLEEPING | WAITING | ZOMBIE | TERMINATED

  datatype Info = Info(parent: nat, state: State, reapBlocked: bool, exitCode: int, preemptOk: bool,
                       priority: nat, kernel: bool, idle: bool, stack: bool)

  /** The tasks by pid, the task list and the ready queue in list order. */
  datatype Sys = Sys(tasks: map<nat, Info>, order: seq<nat>, ready: seq<nat>, current: nat, nextPid: nat, enabled: bool)

  const KERNEL_PRIORITY := 5
  const USER_PRIORITY := 10
  const IDLE_PRIORITY := 255
  const PID_LIMIT := 0xFFFFFFFF

  predicate Known(q: seq<nat>, tasks: map<nat, Info>) {
    forall i :: 0 <= i < |q| ==> q[i] in tasks
  }

  /** Two places of a queue: different tasks, the first at least as urgent. */
  predicate Precedes(q: seq<nat>, tasks: map<nat, Info>, i: nat, j: nat)
    requires Known(q, tasks) && i < |q| && j < |q|
  {
    q[i] != q[j] && tasks[q[i]].priority <= tasks[q[j]].priority
  }

  /** No task twice, the most urgent first. */
  predicate Queue(q: seq<nat>, tasks: map<nat, Info>) {
    && Known(q, tasks)
    && forall i, j {:trigger Precedes(q, tasks, i, j)} :: 0 <= i < j < |q| ==> Precedes(q, tasks, i, j)
  }

  // ----- the queue operations -----

  /** Where a task of this priority goes: behind everything at least as urgent. */
  function Place(q: seq<nat>, tasks: map<nat, Info>, priority: nat): (k: nat)
    requires Known(q, tasks)
    ensures k <= |q|
    ensures forall i :: 0 <= i < k ==> tasks[q[i]].priority <= priority
    ensures k < |q| ==> tasks[q[k]].priority > priority
  {
    if q == [] || tasks[q[0]].priority > priority then 0 else 1 + Place(q[1..], tasks, priority)
  }

  function Insert(q: seq<nat>, tasks: map<nat, Info>, pid: nat): seq<nat>
    requires Known(q, tasks) && pid in tasks
  {
    var k := Place(q, tasks, tasks[pid].priority);
    q[..k] + [pid] + q[k..]
  }

  /** The queue without its first entry for the task. */
  function Without(q: seq<nat>, pid: nat): (r: seq<nat>)
    ensures forall x :: x in r ==> x in q
    ensures pid !in q ==> r == q
  {
    if q == [] then [] else if q[0] == pid then q[1..] else [q[0]] + Without(q[1..], pid)
  }

  function Set(s: Sys, pid: nat, state: State): Sys
    requires pid in s.tasks
  {
    s.(tasks := s.tasks[pid := s.tasks[pid].(state := state)])
  }

  /** scheduler_add_task */
  function Add(s: Sys, pid: nat): Sys
    requires pid in s.tasks && Known(s.ready, s.tasks)
  {
    if !s.tasks[pid].stack || s.tasks[pid].state == RUNNING then s
    else Set(s, pid, READY).(ready := Insert(s.ready, s.tasks, pid))
  }

  // ----- the steps -----

  /** Does this tick take a task off the queue? */
  predicate Pops(s: Sys, fromUser: bool)
    requires s.current in s.tasks
  {
    var prev := s.tasks[s.current];
    s.enabled && s.ready != [] && (fromUser || s.current == 0 || prev.state == TERMINATED || prev.preemptOk)
  }

  /** The idle task came up while a user task can go on. */
  predicate SkipsIdle(s: Sys)
    requires s.current in s.tasks && s.ready != [] && s.ready[0] in s.tasks
  {
    var prev := s.tasks[s.current];
    !prev.kernel && prev.state != TERMINATED && s.tasks[s.ready[0]].idle
  }

  /** schedule_from_irq */
  function Tick(s: Sys, fromUser: bool): Sys
    requires s.current in s.tasks && Known(s.ready, s.tasks)
  {
    if !Pops(s, fromUser) then s
    else
      var next := s.ready[0];
      var popped := Set(s.(ready := s.ready[1..]), next, RUNNING);
      if next == s.current || SkipsIdle(s) then Add(popped, next)
      else
        var switched := popped.(current := next);
        if s.tasks[s.current].state == RUNNING then Add(Set(switched, s.current, READY), s.current) else switched
  }

  function NewTask(s: Sys, user: bool): Info
  {
    Info(s.current, READY, user && s.current != 0, 0, false,
         if user then USER_PRIORITY else KERNEL_PRIORITY, !user, false, true)
  }

  /** task_create and task_create_user, once their memory is there. */
  function Create(s: Sys, user: bool): Sys
    requires Known(s.ready, s.tasks)
  {
    if !user && s.nextPid >= PID_LIMIT then s
    else
      var pid := s.nextPid;
      Add(s.(tasks := s.tasks[pid := NewTask(s, user)], order := [pid] + s.order, nextPid := pid + 1), pid)
  }

  /** task_detach_children_locked */
  function Detached(tasks: map<nat, Info>, parent: nat): map<nat, Info>
  {
    map p | p in tasks :: if tasks[p].parent == parent then tasks[p].(parent := 0, reapBlocked := false) else tasks[p]
  }

  /** task_exit */
  function Exit(s: Sys, code: int): Sys
    requires s.current in s.tasks
  {
    var tasks := Detached(s.tasks, s.current);
    var me := tasks[s.current];
    s.(tasks := tasks[s.current := me.(exitCode := code, reapBlocked := me.parent != 0, state := TERMINATED)],
       ready := Without(s.ready, s.current))
  }

  predicate Victim(s: Sys, pid: nat) {
    pid in s.tasks && pid != s.current && s.tasks[pid].state == TERMINATED && !s.tasks[pid].reapBlocked
  }

  function Keep(order: seq<nat>, tasks: map<nat, Info>): (r: seq<nat>)
    ensures forall x :: x in r <==> x in order && x in tasks
  {
    if order == [] then [] else (if order[0] in tasks then [order[0]] else []) + Keep(order[1..], tasks)
  }

  /** task_reap_terminated, as one step. */
  function Reap(s: Sys): Sys
  {
    var tasks := map p | p in s.tasks && !Victim(s, p) :: s.tasks[p];
    s.(tasks := tasks, order := Keep(s.order, tasks))
  }

  predicate Matches(s: Sys, pid: nat, child: int) {
    pid in s.tasks && s.tasks[pid].parent == s.current && (child == -1 || pid == child)
  }

  /** The first terminated child the wait asks for, in list order. */
  function FirstExited(order: seq<nat>, s: Sys, child: int): (r: int)
    ensures r == -1 || (r >= 0 && r in order && Matches(s, r, child) && s.tasks[r].state == TERMINATED)
    ensures r == -1 ==> forall p :: p in order && Matches(s, p, child) ==> s.tasks[p].state != TERMINATED
  {
    if order == [] then -1
    else if Matches(s, order[0], child) && s.tasks[order[0]].state == TERMINATED then order[0]
    else FirstExited(order[1..], s, child)
  }

  datatype Outcome = Refused | Again | Exited(pid: nat, code: int)

  /** One look of task_wait_pid at the task list. */
  function Wait(s: Sys, child: int): (Sys, Outcome)
  {
    if s.current == 0 || child == 0 || child < -1 then (s, Refused)
    else
      var found := FirstExited(s.order, s, child);
      if found >= 0 then
        (Reap(s.(tasks := s.tasks[found := s.tasks[found].(reapBlocked := false)])),
         Exited(found, s.tasks[found].exitCode))
      else if exists p :: p in s.order && Matches(s, p, child) then (s, Again)
      else (s, Refused)
  }

  /** The end of a spawn whose terminal could not be attached. */
  function Cancel(s: Sys, pid: nat): Sys
    requires pid in s.tasks
  {
    var t := s.tasks[pid].(state := TERMINATED, reapBlocked := false, parent := 0);
    Reap(s.(tasks := s.tasks[pid := t], ready := Without(s.ready, pid)))
  }
}
