/** What every run of the kernel's task steps keeps: the ready queue, the task
    list, the reaping discipline, and how long a ready task can wait. */
module TaskRuns {
  import opened Lifecycle

  /** The ready queue: no task twice, most urgent first, exactly the READY tasks. */
  ghost predicate QueueOk(s: Sys) {
    && Queue(s.ready, s.tasks)
    && s.current !in s.ready
    && forall p :: p in s.ready <==> p in s.tasks && s.tasks[p].state == READY
  }

  /** No pid is listed twice. */
  predicate Once(order: seq<nat>) {
    order == [] || (order[0] !in order[1..] && Once(order[1..]))
  }

  ghost predicate ListOk(s: Sys) {
    && Once(s.order)
    && (forall p :: p in s.order <==> p in s.tasks)
    && (forall p :: p in s.tasks ==> p < s.nextPid)
    && 0 in s.tasks && s.tasks[0].idle && s.tasks[0].kernel && s.tasks[0].state != TERMINATED
    && s.current in s.tasks && s.tasks[s.current].state in {RUNNING, TERMINATED}
  }

  /** One task: in a state the kernel uses; a parent it names is alive and
      listed; only such a task waits to be collected, and a finished one does. */
  ghost predicate TaskOk(tasks: map<nat, Info>, current: nat, p: nat)
    requires p in tasks
  {
    var t := tasks[p];
    && t.stack
    && t.state in {READY, RUNNING, TERMINATED}
    && (t.state == RUNNING ==> p == current || t.idle)
    && (t.idle <==> p == 0)
    && (t.parent != 0 ==> t.parent in tasks && tasks[t.parent].state != TERMINATED && t.parent != p)
    && (t.reapBlocked ==> t.parent != 0)
    && (t.state == TERMINATED && t.parent != 0 ==> t.reapBlocked)
  }

  ghost predicate TasksOk(tasks: map<nat, Info>, current: nat) {
    forall p {:trigger TaskOk(tasks, current, p)} :: p in tasks ==> TaskOk(tasks, current, p)
  }

  ghost predicate Ok(s: Sys) {
    QueueOk(s) && ListOk(s) && TasksOk(s.tasks, s.current)
  }

  // ----- events and runs -----

  datatype Event =
    | Timer(fromUser: bool)
    | Spawn(user: bool)
    | Finish(code: int)
    | Await(child: int)
    | Collect
    | Abandon(pid: nat)
    | Preempt(on: bool)

  /** Only a running task acts; the idle task does not exit. */
  predicate Acts(s: Sys, e: Event) {
    && s.current in s.tasks
    && (e.Timer? || s.tasks[s.current].state == RUNNING)
    && (e.Finish? ==> s.current != 0)
    && (e.Abandon? ==> e.pid in s.tasks && e.pid in s.ready && !s.tasks[e.pid].idle
                       && forall p :: p in s.tasks ==> s.tasks[p].parent != e.pid)
  }

  function Step(s: Sys, e: Event): Sys
    requires Acts(s, e) && Known(s.ready, s.tasks)
  {
    match e
    case Timer(fromUser) => Tick(s, fromUser)
    case Spawn(user) => Create(s, user)
    case Finish(code) => Exit(s, code)
    case Await(child) => Wait(s, child).0
    case Collect => Reap(s)
    case Abandon(pid) => Cancel(s, pid)
    case Preempt(on) => s.(tasks := s.tasks[s.current := s.tasks[s.current].(preemptOk := on)])
  }

  /** Boot: the idle task alone. */
  function Boot(): Sys
  {
    Sys(map[0 := Info(0, RUNNING, false, 0, false, IDLE_PRIORITY, true, true, true)], [0], [], 0, 1, true)
  }

  // ----- the queue -----

  lemma InsertOk(q: seq<nat>, tasks: map<nat, Info>, pid: nat)
    requires Queue(q, tasks) && pid in tasks && pid !in q
    ensures Queue(Insert(q, tasks, pid), tasks)
    ensures forall p :: p in Insert(q, tasks, pid) <==> p in q || p == pid
  {
    var k := Place(q, tasks, tasks[pid].priority);
    var r := Insert(q, tasks, pid);
    assert forall i :: 0 <= i < |r| ==> r[i] == if i < k then q[i] else if i == k then pid else q[i - 1];
    forall i, j | 0 <= i < j < |r|
      ensures Precedes(r, tasks, i, j)
    {
      if i == k {
        assert k == j - 1 || Precedes(q, tasks, k, j - 1);
      } else if j != k {
        assert Precedes(q, tasks, if i < k then i else i - 1, if j < k then j else j - 1);
      }
    }
  }

  /** A part of the queue, or the queue over tasks of the same priorities. */
  lemma TailOk(q: seq<nat>, tasks: map<nat, Info>)
    requires Queue(q, tasks) && q != []
    ensures Queue(q[1..], tasks) && q[0] !in q[1..]
    ensures forall p :: p in q <==> p == q[0] || p in q[1..]
    ensures forall p :: p in q[1..] ==> tasks[q[0]].priority <= tasks[p].priority
  {
    forall i, j | 0 <= i < j < |q[1..]|
      ensures Precedes(q[1..], tasks, i, j)
    {
      assert Precedes(q, tasks, i + 1, j + 1);
    }
    forall p | p in q[1..]
      ensures p != q[0] && tasks[q[0]].priority <= tasks[p].priority
    {
      var i :| 0 <= i < |q[1..]| && q[1..][i] == p;
      assert Precedes(q, tasks, 0, i + 1);
    }
  }

  lemma HeadOk(q: seq<nat>, tasks: map<nat, Info>, head: nat)
    requires Queue(q, tasks) && head in tasks && head !in q
    requires forall p :: p in q ==> tasks[head].priority <= tasks[p].priority
    ensures Queue([head] + q, tasks)
  {
    var r := [head] + q;
    forall i, j | 0 <= i < j < |r|
      ensures Precedes(r, tasks, i, j)
    {
      assert r[j] == q[j - 1];
      assert i == 0 || Precedes(q, tasks, i - 1, j - 1);
    }
  }

  lemma {:induction false} WithoutOk(q: seq<nat>, tasks: map<nat, Info>, pid: nat)
    requires Queue(q, tasks)
    ensures Queue(Without(q, pid), tasks)
    ensures forall p :: p in Without(q, pid) <==> p in q && p != pid
  {
    if q != [] {
      TailOk(q, tasks);
      if q[0] != pid {
        WithoutOk(q[1..], tasks, pid);
        HeadOk(Without(q[1..], pid), tasks, q[0]);
      }
    }
  }

  /** Priorities do not change, so the order of the queue does not either. */
  lemma QueueFrame(q: seq<nat>, tasks: map<nat, Info>, tasks': map<nat, Info>)
    requires Queue(q, tasks)
    requires forall p :: p in q ==> p in tasks' && tasks'[p].priority == tasks[p].priority
    ensures Queue(q, tasks')
  {
    forall i, j | 0 <= i < j < |q|
      ensures Precedes(q, tasks', i, j)
    {
      assert Precedes(q, tasks, i, j);
    }
  }

  lemma {:induction false} KeepOnce(order: seq<nat>, tasks: map<nat, Info>)
    requires Once(order)
    ensures Once(Keep(order, tasks))
  {
    if order != [] {
      KeepOnce(order[1..], tasks);
      var rest := Keep(order[1..], tasks);
      assert order[0] !in rest && ([order[0]] + rest)[1..] == rest;
      assert Keep(order, tasks) == if order[0] in tasks then [order[0]] + rest else rest;
    }
  }

  // ----- every step keeps the invariant -----

  lemma AddOk(s: Sys, pid: nat)
    requires pid in s.tasks && s.tasks[pid].stack && s.tasks[pid].state == READY && pid != s.current
    requires Queue(s.ready, s.tasks) && s.current !in s.ready
    requires forall p :: p in s.ready <==> p in s.tasks && s.tasks[p].state == READY && p != pid
    ensures QueueOk(Add(s, pid)) && Add(s, pid) == s.(ready := Insert(s.ready, s.tasks, pid))
  {
    InsertOk(s.ready, s.tasks, pid);
    assert s.tasks[pid := s.tasks[pid].(state := READY)] == s.tasks;
  }

  /** Taking the head off leaves a queue of the tasks that are still READY. */
  lemma PopOk(s: Sys)
    requires QueueOk(s) && s.ready != []
    ensures var t := Set(s.(ready := s.ready[1..]), s.ready[0], RUNNING);
            && Queue(t.ready, t.tasks) && s.current !in t.ready && s.ready[0] !in t.ready
            && (forall p :: p in t.ready <==> p in t.tasks && t.tasks[p].state == READY)
  {
    var t := Set(s.(ready := s.ready[1..]), s.ready[0], RUNNING);
    TailOk(s.ready, s.tasks);
    QueueFrame(t.ready, s.tasks, t.tasks);
  }

  /** A tick that takes the head off and does not put it back. */
  lemma SwitchQueue(s: Sys, fromUser: bool)
    requires Ok(s) && Pops(s, fromUser)
    ensures QueueOk(Tick(s, fromUser))
    ensures Tick(s, fromUser).order == s.order && Tick(s, fromUser).nextPid == s.nextPid
    ensures Tick(s, fromUser).current == if SkipsIdle(s) then s.current else s.ready[0]
    ensures Tick(s, fromUser).tasks ==
            var popped := s.tasks[s.ready[0] := s.tasks[s.ready[0]].(state := RUNNING)];
            if SkipsIdle(s) || s.tasks[s.current].state != RUNNING then popped
            else popped[s.current := popped[s.current].(state := READY)]
    ensures Queue(s.ready[1..], Tick(s, fromUser).tasks)
    ensures Tick(s, fromUser).ready ==
            if SkipsIdle(s) || s.tasks[s.current].state != RUNNING then s.ready[1..]
            else Insert(s.ready[1..], Tick(s, fromUser).tasks, s.current)
  {
    PopOk(s);
    var next := s.ready[0];
    var popped := Set(s.(ready := s.ready[1..]), next, RUNNING);
    assert TaskOk(s.tasks, s.current, s.current);
    if !SkipsIdle(s) && s.tasks[s.current].state == RUNNING {
      var t := Set(popped.(current := next), s.current, READY);
      QueueFrame(popped.ready, popped.tasks, t.tasks);
      AddOk(t, s.current);
    }
  }

  lemma TickTasks(tasks: map<nat, Info>, current: nat, next: nat)
    requires TasksOk(tasks, current) && current in tasks && next in tasks && next != current
    requires tasks[current].state in {RUNNING, TERMINATED} && tasks[next].state == READY
    ensures var popped := tasks[next := tasks[next].(state := RUNNING)];
            && (tasks[next].idle ==> TasksOk(popped, current))
            && (tasks[current].state == TERMINATED ==> TasksOk(popped, next))
            && (tasks[current].state == RUNNING ==>
                  TasksOk(popped[current := tasks[current].(state := READY)], next))
  {
    var popped := tasks[next := tasks[next].(state := RUNNING)];
    var t := popped[current := tasks[current].(state := READY)];
    forall p | p in tasks
      ensures tasks[next].idle ==> TaskOk(popped, current, p)
      ensures tasks[current].state == TERMINATED ==> TaskOk(popped, next, p)
      ensures tasks[current].state == RUNNING ==> TaskOk(t, next, p)
    {
      assert TaskOk(tasks, current, p);
    }
  }

  lemma TickOk(s: Sys, fromUser: bool)
    requires Ok(s)
    ensures Ok(Tick(s, fromUser))
  {
    if Pops(s, fromUser) {
      SwitchQueue(s, fromUser);
      TickTasks(s.tasks, s.current, s.ready[0]);
    }
  }

  lemma CreateTasks(tasks: map<nat, Info>, current: nat, pid: nat, t: Info)
    requires TasksOk(tasks, current) && current in tasks && tasks[current].state == RUNNING && pid !in tasks && pid != 0
    requires t.stack && t.state == READY && t.parent == current && !t.idle && (t.reapBlocked ==> current != 0)
    ensures TasksOk(tasks[pid := t], current)
  {
    forall p | p in tasks
      ensures TaskOk(tasks[pid := t], current, p)
    {
      assert TaskOk(tasks, current, p);
    }
  }

  lemma CreateQueue(s: Sys, user: bool)
    requires QueueOk(s) && ListOk(s) && (user || s.nextPid < PID_LIMIT)
    ensures QueueOk(Create(s, user)) && Queue(s.ready, Create(s, user).tasks)
    ensures var tasks := s.tasks[s.nextPid := NewTask(s, user)];
            Create(s, user) == s.(tasks := tasks, order := [s.nextPid] + s.order, nextPid := s.nextPid + 1,
                                  ready := Insert(s.ready, tasks, s.nextPid))
  {
    var pid := s.nextPid;
    var t := s.(tasks := s.tasks[pid := NewTask(s, user)], order := [pid] + s.order, nextPid := pid + 1);
    QueueFrame(s.ready, s.tasks, t.tasks);
    AddOk(t, pid);
  }

  lemma CreateOk(s: Sys, user: bool)
    requires Ok(s) && s.tasks[s.current].state == RUNNING
    ensures Ok(Create(s, user))
  {
    if user || s.nextPid < PID_LIMIT {
      CreateQueue(s, user);
      assert Create(s, user).order[1..] == s.order;
      CreateTasks(s.tasks, s.current, s.nextPid, NewTask(s, user));
    }
  }

  lemma ExitTasks(s: Sys, code: int)
    requires TasksOk(s.tasks, s.current) && s.current in s.tasks && s.tasks[s.current].state == RUNNING && s.current != 0
    ensures TasksOk(Exit(s, code).tasks, s.current)
  {
    forall p | p in s.tasks
      ensures TaskOk(Exit(s, code).tasks, s.current, p)
    {
      assert TaskOk(s.tasks, s.current, p);
    }
  }

  lemma ExitOk(s: Sys, code: int)
    requires Ok(s) && s.tasks[s.current].state == RUNNING && s.current != 0
    ensures Ok(Exit(s, code))
  {
    QueueFrame(s.ready, s.tasks, Exit(s, code).tasks);
    ExitTasks(s, code);
  }

  /** Some tasks leave: none of them current, queued or a parent. */
  ghost predicate Leaves(s: Sys, t: Sys) {
    && t == s.(tasks := t.tasks, order := Keep(s.order, t.tasks), ready := t.ready)
    && (forall p :: p in t.tasks ==> p in s.tasks && t.tasks[p] == s.tasks[p])
    && (forall p :: p in s.tasks && p !in t.tasks ==> p != s.current && p != 0)
    && (forall p :: p in t.ready <==> p in s.ready && p in t.tasks)
  }

  lemma LeavesTasks(s: Sys, t: Sys)
    requires TasksOk(s.tasks, s.current) && Leaves(s, t)
    requires forall p :: p in t.tasks ==> s.tasks[p].parent == 0 || s.tasks[p].parent in t.tasks
    ensures TasksOk(t.tasks, t.current)
  {
    forall p | p in t.tasks
      ensures TaskOk(t.tasks, t.current, p)
    {
      assert TaskOk(s.tasks, s.current, p);
    }
  }

  lemma LeavesOk(s: Sys, t: Sys)
    requires Ok(s) && Leaves(s, t) && Queue(t.ready, s.tasks)
    requires forall p :: p in t.tasks ==> s.tasks[p].parent == 0 || s.tasks[p].parent in t.tasks
    ensures Ok(t)
  {
    KeepOnce(s.order, t.tasks);
    QueueFrame(t.ready, s.tasks, t.tasks);
    LeavesTasks(s, t);
  }

  /** Finished tasks are nobody's parent, so they can leave. */
  lemma FinishedLeave(s: Sys, t: Sys)
    requires Ok(s) && Leaves(s, t) && t.ready == s.ready
    requires forall p :: p in s.tasks && p !in t.tasks ==> s.tasks[p].state == TERMINATED
    ensures Ok(t)
  {
    forall p | p in t.tasks && s.tasks[p].parent != 0
      ensures s.tasks[p].parent in t.tasks
    {
      assert TaskOk(s.tasks, s.current, p);
    }
    LeavesOk(s, t);
  }

  lemma ReapOk(s: Sys)
    requires Ok(s)
    ensures Ok(Reap(s)) && Leaves(s, Reap(s))
  {
    FinishedLeave(s, Reap(s));
  }

  function Released(s: Sys, child: nat): Sys
    requires child in s.tasks
  {
    Reap(s.(tasks := s.tasks[child := s.tasks[child].(reapBlocked := false)]))
  }

  lemma ReleasedTasks(s: Sys, child: nat)
    requires child in s.tasks && child != s.current && s.tasks[child].state == TERMINATED
    ensures Released(s, child).tasks == map p | p in s.tasks && p != child && !Victim(s, p) :: s.tasks[p]
  {
    var s' := s.(tasks := s.tasks[child := s.tasks[child].(reapBlocked := false)]);
    assert Victim(s', child);
    assert forall p :: p in s.tasks && p != child ==> (Victim(s', p) <==> Victim(s, p));
  }

  lemma CollectLeaves(s: Sys, child: nat)
    requires child in s.tasks && child != s.current && s.tasks[child].state == TERMINATED
    requires 0 in s.tasks && s.tasks[0].state != TERMINATED
    requires forall p :: p in s.ready ==> p in s.tasks && s.tasks[p].state == READY
    ensures Leaves(s, Released(s, child)) && child !in Released(s, child).tasks
    ensures forall p :: p in s.tasks && p !in Released(s, child).tasks ==> s.tasks[p].state == TERMINATED
  {
    ReleasedTasks(s, child);
  }

  /** Letting one finished child go: it leaves, with all that could go anyway. */
  lemma CollectOk(s: Sys, child: nat)
    requires Ok(s) && child in s.tasks && child != s.current && s.tasks[child].state == TERMINATED
    ensures Ok(Released(s, child)) && Leaves(s, Released(s, child)) && child !in Released(s, child).tasks
  {
    CollectLeaves(s, child);
    FinishedLeave(s, Released(s, child));
  }

  /** A wait hands out the code of a finished child of the caller and removes
      the child; any other answer leaves everything as it was. */
  lemma WaitOk(s: Sys, child: int)
    requires Ok(s) && s.tasks[s.current].state == RUNNING
    ensures var (t, out) := Wait(s, child);
            && Ok(t) && (if out.Exited? then Leaves(s, t) else t == s)
            && (out.Exited? ==>
                  && out.pid in s.tasks && out.pid !in t.tasks
                  && s.tasks[out.pid].state == TERMINATED && s.tasks[out.pid].parent == s.current
                  && out.code == s.tasks[out.pid].exitCode)
  {
    var (t, out) := Wait(s, child);
    if out.Exited? {
      assert TaskOk(s.tasks, s.current, s.current);
      CollectOk(s, out.pid);
    }
  }

  lemma CancelLeaves(s: Sys, pid: nat)
    requires pid in s.tasks && pid != s.current && pid != 0 && 0 in s.tasks && s.tasks[0].state != TERMINATED
    requires forall p :: p in s.ready ==> p in s.tasks && s.tasks[p].state == READY
    requires forall p :: p in Without(s.ready, pid) <==> p in s.ready && p != pid
    ensures Leaves(s, Cancel(s, pid)) && Cancel(s, pid).ready == Without(s.ready, pid)
    ensures forall p :: p in Cancel(s, pid).tasks <==> p in s.tasks && p != pid && !Victim(s, p)
  {
    var s' := s.(tasks := s.tasks[pid := s.tasks[pid].(state := TERMINATED, reapBlocked := false, parent := 0)]);
    assert Victim(s', pid);
    assert forall p :: p in s.tasks && p != pid ==> (Victim(s', p) <==> Victim(s, p));
  }

  /** A spawn given up again leaves nothing of its task. */
  lemma CancelOk(s: Sys, pid: nat)
    requires Ok(s) && Acts(s, Abandon(pid))
    ensures Ok(Cancel(s, pid)) && Leaves(s, Cancel(s, pid))
    ensures forall p :: p in Cancel(s, pid).tasks <==> p in s.tasks && p != pid && !Victim(s, p)
  {
    WithoutOk(s.ready, s.tasks, pid);
    assert TaskOk(s.tasks, s.current, pid);
    CancelLeaves(s, pid);
    forall p | p in Cancel(s, pid).tasks && s.tasks[p].parent != 0
      ensures s.tasks[p].parent in Cancel(s, pid).tasks
    {
      assert TaskOk(s.tasks, s.current, p);
    }
    LeavesOk(s, Cancel(s, pid));
  }

  /** Every step keeps every invariant. */
  lemma StepOk(s: Sys, e: Event)
    requires Ok(s) && Acts(s, e)
    ensures Ok(Step(s, e))
  {
    match e
    case Timer(fromUser) => TickOk(s, fromUser);
    case Spawn(user) => CreateOk(s, user);
    case Finish(code) => ExitOk(s, code);
    case Await(child) => WaitOk(s, child);
    case Collect => ReapOk(s);
    case Abandon(pid) => CancelOk(s, pid);
    case Preempt(on) => PreemptOk(s, on);
  }

  lemma PreemptOk(s: Sys, on: bool)
    requires Ok(s) && Acts(s, Preempt(on))
    ensures Ok(Step(s, Preempt(on)))
  {
    var t := Step(s, Preempt(on));
    QueueFrame(s.ready, s.tasks, t.tasks);
    forall p | p in t.tasks
      ensures TaskOk(t.tasks, t.current, p)
    {
      assert TaskOk(s.tasks, s.current, p);
    }
  }

  // ----- runs -----

  /** An event that cannot happen in this state does not. */
  function Go(s: Sys, e: Event): Sys
  {
    if Acts(s, e) && Known(s.ready, s.tasks) then Step(s, e) else s
  }

  function Run(s: Sys, events: seq<Event>): Sys
    decreases |events|
  {
    if events == [] then s else Run(Go(s, events[0]), events[1..])
  }

  /** What one event hands to a waiting parent. */
  function Handed(s: Sys, e: Event): seq<(nat, int)>
  {
    if Acts(s, e) && e.Await? && Wait(s, e.child).1.Exited?
    then [(Wait(s, e.child).1.pid, Wait(s, e.child).1.code)] else []
  }

  /** All that a run hands to waiting parents, in order. */
  function AllHanded(s: Sys, events: seq<Event>): seq<(nat, int)>
    decreases |events|
  {
    if events == [] then [] else Handed(s, events[0]) + AllHanded(Go(s, events[0]), events[1..])
  }

  lemma BootOk()
    ensures Ok(Boot())
  {
    assert TaskOk(Boot().tasks, 0, 0);
  }

  lemma GoOk(s: Sys, e: Event)
    requires Ok(s)
    ensures Ok(Go(s, e))
  {
    if Acts(s, e) {
      StepOk(s, e);
    }
  }

  lemma {:induction false} RunOk(s: Sys, events: seq<Event>)
    requires Ok(s)
    ensures Ok(Run(s, events))
    decreases |events|
  {
    if events != [] {
      GoOk(s, events[0]);
      RunOk(Go(s, events[0]), events[1..]);
    }
  }

  /** Every state reachable from boot: the queue is sorted, first come first
      served among equals, without repetition and holds exactly the READY tasks;
      whoever waits to be collected has a live parent on the list. */
  lemma Reachable(events: seq<Event>)
    ensures var s := Run(Boot(), events);
            && Queue(s.ready, s.tasks) && s.current in s.tasks && s.current !in s.ready
            && (forall p :: p in s.ready <==> p in s.tasks && s.tasks[p].state == READY)
            && (forall p :: p in s.tasks && s.tasks[p].reapBlocked ==>
                  s.tasks[p].parent in s.tasks && s.tasks[s.tasks[p].parent].state != TERMINATED)
  {
    BootOk();
    RunOk(Boot(), events);
    var s := Run(Boot(), events);
    forall p | p in s.tasks && s.tasks[p].reapBlocked
      ensures s.tasks[p].parent in s.tasks && s.tasks[s.tasks[p].parent].state != TERMINATED
    {
      assert TaskOk(s.tasks, s.current, p);
    }
  }

  // ----- exit codes -----

  /** A pid that was handed out and is no longer listed. */
  predicate Gone(s: Sys, p: nat) {
    p < s.nextPid && p !in s.tasks
  }

  predicate Dead(s: Sys, p: nat) {
    Gone(s, p) || (p in s.tasks && s.tasks[p].state == TERMINATED)
  }

  /** A finished task stays finished, with its code, or is gone for good. */
  ghost predicate StaysFinished(s: Sys, t: Sys, p: nat) {
    && (Gone(s, p) ==> Gone(t, p))
    && (p in s.tasks && s.tasks[p].state == TERMINATED ==>
          || Gone(t, p)
          || (p in t.tasks && t.tasks[p].state == TERMINATED && t.tasks[p].exitCode == s.tasks[p].exitCode))
  }

  lemma FinishedTick(s: Sys, fromUser: bool, p: nat)
    requires Ok(s) && Acts(s, Timer(fromUser))
    ensures StaysFinished(s, Tick(s, fromUser), p)
  {
    if Pops(s, fromUser) {
      SwitchQueue(s, fromUser);
    }
  }

  lemma FinishedExit(s: Sys, code: int, p: nat)
    requires Ok(s) && Acts(s, Finish(code))
    ensures StaysFinished(s, Exit(s, code), p)
  {
  }

  lemma FinishedAwait(s: Sys, child: int, p: nat)
    requires Ok(s) && Acts(s, Await(child))
    ensures StaysFinished(s, Wait(s, child).0, p)
  {
    WaitOk(s, child);
  }

  lemma FinishedReap(s: Sys, p: nat)
    requires Ok(s) && Acts(s, Collect)
    ensures StaysFinished(s, Reap(s), p)
  {
    ReapOk(s);
  }

  lemma FinishedCancel(s: Sys, pid: nat, p: nat)
    requires Ok(s) && Acts(s, Abandon(pid))
    ensures StaysFinished(s, Cancel(s, pid), p)
  {
    CancelOk(s, pid);
  }

  /** What one step does to a finished task. */
  lemma FinishedStep(s: Sys, e: Event, p: nat)
    requires Ok(s) && Acts(s, e)
    ensures StaysFinished(s, Step(s, e), p)
  {
    match e
    case Timer(fromUser) => FinishedTick(s, fromUser, p);
    case Spawn(user) => CreateKeeps(s, user);
    case Finish(code) => FinishedExit(s, code, p);
    case Await(child) => FinishedAwait(s, child, p);
    case Collect => FinishedReap(s, p);
    case Abandon(pid) => FinishedCancel(s, pid, p);
    case Preempt(on) =>
  }

  lemma CreateKeeps(s: Sys, user: bool)
    requires Ok(s)
    ensures var t := Create(s, user);
            && (forall p :: p in s.tasks ==> p in t.tasks && t.tasks[p] == s.tasks[p])
            && (forall p :: p in t.tasks ==> p in s.tasks || p == s.nextPid)
            && s.nextPid <= t.nextPid && t.current == s.current
  {
  }

  /** Still listed, and unchanged but for its preemption mark. */
  ghost predicate Kept(s: Sys, t: Sys, p: nat)
    requires p in s.tasks
  {
    p in t.tasks && t.tasks[p].(preemptOk := s.tasks[p].preemptOk) == s.tasks[p]
  }

  lemma UncollectedAwait(s: Sys, child: int, p: nat)
    requires Ok(s) && s.tasks[s.current].state == RUNNING
    requires p in s.tasks && s.tasks[p].state == TERMINATED && s.tasks[p].parent != 0
    ensures Wait(s, child).1 == Exited(p, s.tasks[p].exitCode) || Kept(s, Wait(s, child).0, p)
  {
    assert TaskOk(s.tasks, s.current, p);
    var (t, out) := Wait(s, child);
    if out.Exited? && out.pid != p {
      assert TaskOk(s.tasks, s.current, s.current);
      ReleasedTasks(s, out.pid);
      assert t == Released(s, out.pid);
    }
  }

  ghost predicate KeptOrParentDead(s: Sys, t: Sys, p: nat)
    requires p in s.tasks
  {
    Dead(t, s.tasks[p].parent) || Kept(s, t, p)
  }

  /** A tick changes only the running task and the head of the queue. */
  lemma TickLeaves(s: Sys, fromUser: bool, p: nat)
    requires Ok(s) && p in s.tasks && s.tasks[p].state == TERMINATED
    ensures var t := Tick(s, fromUser);
            p in t.tasks && t.tasks[p] == s.tasks[p]
  {
    if Pops(s, fromUser) {
      SwitchQueue(s, fromUser);
      var head := s.ready[0];
      assert head in s.ready && s.tasks[head].state == READY;
    }
  }

  lemma UncollectedTick(s: Sys, fromUser: bool, p: nat)
    requires Ok(s) && Acts(s, Timer(fromUser))
    requires p in s.tasks && s.tasks[p].state == TERMINATED && s.tasks[p].parent != 0
    ensures KeptOrParentDead(s, Tick(s, fromUser), p)
  {
    TickLeaves(s, fromUser, p);
  }

  lemma UncollectedExit(s: Sys, code: int, p: nat)
    requires Ok(s) && Acts(s, Finish(code))
    requires p in s.tasks && s.tasks[p].state == TERMINATED && s.tasks[p].parent != 0
    ensures KeptOrParentDead(s, Exit(s, code), p)
  {
    assert TaskOk(s.tasks, s.current, p);
  }

  lemma UncollectedReap(s: Sys, p: nat)
    requires Ok(s) && Acts(s, Collect)
    requires p in s.tasks && s.tasks[p].state == TERMINATED && s.tasks[p].parent != 0
    ensures KeptOrParentDead(s, Reap(s), p)
  {
    assert TaskOk(s.tasks, s.current, p);
  }

  lemma UncollectedCancel(s: Sys, pid: nat, p: nat)
    requires Ok(s) && Acts(s, Abandon(pid))
    requires p in s.tasks && s.tasks[p].state == TERMINATED && s.tasks[p].parent != 0
    ensures KeptOrParentDead(s, Cancel(s, pid), p)
  {
    assert TaskOk(s.tasks, s.current, p);
    CancelOk(s, pid);
  }

  /** A finished task with a parent stays as it is until its parent collects it
      or finishes itself. */
  lemma UncollectedStep(s: Sys, e: Event, p: nat)
    requires Ok(s) && Acts(s, e)
    requires p in s.tasks && s.tasks[p].state == TERMINATED && s.tasks[p].parent != 0
    ensures || Dead(Step(s, e), s.tasks[p].parent)
            || Handed(s, e) == [(p, s.tasks[p].exitCode)]
            || Kept(s, Step(s, e), p)
  {
    match e
    case Timer(fromUser) => UncollectedTick(s, fromUser, p);
    case Spawn(user) => CreateKeeps(s, user);
    case Finish(code) => UncollectedExit(s, code, p);
    case Await(child) => UncollectedAwait(s, child, p);
    case Collect => UncollectedReap(s, p);
    case Abandon(pid) => UncollectedCancel(s, pid, p);
    case Preempt(on) =>
  }

  lemma GoFinished(s: Sys, e: Event, p: nat)
    requires Ok(s)
    ensures StaysFinished(s, Go(s, e), p)
  {
    if Acts(s, e) {
      FinishedStep(s, e, p);
    }
  }

  /** What is handed out was finished and listed, and is gone afterwards. */
  lemma HandedGone(s: Sys, e: Event)
    requires Ok(s) && Handed(s, e) != []
    ensures |Handed(s, e)| == 1
    ensures var (p, code) := Handed(s, e)[0];
            p in s.tasks && s.tasks[p].state == TERMINATED && code == s.tasks[p].exitCode && Gone(Go(s, e), p)
  {
    WaitOk(s, e.child);
  }

  lemma {:induction false} GoneForGood(s: Sys, events: seq<Event>, p: nat)
    requires Ok(s) && Gone(s, p)
    ensures Gone(Run(s, events), p)
    ensures forall x :: x in AllHanded(s, events) ==> x.0 != p
    decreases |events|
  {
    if events != [] {
      var e := events[0];
      GoOk(s, e);
      GoFinished(s, e, p);
      GoneForGood(Go(s, e), events[1..], p);
      if Handed(s, e) != [] {
        HandedGone(s, e);
      }
    }
  }

  predicate NoPidTwice(handed: seq<(nat, int)>) {
    handed == [] || ((forall x :: x in handed[1..] ==> x.0 != handed[0].0) && NoPidTwice(handed[1..]))
  }

  /** In any run no exit code is handed out twice. */
  lemma {:induction false} HandedOnce(s: Sys, events: seq<Event>)
    requires Ok(s)
    ensures NoPidTwice(AllHanded(s, events))
    decreases |events|
  {
    if events != [] {
      var e := events[0];
      var rest := AllHanded(Go(s, e), events[1..]);
      GoOk(s, e);
      HandedOnce(Go(s, e), events[1..]);
      if Handed(s, e) == [] {
        assert AllHanded(s, events) == rest;
      } else {
        HandedGone(s, e);
        GoneForGood(Go(s, e), events[1..], Handed(s, e)[0].0);
        assert AllHanded(s, events)[1..] == rest;
      }
    }
  }

  /** Whoever waits for a finished task gets the code it finished with. */
  lemma {:induction false} HandedCode(s: Sys, events: seq<Event>, p: nat)
    requires Ok(s) && p in s.tasks && s.tasks[p].state == TERMINATED
    ensures forall x :: x in AllHanded(s, events) && x.0 == p ==> x.1 == s.tasks[p].exitCode
    decreases |events|
  {
    if events != [] {
      var e := events[0];
      GoOk(s, e);
      GoFinished(s, e, p);
      if Handed(s, e) != [] {
        HandedGone(s, e);
      }
      if Gone(Go(s, e), p) {
        GoneForGood(Go(s, e), events[1..], p);
      } else {
        HandedCode(Go(s, e), events[1..], p);
      }
    }
  }

  lemma {:induction false} DeadForGood(s: Sys, events: seq<Event>, p: nat)
    requires Ok(s) && Dead(s, p)
    ensures Dead(Run(s, events), p)
    decreases |events|
  {
    if events != [] {
      GoOk(s, events[0]);
      GoFinished(s, events[0], p);
      DeadForGood(Go(s, events[0]), events[1..], p);
    }
  }

  /** A finished task whose parent still lives is either collected in the run or
      still listed at its end, with its exit code. */
  lemma {:induction false} ExitCodeKept(s: Sys, events: seq<Event>, p: nat)
    requires Ok(s) && p in s.tasks && s.tasks[p].state == TERMINATED && s.tasks[p].parent != 0
    requires !Dead(Run(s, events), s.tasks[p].parent)
    ensures var t := Run(s, events);
            || (p, s.tasks[p].exitCode) in AllHanded(s, events)
            || (p in t.tasks && t.tasks[p].state == TERMINATED && t.tasks[p].exitCode == s.tasks[p].exitCode
                && t.tasks[p].parent == s.tasks[p].parent)
    decreases |events|
  {
    if events != [] {
      var e := events[0];
      var t := Go(s, e);
      GoOk(s, e);
      if Acts(s, e) {
        UncollectedStep(s, e, p);
      }
      if Dead(t, s.tasks[p].parent) {
        DeadForGood(t, events[1..], s.tasks[p].parent);
      } else if Handed(s, e) == [(p, s.tasks[p].exitCode)] {
        assert AllHanded(s, events)[0] == (p, s.tasks[p].exitCode);
      } else {
        ExitCodeKept(t, events[1..], p);
      }
    }
  }

  /** What a finishing task leaves behind: its record with the code, out of the
      queue, kept for its parent. */
  lemma Finished(s: Sys, code: int)
    requires Ok(s) && Acts(s, Finish(code))
    ensures var t := Go(s, Finish(code));
            && Ok(t) && s.current in t.tasks && t.tasks[s.current].state == TERMINATED && t.tasks[s.current].exitCode == code
            && t.tasks[s.current].parent == s.tasks[s.current].parent
            && (s.tasks[s.current].parent != 0 ==> !Dead(t, s.tasks[s.current].parent))
  {
    GoOk(s, Finish(code));
    assert TaskOk(s.tasks, s.current, s.current);
  }

  /** From task_exit to task_wait_pid: whoever is handed the task in any later
      run gets the code it finished with, and as long as its parent lives that
      code has been handed out or is still to be had. */
  lemma ExitCodeArrives(s: Sys, code: int, events: seq<Event>)
    requires Ok(s) && Acts(s, Finish(code)) && s.tasks[s.current].parent != 0
    ensures var p, parent := s.current, s.tasks[s.current].parent;
            var handed, t := AllHanded(Go(s, Finish(code)), events), Run(Go(s, Finish(code)), events);
            && (forall x :: x in handed && x.0 == p ==> x.1 == code)
            && (!Dead(t, parent) ==>
                  || (p, code) in handed
                  || (p in t.tasks && t.tasks[p].parent == parent
                      && (t.current == parent && Acts(t, Await(p)) ==> Handed(t, Await(p)) == [(p, code)])))
  {
    var p, parent, t0 := s.current, s.tasks[s.current].parent, Go(s, Finish(code));
    var t := Run(t0, events);
    Finished(s, code);
    RunOk(t0, events);
    HandedCode(t0, events, p);
    if !Dead(t, parent) {
      ExitCodeKept(t0, events, p);
      if (p, code) !in AllHanded(t0, events) && t.current == parent && Acts(t, Await(p)) {
        WaitTakes(t, p);
      }
    }
  }

  lemma WaitTakes(t: Sys, p: nat)
    requires Ok(t) && t.current != 0 && p in t.tasks && t.tasks[p].state == TERMINATED && t.tasks[p].parent == t.current
    ensures Wait(t, p).1 == Exited(p, t.tasks[p].exitCode)
  {
    assert TaskOk(t.tasks, t.current, t.current);
    assert p in t.order && Matches(t, p, p);
  }

  /** A child the waiting task asks for. */
  predicate AskedFor(s: Sys, child: int, p: nat) {
    p in s.tasks && s.tasks[p].parent == s.current && (child == -1 || p == child)
  }

  /** One look: it is refused without a child to wait for, repeated while all
      such children live, and otherwise hands out a finished one with its code. */
  lemma WaitAnswers(s: Sys, child: int)
    requires Ok(s) && s.tasks[s.current].state == RUNNING && s.current != 0 && child != 0 && child >= -1
    ensures var out := Wait(s, child).1;
            && (out.Refused? <==> forall p :: !AskedFor(s, child, p))
            && (out.Again? <==> (exists p :: AskedFor(s, child, p))
                                && forall p :: AskedFor(s, child, p) ==> s.tasks[p].state != TERMINATED)
            && (out.Exited? ==> AskedFor(s, child, out.pid) && s.tasks[out.pid].state == TERMINATED
                                && out.code == s.tasks[out.pid].exitCode)
  {
    Asked(s, child);
    WaitOk(s, child);
  }

  lemma Asked(s: Sys, child: int)
    requires ListOk(s)
    ensures forall p :: AskedFor(s, child, p) <==> p in s.order && Matches(s, p, child)
    ensures (exists p :: p in s.order && Matches(s, p, child)) <==> exists p :: AskedFor(s, child, p)
  {
    if p :| p in s.order && Matches(s, p, child) {
      assert AskedFor(s, child, p);
    }
    if p :| AskedFor(s, child, p) {
      assert p in s.order && Matches(s, p, child);
    }
  }

  /** The task list, newest task first. */
  predicate NewestFirst(order: seq<nat>) {
    order == [] || ((forall p :: p in order[1..] ==> p < order[0]) && NewestFirst(order[1..]))
  }

  lemma {:induction false} KeepNewest(order: seq<nat>, tasks: map<nat, Info>)
    requires NewestFirst(order)
    ensures NewestFirst(Keep(order, tasks))
  {
    if order != [] {
      KeepNewest(order[1..], tasks);
      var rest := Keep(order[1..], tasks);
      assert ([order[0]] + rest)[1..] == rest;
      assert Keep(order, tasks) == if order[0] in tasks then [order[0]] + rest else rest;
    }
  }

  lemma NewestStep(s: Sys, e: Event)
    requires Ok(s) && NewestFirst(s.order)
    ensures NewestFirst(Go(s, e).order)
  {
    if Acts(s, e) {
      if e.Timer? && Pops(s, e.fromUser) {
        SwitchQueue(s, e.fromUser);
      } else if e.Spawn? && (e.user || s.nextPid < PID_LIMIT) {
        CreateQueue(s, e.user);
        assert Create(s, e.user).order[1..] == s.order;
      } else if e.Await? || e.Collect? || e.Abandon? {
        KeepNewest(s.order, Step(s, e).tasks);
      }
    }
  }

  lemma {:induction false} NewestRun(s: Sys, events: seq<Event>)
    requires Ok(s) && NewestFirst(s.order)
    ensures NewestFirst(Run(s, events).order)
    decreases |events|
  {
    if events != [] {
      GoOk(s, events[0]);
      NewestStep(s, events[0]);
      NewestRun(Go(s, events[0]), events[1..]);
    }
  }

  lemma {:induction false} FirstIsNewest(order: seq<nat>, s: Sys, child: int)
    requires NewestFirst(order)
    ensures var r := FirstExited(order, s, child);
            forall p :: p in order && Matches(s, p, child) && s.tasks[p].state == TERMINATED ==> p <= r
    decreases |order|
  {
    if order != [] {
      FirstIsNewest(order[1..], s, child);
    }
  }

  /** In every state after boot a wait for any child takes the newest finished one. */
  lemma WaitTakesNewest(events: seq<Event>, child: int, p: nat)
    requires var s := Run(Boot(), events);
             Acts(s, Await(child)) && AskedFor(s, child, p) && s.tasks[p].state == TERMINATED
    ensures Wait(Run(Boot(), events), child).1.Exited? ==> p <= Wait(Run(Boot(), events), child).1.pid
  {
    BootOk();
    RunOk(Boot(), events);
    NewestRun(Boot(), events);
    var s := Run(Boot(), events);
    FirstIsNewest(s.order, s, child);
  }

  /** A spawned task is its creator's child, ready and listed first. */
  lemma Spawned(s: Sys, user: bool)
    requires Ok(s) && s.tasks[s.current].state == RUNNING && (user || s.nextPid < PID_LIMIT)
    ensures var t := Go(s, Spawn(user));
            && Ok(t) && s.nextPid !in s.tasks && s.nextPid in t.ready && t.order == [s.nextPid] + s.order && t.current == s.current
            && AskedFor(t, s.nextPid, s.nextPid) && t.tasks[s.nextPid].kernel == !user
  {
    GoOk(s, Spawn(user));
    CreateQueue(s, user);
    InsertOk(s.ready, Create(s, user).tasks, s.nextPid);
  }

  /** Reaping takes exactly the finished tasks nobody waits for; none of them is
      running or queued. */
  lemma ReapTakes(s: Sys, p: nat)
    requires Ok(s) && p in s.tasks
    ensures p !in Reap(s).tasks <==> p != s.current && s.tasks[p].state == TERMINATED && !s.tasks[p].reapBlocked
    ensures p !in Reap(s).tasks ==> p !in s.ready && p !in Reap(s).order && forall c :: c in s.tasks ==> s.tasks[c].parent != p
    ensures p in Reap(s).tasks ==> Reap(s).tasks[p] == s.tasks[p]
  {
    if p !in Reap(s).tasks {
      forall c | c in s.tasks
        ensures s.tasks[c].parent != p
      {
        assert TaskOk(s.tasks, s.current, c);
      }
    }
  }

  // ----- waiting for the processor -----

  /** How many tasks stand before this one. */
  function Rank(q: seq<nat>, p: nat): (k: nat)
    requires p in q
    ensures k < |q| && q[k] == p && p !in q[..k]
  {
    if q[0] == p then 0 else 1 + Rank(q[1..], p)
  }

  lemma RankIs(q: seq<nat>, tasks: map<nat, Info>, p: nat, k: nat)
    requires Queue(q, tasks) && k < |q| && q[k] == p
    ensures p in q && Rank(q, p) == k
  {
    var r := Rank(q, p);
    assert r < k ==> Precedes(q, tasks, r, k);
  }

  /** A task that comes in takes a place before exactly the less urgent ones. */
  lemma RankInsert(q: seq<nat>, tasks: map<nat, Info>, pid: nat, p: nat)
    requires Queue(q, tasks) && pid in tasks && pid !in q && p in q
    ensures p in Insert(q, tasks, pid)
    ensures Rank(Insert(q, tasks, pid), p) ==
            Rank(q, p) + if tasks[pid].priority < tasks[p].priority then 1 else 0
  {
    var k := Place(q, tasks, tasks[pid].priority);
    var i := Rank(q, p);
    InsertOk(q, tasks, pid);
    assert k < i ==> Precedes(q, tasks, k, i);
    var at := if i < k then i else i + 1;
    assert Insert(q, tasks, pid)[at] == p;
    RankIs(Insert(q, tasks, pid), tasks, p, at);
  }

  lemma {:induction false} RankWithout(q: seq<nat>, tasks: map<nat, Info>, pid: nat, p: nat)
    requires Queue(q, tasks) && p in q && p != pid
    ensures p in Without(q, pid) && Rank(Without(q, pid), p) <= Rank(q, p)
  {
    if q[0] != pid && q[0] != p {
      TailOk(q, tasks);
      RankWithout(q[1..], tasks, pid, p);
      assert ([q[0]] + Without(q[1..], pid))[1..] == Without(q[1..], pid);
    }
  }

  /** Does the event queue a task more urgent than this one? */
  function Overtaken(s: Sys, e: Event, p: nat): nat
    requires p in s.tasks
  {
    if !Acts(s, e) || !Known(s.ready, s.tasks) then 0
    else if e.Spawn? && (e.user || s.nextPid < PID_LIMIT) && NewTask(s, e.user).priority < s.tasks[p].priority then 1
    else if e.Timer? && Pops(s, e.fromUser) && Requeues(s) && s.tasks[s.current].priority < s.tasks[p].priority then 1
    else 0
  }

  function Popped(s: Sys, e: Event): nat
  {
    if Acts(s, e) && e.Timer? && Pops(s, e.fromUser) then 1 else 0
  }

  /** The task runs, or has come nearer to the head by the pops that took place
      less the urgent tasks that came. */
  ghost predicate Nearer(s: Sys, t: Sys, p: nat, popped: nat, overtaken: nat)
    requires p in s.ready && p in s.tasks
  {
    || t.current == p
    || (p in t.ready && p in t.tasks && t.tasks[p].priority == s.tasks[p].priority
        && Rank(t.ready, p) + popped <= Rank(s.ready, p) + overtaken)
  }

  /** The head goes and, when `back`, another task comes in. */
  lemma RankSwitch(q: seq<nat>, tasks: map<nat, Info>, x: nat, back: bool, p: nat)
    requires q != [] && Queue(q[1..], tasks) && x in tasks && x !in q && p in q && p != q[0]
    ensures p in q[1..] && p in tasks
    ensures var r := if back then Insert(q[1..], tasks, x) else q[1..];
            && p in r
            && Rank(r, p) + 1 == Rank(q, p) + if back && tasks[x].priority < tasks[p].priority then 1 else 0
  {
    if back {
      RankInsert(q[1..], tasks, x, p);
    }
  }

  lemma NearerSwitch(s: Sys, t: Sys, p: nat, back: bool)
    requires p in s.ready && p in s.tasks && s.current !in s.ready && p != s.ready[0]
    requires Queue(s.ready[1..], t.tasks) && s.current in s.tasks && s.current in t.tasks && p in t.tasks
    requires t.tasks[p].priority == s.tasks[p].priority && t.tasks[s.current].priority == s.tasks[s.current].priority
    requires t.ready == if back then Insert(s.ready[1..], t.tasks, s.current) else s.ready[1..]
    ensures Nearer(s, t, p, 1, if back && s.tasks[s.current].priority < s.tasks[p].priority then 1 else 0)
  {
    RankSwitch(s.ready, t.tasks, s.current, back, p);
  }

  predicate Requeues(s: Sys)
    requires s.current in s.tasks && s.ready != [] && s.ready[0] in s.tasks
  {
    !SkipsIdle(s) && s.tasks[s.current].state == RUNNING
  }

  lemma RankTick(s: Sys, fromUser: bool, p: nat)
    requires Ok(s) && Pops(s, fromUser) && p in s.ready && p != 0
    ensures Nearer(s, Tick(s, fromUser), p, 1,
                   if Requeues(s) && s.tasks[s.current].priority < s.tasks[p].priority then 1 else 0)
  {
    SwitchQueue(s, fromUser);
    if p == s.ready[0] {
      assert TaskOk(s.tasks, s.current, p);
      assert !SkipsIdle(s);
    } else {
      NearerSwitch(s, Tick(s, fromUser), p, Requeues(s));
    }
  }

  lemma RankCreate(s: Sys, user: bool, p: nat)
    requires Ok(s) && p in s.ready && s.tasks[s.current].state == RUNNING
    ensures Nearer(s, Create(s, user), p, 0, Overtaken(s, Spawn(user), p))
  {
    if user || s.nextPid < PID_LIMIT {
      CreateQueue(s, user);
      RankInsert(s.ready, Create(s, user).tasks, s.nextPid, p);
    }
  }

  lemma RankCancel(s: Sys, pid: nat, p: nat)
    requires Ok(s) && Acts(s, Abandon(pid)) && p in s.ready && p != pid
    ensures Nearer(s, Cancel(s, pid), p, 0, 0)
  {
    RankWithout(s.ready, s.tasks, pid, p);
    CancelOk(s, pid);
  }

  lemma RankWait(s: Sys, child: int, p: nat)
    requires Ok(s) && s.tasks[s.current].state == RUNNING && p in s.ready
    ensures Nearer(s, Wait(s, child).0, p, 0, 0)
  {
    WaitOk(s, child);
  }

  /** What one event does to a waiting task. */
  lemma RankStep(s: Sys, e: Event, p: nat)
    requires Ok(s) && p in s.ready && p != 0 && e != Abandon(p) && Acts(s, e)
    ensures Nearer(s, Step(s, e), p, Popped(s, e), Overtaken(s, e, p))
  {
    match e
    case Timer(fromUser) =>
      if Pops(s, fromUser) {
        RankTick(s, fromUser, p);
      }
    case Spawn(user) => RankCreate(s, user, p);
    case Finish(code) =>
    case Await(child) => RankWait(s, child, p);
    case Collect =>
    case Abandon(pid) => RankCancel(s, pid, p);
    case Preempt(on) =>
  }

  function AllOvertaken(s: Sys, events: seq<Event>, p: nat): nat
    decreases |events|
  {
    if events == [] || p !in s.tasks then 0 else Overtaken(s, events[0], p) + AllOvertaken(Go(s, events[0]), events[1..], p)
  }

  function AllPopped(s: Sys, events: seq<Event>): nat
    decreases |events|
  {
    if events == [] then 0 else Popped(s, events[0]) + AllPopped(Go(s, events[0]), events[1..])
  }

  predicate EverRuns(s: Sys, events: seq<Event>, p: nat)
    decreases |events|
  {
    s.current == p || (events != [] && EverRuns(Go(s, events[0]), events[1..], p))
  }

  /** A waiting task runs before the processor is given away more often than
      there are tasks before it, now or because more urgent ones came. */
  lemma {:induction false} WaitIsBounded(s: Sys, events: seq<Event>, p: nat)
    requires Ok(s) && p in s.ready && p != 0 && Abandon(p) !in events
    requires AllPopped(s, events) > Rank(s.ready, p) + AllOvertaken(s, events, p)
    ensures EverRuns(s, events, p)
    decreases |events|
  {
    var t := Go(s, events[0]);
    GoOk(s, events[0]);
    if Acts(s, events[0]) {
      RankStep(s, events[0], p);
    }
    if t.current != p {
      WaitIsBounded(t, events[1..], p);
    }
  }

  /** A tick that may not interrupt the current task does nothing; any other one
      runs the head of the queue and queues the current task again if it was
      running, except that it does not leave a user task for the idle task. */
  lemma TickGives(s: Sys, fromUser: bool)
    requires Ok(s)
    ensures var t, me, head := Tick(s, fromUser), s.tasks[s.current], if s.ready == [] then 0 else s.ready[0];
            if !s.enabled || s.ready == [] || !(fromUser || s.current == 0 || me.state == TERMINATED || me.preemptOk) then t == s
            else if !me.kernel && me.state != TERMINATED && head == 0
            then t.current == s.current && t.ready == s.ready[1..]
            else t.current == head && t.tasks[head].state == RUNNING && (me.state == RUNNING ==> s.current in t.ready)
  {
    if Pops(s, fromUser) {
      TickOk(s, fromUser);
      SwitchQueue(s, fromUser);
      assert TaskOk(s.tasks, s.current, s.ready[0]);
    }
  }

  /** A task that waits in the kernel lets the timer give its place away while
      its mark is set, and only then. */
  lemma MarkLetsGo(s: Sys, on: bool)
    requires Ok(s) && s.enabled && s.ready != [] && s.ready[0] != 0 && s.current != 0 && s.tasks[s.current].state == RUNNING
    ensures Run(s, [Preempt(on), Timer(false)]).current == if on then s.ready[0] else s.current
  {
    RunTwo(s, Preempt(on), Timer(false));
    GoOk(s, Preempt(on));
    TickGives(Go(s, Preempt(on)), false);
  }

  // ----- who comes first -----

  function Urgency(t: Info): nat
  {
    if t.idle then IDLE_PRIORITY else if t.kernel then KERNEL_PRIORITY else USER_PRIORITY
  }

  ghost predicate ByKind(tasks: map<nat, Info>) {
    forall p :: p in tasks ==> tasks[p].priority == Urgency(tasks[p])
  }

  lemma KindSet(tasks: map<nat, Info>, p: nat, state: State)
    requires ByKind(tasks) && p in tasks
    ensures ByKind(tasks[p := tasks[p].(state := state)])
  {
  }

  lemma KindTick(s: Sys, t: Sys, fromUser: bool)
    requires Ok(s) && ByKind(s.tasks) && t == Tick(s, fromUser)
    ensures ByKind(t.tasks)
  {
    if Pops(s, fromUser) {
      var head := s.ready[0];
      var popped := s.tasks[head := s.tasks[head].(state := RUNNING)];
      SwitchQueue(s, fromUser);
      KindSet(s.tasks, head, RUNNING);
      KindSet(popped, s.current, READY);
    }
  }

  lemma KindSpawn(s: Sys, user: bool)
    requires Ok(s) && ByKind(s.tasks)
    ensures ByKind(Create(s, user).tasks)
  {
    if user || s.nextPid < PID_LIMIT {
      CreateQueue(s, user);
    }
  }

  lemma KindLeaves(s: Sys, t: Sys)
    requires ByKind(s.tasks) && (t == s || Leaves(s, t))
    ensures ByKind(t.tasks)
  {
  }

  lemma KindAway(s: Sys, e: Event)
    requires Ok(s) && ByKind(s.tasks) && Acts(s, e) && (e.Await? || e.Abandon? || e.Collect?)
    ensures ByKind(Step(s, e).tasks)
  {
    if e.Await? {
      WaitOk(s, e.child);
    } else if e.Abandon? {
      CancelOk(s, e.pid);
    } else {
      ReapOk(s);
    }
    KindLeaves(s, Step(s, e));
  }

  lemma KindExit(s: Sys, code: int)
    requires Ok(s) && ByKind(s.tasks)
    ensures ByKind(Exit(s, code).tasks)
  {
  }

  lemma KindStep(s: Sys, e: Event)
    requires Ok(s) && ByKind(s.tasks)
    ensures ByKind(Go(s, e).tasks)
  {
    if Acts(s, e) {
      match e
      case Timer(fromUser) => KindTick(s, Tick(s, fromUser), fromUser);
      case Spawn(user) => KindSpawn(s, user);
      case Finish(code) => KindExit(s, code);
      case Await(_) => KindAway(s, e);
      case Collect => KindAway(s, e);
      case Abandon(_) => KindAway(s, e);
      case Preempt(on) =>
    }
  }

  lemma {:induction false} KindRun(s: Sys, events: seq<Event>)
    requires Ok(s) && ByKind(s.tasks)
    ensures ByKind(Run(s, events).tasks)
    decreases |events|
  {
    if events != [] {
      GoOk(s, events[0]);
      KindStep(s, events[0]);
      KindRun(Go(s, events[0]), events[1..]);
    }
  }

  /** In every state after boot kernel tasks stand before user tasks in the
      queue, and the idle task comes last. */
  lemma KernelFirst(events: seq<Event>, i: nat, j: nat)
    requires i < j < |Run(Boot(), events).ready|
    ensures var s := Run(Boot(), events);
            var a, b := s.ready[i], s.ready[j];
            && a in s.tasks && b in s.tasks && !s.tasks[a].idle
            && (!s.tasks[a].kernel ==> !s.tasks[b].kernel || s.tasks[b].idle)
  {
    BootOk();
    RunOk(Boot(), events);
    KindRun(Boot(), events);
    var s := Run(Boot(), events);
    assert Precedes(s.ready, s.tasks, i, j);
    assert TaskOk(s.tasks, s.current, s.ready[i]) && TaskOk(s.tasks, s.current, s.ready[j]);
  }

  // ----- the lost idle task -----

  /** Every task that can run is current or queued. */
  ghost predicate Placed(s: Sys) {
    forall p :: p in s.tasks && s.tasks[p].state != TERMINATED ==> p == s.current || p in s.ready
  }

  /** A tick keeps every task placed unless it pops the idle task while a user
      task can go on: that one was marked running and is refused back. */
  lemma TickLosesIdle(s: Sys, fromUser: bool)
    requires Ok(s) && Placed(s)
    ensures Placed(Tick(s, fromUser)) <==> !(Pops(s, fromUser) && SkipsIdle(s))
  {
    if Pops(s, fromUser) {
      var t := Tick(s, fromUser);
      SwitchQueue(s, fromUser);
      assert SkipsIdle(s) ==> t.tasks[s.ready[0]].state == RUNNING && s.ready[0] !in t.ready;
    }
  }

  ghost predicate IdleLost(s: Sys) {
    s.current != 0 && 0 !in s.ready
  }

  lemma IdleLostTick(s: Sys, fromUser: bool)
    requires Ok(s) && IdleLost(s) && Acts(s, Timer(fromUser))
    ensures IdleLost(Tick(s, fromUser))
  {
    TickOk(s, fromUser);
    if Pops(s, fromUser) {
      SwitchQueue(s, fromUser);
    }
  }

  lemma IdleLostExit(s: Sys, code: int)
    requires Ok(s) && IdleLost(s) && Acts(s, Finish(code))
    ensures IdleLost(Exit(s, code))
  {
  }

  lemma IdleLostReap(s: Sys)
    requires Ok(s) && IdleLost(s)
    ensures IdleLost(Reap(s))
  {
  }

  lemma IdleLostAway(s: Sys, e: Event)
    requires Ok(s) && IdleLost(s) && Acts(s, e) && (e.Await? || e.Abandon?)
    ensures IdleLost(Step(s, e))
  {
    if e.Await? {
      WaitOk(s, e.child);
    } else {
      CancelOk(s, e.pid);
    }
  }

  lemma IdleStaysLost(s: Sys, e: Event)
    requires Ok(s) && IdleLost(s)
    ensures IdleLost(Go(s, e))
  {
    if Acts(s, e) {
      match e
      case Timer(fromUser) => IdleLostTick(s, fromUser);
      case Spawn(user) =>
        CreateKeeps(s, user);
        CreateOk(s, user);
      case Finish(code) => IdleLostExit(s, code);
      case Await(child) => IdleLostAway(s, e);
      case Collect => IdleLostReap(s);
      case Abandon(pid) => IdleLostAway(s, e);
      case Preempt(on) =>
    }
  }

  /** Once lost, the idle task never runs again. */
  lemma {:induction false} IdleLostForGood(s: Sys, events: seq<Event>)
    requires Ok(s) && IdleLost(s)
    ensures IdleLost(Run(s, events)) && !EverRuns(s, events, 0)
    decreases |events|
  {
    if events != [] {
      GoOk(s, events[0]);
      IdleStaysLost(s, events[0]);
      IdleLostForGood(Go(s, events[0]), events[1..]);
    }
  }

  /** The last task that could run has finished: nothing changes any more. */
  ghost predicate Stopped(s: Sys) {
    s.current in s.tasks && s.tasks[s.current].state == TERMINATED && s.ready == []
  }

  lemma {:induction false} Halted(s: Sys, events: seq<Event>)
    requires Stopped(s)
    ensures Run(s, events) == s
    decreases |events|
  {
    if events != [] {
      Halted(s, events[1..]);
    }
  }

  /** After a task finishes the kernel goes on exactly if another one is queued;
      with the idle task lost, that need not be so. */
  lemma FinishHalts(s: Sys, code: int)
    requires Ok(s) && s.enabled && s.tasks[s.current].state == RUNNING && s.current != 0
    ensures (forall events :: Run(Exit(s, code), events) == Exit(s, code)) <==> s.ready == []
  {
    var t := Exit(s, code);
    assert t.ready == s.ready;
    if s.ready == [] {
      forall events
        ensures Run(t, events) == t
      {
        Halted(t, events);
      }
    } else {
      ExitOk(s, code);
      FinishedTicks(t);
    }
  }

  lemma FinishedTicks(t: Sys)
    requires Ok(t) && t.enabled && t.tasks[t.current].state == TERMINATED && t.ready != []
    ensures Run(t, [Timer(false)]) != t
  {
    SwitchQueue(t, false);
    assert Run(t, [Timer(false)]) == Run(Tick(t, false), []);
  }

  /** A user task alone with the idle task: interrupted once, the kernel stops
      for ever when it finishes. */
  lemma IdleLostHalts(s: Sys, code: int, events: seq<Event>)
    requires Ok(s) && s.enabled && s.ready == [0] && s.current != 0
    requires s.tasks[s.current].state == RUNNING && !s.tasks[s.current].kernel
    ensures var t := Exit(Tick(s, true), code);
            IdleLost(t) && t.tasks[0].state == RUNNING && Run(t, events) == t
  {
    SwitchQueue(s, true);
    Halted(Exit(Tick(s, true), code), events);
  }

  /** The first task spawned after boot, and its first tick. */
  lemma FirstSpawn()
    ensures var s := Go(Boot(), Spawn(true));
            Ok(s) && s.ready == [1] && s.current == 0 && s.tasks[0].state == RUNNING && s.enabled && !s.tasks[1].kernel
  {
    BootOk();
    GoOk(Boot(), Spawn(true));
    CreateQueue(Boot(), true);
  }

  lemma FirstTick(s: Sys)
    requires Ok(s) && s.ready == [1] && s.current == 0 && s.tasks[0].state == RUNNING && s.enabled
    ensures var t := Go(s, Timer(false));
            t.ready == [0] && t.current == 1 && t.tasks[1] == s.tasks[1].(state := RUNNING) && t.enabled
  {
    SwitchQueue(s, false);
  }

  lemma RunTwo(s: Sys, a: Event, b: Event)
    ensures Run(s, [a, b]) == Go(Go(s, a), b)
  {
    assert Run(s, [a, b]) == Run(Go(s, a), [b]) == Run(Go(Go(s, a), b), []);
  }

  /** The state of that lemma is one tick after the first spawn from boot. */
  lemma AloneAfterBoot()
    ensures var s := Run(Boot(), [Spawn(true), Timer(false)]);
            Ok(s) && s.enabled && s.ready == [0] && s.current == 1 && s.tasks[1].state == RUNNING && !s.tasks[1].kernel
  {
    FirstSpawn();
    RunTwo(Boot(), Spawn(true), Timer(false));
    FirstTick(Go(Boot(), Spawn(true)));
    GoOk(Go(Boot(), Spawn(true)), Timer(false));
  }
}
