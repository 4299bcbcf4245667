/** The scheduler and the task list as they stand in memory: two linked lists
    through the task records, changed link by link. Every operation is proved to
    be the step of the same name on values (src/kernel/task/scheduler.c,
    src/kernel/task/task.c). */
module Scheduler {
  import opened Lifecycle

  /** The null pointer; a record is named by its pid. */
  const NULL := -1

  /** The list from a head along the links, in order. */
  ghost predicate Linked(head: int, links: map<nat, int>, q: seq<nat>) {
    && head == At(q, 0)
    && (forall i :: 0 <= i < |q| ==> q[i] in links)
    && forall i {:trigger LinkAt(links, q, i)} :: 0 <= i < |q| ==> LinkAt(links, q, i)
  }

  /** What a link to place i of a list holds. */
  function At(q: seq<nat>, i: nat): int
  {
    if i < |q| then q[i] else NULL
  }

  predicate LinkAt(links: map<nat, int>, q: seq<nat>, i: nat)
    requires i < |q| && q[i] in links
  {
    links[q[i]] == At(q, i + 1)
  }

  function Last(q: seq<nat>): int
  {
    if q == [] then NULL else q[|q| - 1]
  }

  predicate Differ(q: seq<nat>, i: nat, j: nat)
    requires i < |q| && j < |q|
  {
    q[i] != q[j]
  }

  predicate Distinct(q: seq<nat>) {
    forall i, j {:trigger Differ(q, i, j)} :: 0 <= i < j < |q| ==> Differ(q, i, j)
  }

  /** A link changed behind a list leaves the list. */
  lemma LinksFrame(head: int, links: map<nat, int>, q: seq<nat>, x: nat, y: int)
    requires Linked(head, links, q) && x !in q
    ensures Linked(head, links[x := y], q)
  {
    var changed := links[x := y];
    forall i | 0 <= i < |q|
      ensures LinkAt(changed, q, i)
    {
      assert LinkAt(links, q, i);
    }
  }

  function Splice(q: seq<nat>, k: nat, x: nat): seq<nat>
    requires k <= |q|
  {
    q[..k] + [x] + q[k..]
  }

  function Cut(q: seq<nat>, k: nat): seq<nat>
    requires k < |q|
  {
    q[..k] + q[k + 1..]
  }

  /** The two links that put a record behind the first k. */
  lemma LinkIn(head: int, links: map<nat, int>, q: seq<nat>, k: nat, x: nat)
    requires Linked(head, links, q) && Distinct(q) && x !in q && k <= |q|
    ensures Distinct(Splice(q, k, x)) && Last(Splice(q, k, x)) == if k == |q| then x else Last(q)
    ensures if k == 0 then Linked(x, links[x := head], Splice(q, k, x))
            else Linked(head, links[x := At(q, k)][q[k - 1] := x], Splice(q, k, x))
  {
    var r := Splice(q, k, x);
    var linked := if k == 0 then links[x := head] else links[x := At(q, k)][q[k - 1] := x];
    forall i | 0 <= i < |r|
      ensures r[i] in linked && LinkAt(linked, r, i)
    {
      if i != k {
        var j := if i < k then i else i - 1;
        assert LinkAt(links, q, j);
        assert i < k - 1 ==> Differ(q, j, k - 1);
        assert k > 0 && j > k - 1 ==> Differ(q, k - 1, j);
      }
    }
    forall i, j | 0 <= i < j < |r|
      ensures Differ(r, i, j)
    {
      if i != k && j != k {
        assert Differ(q, if i < k then i else i - 1, if j < k then j else j - 1);
      }
    }
  }

  /** The one link that takes the record at place k out. */
  lemma LinkOut(head: int, links: map<nat, int>, q: seq<nat>, k: nat)
    requires Linked(head, links, q) && Distinct(q) && k < |q|
    ensures Distinct(Cut(q, k)) && q[k] !in Cut(q, k)
    ensures Last(Cut(q, k)) == if k == |q| - 1 then (if k == 0 then NULL else q[k - 1]) else Last(q)
    ensures if k == 0 then Linked(links[q[0]], links, Cut(q, k))
            else Linked(head, links[q[k - 1] := links[q[k]]], Cut(q, k))
  {
    var r := Cut(q, k);
    var linked := if k == 0 then links else links[q[k - 1] := links[q[k]]];
    assert LinkAt(links, q, k);
    forall i | 0 <= i < |r|
      ensures r[i] in linked && LinkAt(linked, r, i) && r[i] != q[k]
    {
      var j := if i < k then i else i + 1;
      assert LinkAt(links, q, j);
      assert i < k ==> Differ(q, i, k);
      assert j > k ==> Differ(q, k, j);
      assert k > 0 && j > k - 1 ==> Differ(q, k - 1, j);
      assert k > 0 && j < k - 1 ==> Differ(q, j, k - 1);
    }
    forall i, j | 0 <= i < j < |r|
      ensures Differ(r, i, j)
    {
      assert Differ(q, if i < k then i else i + 1, if j < k then j else j + 1);
    }
  }

  lemma PlaceIs(q: seq<nat>, infos: map<nat, Info>, priority: nat, k: nat)
    requires Known(q, infos) && k <= |q|
    requires forall i :: 0 <= i < k ==> infos[q[i]].priority <= priority
    requires k < |q| ==> infos[q[k]].priority > priority
    ensures Place(q, infos, priority) == k
  {
  }

  /** A state does not change where a task goes. */
  lemma InsertSame(q: seq<nat>, infos: map<nat, Info>, infos': map<nat, Info>, x: nat)
    requires Known(q, infos) && x in infos && x in infos'
    requires forall p :: p in infos ==> p in infos' && infos'[p].priority == infos[p].priority
    ensures Insert(q, infos', x) == Insert(q, infos, x)
  {
    PlaceIs(q, infos', infos[x].priority, Place(q, infos, infos[x].priority));
  }

  lemma {:induction false} WithoutIs(q: seq<nat>, pid: nat, k: nat)
    requires k < |q| && q[k] == pid && pid !in q[..k]
    ensures Without(q, pid) == Cut(q, k)
  {
    if k > 0 {
      assert q[0] != pid by { assert q[0] == q[..k][0]; }
      assert q[..k][1..] == q[1..][..k - 1];
      WithoutIs(q[1..], pid, k - 1);
    }
  }

  /** A task of the list is a child the wait asks for. */
  ghost predicate Met(s: Sys, order: seq<nat>, child: int)
  {
    exists p :: p in order && Matches(s, p, child)
  }

  lemma ScanNext(s: Sys, order: seq<nat>, k: nat, child: int)
    requires k < |order|
    ensures Met(s, order[..k + 1], child) <==> Met(s, order[..k], child) || Matches(s, order[k], child)
    ensures Met(s, order[..k + 1], -1) <==> Met(s, order[..k], -1) || Matches(s, order[k], -1)
    ensures FirstExited(order[k..], s, child) ==
              if Matches(s, order[k], child) && s.tasks[order[k]].state == TERMINATED then order[k]
              else FirstExited(order[k + 1..], s, child)
  {
    assert order[..k + 1] == order[..k] + [order[k]];
    assert order[k..][1..] == order[k + 1..];
  }

  class Kernel {
    var readyQueue: int
    var readyQueueTail: int
    var taskListHead: int
    var current: nat
    var nextPid: nat
    var enabled: bool
    /** The records: what is not a link, and the two links. */
    var tasks: map<nat, Info>
    var next: map<nat, int>
    var allNext: map<nat, int>
    ghost var order: seq<nat>
    ghost var ready: seq<nat>

    ghost predicate QueueValid()
      reads this`readyQueue, this`readyQueueTail, this`next, this`ready
    {
      Linked(readyQueue, next, ready) && Distinct(ready) && readyQueueTail == Last(ready)
    }

    ghost predicate ListValid()
      reads this`taskListHead, this`allNext, this`order
    {
      Linked(taskListHead, allNext, order) && Distinct(order)
    }

    ghost predicate RecordsValid()
      reads this`tasks, this`order, this`ready, this`current, this`nextPid
    {
      && Known(ready, tasks) && (forall p :: p in order <==> p in tasks)
      && current in tasks && forall p :: p in tasks ==> p < nextPid
    }

    ghost predicate Valid()
      reads this
    {
      QueueValid() && ListValid() && RecordsValid()
    }

    ghost function View(): Sys
      reads this
    {
      Sys(tasks, order, ready, current, nextPid, enabled)
    }

    /** task_init, and the scheduler once enabled. */
    constructor ()
      ensures Valid()
      ensures View() == Sys(map[0 := Info(0, RUNNING, false, 0, false, IDLE_PRIORITY, true, true, true)], [0], [], 0, 1, true)
    {
      readyQueue, readyQueueTail, taskListHead, current, nextPid, enabled := NULL, NULL, 0, 0, 1, true;
      tasks := map[0 := Info(0, RUNNING, false, 0, false, IDLE_PRIORITY, true, true, true)];
      next, allNext := map[0 := NULL], map[0 := NULL];
      order, ready := [0], [];
    }

    /** The walk over everything at least as urgent. */
    method FindPlace(priority: nat) returns (prev: int, cur: int, ghost k: nat)
      requires Valid()
      ensures k == Place(ready, tasks, priority)
      ensures cur == At(ready, k) && prev == if k == 0 then NULL else ready[k - 1]
    {
      cur, prev, k := readyQueue, NULL, 0;
      while cur != NULL && tasks[cur].priority <= priority
        invariant k <= |ready|
        invariant cur == At(ready, k) && prev == if k == 0 then NULL else ready[k - 1]
        invariant forall i :: 0 <= i < k ==> tasks[ready[i]].priority <= priority
        decreases |ready| - k
      {
        assert LinkAt(next, ready, k);
        prev := cur;
        cur := next[cur];
        k := k + 1;
      }
      PlaceIs(ready, tasks, priority, k);
    }

    /** The links that put a task behind the first k. */
    method LinkBefore(task: nat, prev: int, cur: int, ghost k: nat)
      requires Valid() && task in tasks && task !in ready && k <= |ready|
      requires ready != [] && cur == At(ready, k) && prev == if k == 0 then NULL else ready[k - 1]
      modifies this`readyQueue, this`readyQueueTail, this`ready, this`next
      ensures Valid() && ready == Splice(old(ready), k, task)
    {
      LinkIn(readyQueue, next, ready, k, task);
      if prev == NULL {
        next := next[task := readyQueue];
        readyQueue := task;
      } else {
        next := next[task := cur];
        next := next[prev := task];
        if cur == NULL { readyQueueTail := task; }
      }
      ready := Splice(ready, k, task);
    }

    /** The insertion proper. */
    method Enqueue(task: nat)
      requires Valid() && task in tasks && task !in ready
      modifies this`readyQueue, this`readyQueueTail, this`ready, this`next
      ensures Valid() && ready == Insert(old(ready), tasks, task)
    {
      LinksFrame(readyQueue, next, ready, task, NULL);
      next := next[task := NULL];
      if readyQueue == NULL {
        readyQueue, readyQueueTail := task, task;
        ready := [task];
        assert LinkAt(next, ready, 0);
        return;
      }
      var prev, cur, k := FindPlace(tasks[task].priority);
      LinkBefore(task, prev, cur, k);
    }

    /** scheduler_add_task */
    method AddTask(task: nat)
      requires Valid() && task in tasks && task !in ready
      modifies this`readyQueue, this`readyQueueTail, this`ready, this`tasks, this`next
      ensures Valid() && View() == Add(old(View()), task)
    {
      if !tasks[task].stack { return; }
      if tasks[task].state == RUNNING { return; }
      tasks := tasks[task := tasks[task].(state := READY)];
      InsertSame(ready, old(tasks), tasks, task);
      Enqueue(task);
      AddIs(old(View()), View(), task);
    }

    /** scheduler_remove_task */
    method RemoveTask(task: nat)
      requires Valid()
      modifies this`readyQueue, this`readyQueueTail, this`ready, this`next
      ensures Valid() && ready == Without(old(ready), task)
    {
      if readyQueue == NULL { return; }
      var prev, cur := NULL, readyQueue;
      ghost var k: nat := 0;
      while cur != NULL && cur != task
        invariant k <= |ready| && cur == At(ready, k) && prev == if k == 0 then NULL else ready[k - 1]
        invariant task !in ready[..k]
        decreases |ready| - k
      {
        assert LinkAt(next, ready, k);
        prev := cur;
        cur := next[cur];
        k := k + 1;
      }
      if cur == task {
        Unlink(prev, cur, k);
      } else {
        assert ready[..k] == ready;
      }
    }

    method Unlink(prev: int, cur: int, ghost k: nat)
      requires Valid() && k < |ready| && cur == ready[k] && prev == (if k == 0 then NULL else ready[k - 1])
      requires cur !in ready[..k]
      modifies this`readyQueue, this`readyQueueTail, this`ready, this`next
      ensures Valid() && ready == Without(old(ready), cur) == Cut(old(ready), k)
      ensures cur !in ready
    {
      LinkOut(readyQueue, next, ready, k);
      WithoutIs(ready, cur, k);
      if prev != NULL {
        next := next[prev := next[cur]];
      } else {
        readyQueue := next[cur];
      }
      if readyQueueTail == cur { readyQueueTail := prev; }
      ready := Cut(ready, k);
    }

    /** The head of the queue, taken off and marked running. */
    method TakeHead() returns (head: nat)
      requires Valid() && ready != []
      modifies this`readyQueue, this`readyQueueTail, this`ready, this`next, this`tasks
      ensures Valid() && head == old(ready)[0] && head !in ready && ready == old(ready)[1..]
      ensures tasks == old(tasks)[head := old(tasks)[head].(state := RUNNING)]
    {
      head := readyQueue;
      LinkOut(readyQueue, next, ready, 0);
      readyQueue := next[head];
      if readyQueue == NULL { readyQueueTail := NULL; }
      ready := Cut(ready, 0);
      LinksFrame(readyQueue, next, ready, head, NULL);
      next := next[head := NULL];
      tasks := tasks[head := tasks[head].(state := RUNNING)];
    }

    /** schedule_from_irq */
    method ScheduleFromIrq(fromUser: bool)
      requires Valid() && (ready != [] ==> current !in ready[1..])
      modifies this
      ensures Valid() && View() == Tick(old(View()), fromUser)
    {
      if !enabled || readyQueue == NULL { return; }
      var prev := current;
      if !fromUser && prev != 0 && tasks[prev].state != TERMINATED && !tasks[prev].preemptOk { return; }
      var next := TakeHead();
      Dispatch(next);
    }

    /** What becomes of the task taken off the queue, and of the one before. */
    method Dispatch(next: nat)
      requires Valid() && next in tasks && next !in ready && current !in ready
      modifies this
      ensures Valid()
      ensures var s := old(View());
              var prev := s.tasks[s.current];
              View() == if next == s.current || (!prev.kernel && prev.state != TERMINATED && s.tasks[next].idle)
                        then Add(s, next)
                        else if prev.state == RUNNING
                        then Add(Set(s.(current := next), s.current, READY), s.current)
                        else s.(current := next)
    {
      var prev := current;
      if next == prev {
        AddTask(next);
        return;
      }
      if !tasks[prev].kernel && tasks[prev].state != TERMINATED && tasks[next].idle {
        AddTask(next);
        return;
      }
      current := next;
      if tasks[prev].state == RUNNING {
        Requeue(prev);
      }
    }

    method Requeue(task: nat)
      requires Valid() && task in tasks && task !in ready
      modifies this`readyQueue, this`readyQueueTail, this`ready, this`tasks, this`next
      ensures Valid() && View() == Add(Set(old(View()), task, READY), task)
    {
      tasks := tasks[task := tasks[task].(state := READY)];
      AddTask(task);
    }

    /** task_list_insert */
    method ListInsert(task: nat, info: Info)
      requires Valid() && task !in tasks && task < nextPid
      modifies this`taskListHead, this`allNext, this`order, this`tasks
      ensures Valid() && tasks == old(tasks)[task := info] && order == [task] + old(order)
    {
      LinkIn(taskListHead, allNext, order, 0, task);
      allNext := allNext[task := taskListHead];
      taskListHead := task;
      assert Splice(order, 0, task) == [task] + order;
      order := [task] + order;
      tasks := tasks[task := info];
    }

    /** The record of a new task, entered in the task list. */
    method NewRecord(user: bool) returns (pid: nat)
      requires Valid()
      modifies this`nextPid, this`taskListHead, this`allNext, this`order, this`tasks
      ensures Valid() && pid == old(nextPid) && nextPid == pid + 1 && pid in tasks && pid !in ready
      ensures tasks == old(tasks)[pid := NewTask(old(View()), user)] && order == [pid] + old(order)
    {
      pid := nextPid;
      nextPid := nextPid + 1;
      ListInsert(pid, Info(current, READY, user && current != 0, 0, false,
                           if user then USER_PRIORITY else KERNEL_PRIORITY, !user, false, true));
    }

    /** The end of task_create and task_create_user. */
    method CreateTask(user: bool)
      requires Valid()
      modifies this
      ensures Valid() && View() == Create(old(View()), user)
    {
      if !user && nextPid >= PID_LIMIT { return; }
      var pid := NewRecord(user);
      ghost var listed := View();
      AddTask(pid);
      CreateIs(old(View()), listed, View(), user);
    }

    /** task_detach_children_locked */
    method DetachChildren(parent: nat)
      requires Valid()
      modifies this`tasks
      ensures Valid() && tasks == Detached(old(tasks), parent)
    {
      var it := taskListHead;
      ghost var k: nat := 0;
      while it != NULL
        invariant k <= |order| && it == At(order, k)
        invariant tasks.Keys == old(tasks).Keys
        invariant forall p :: p in tasks ==>
                    tasks[p] == if p in order[..k] then Detached(old(tasks), parent)[p] else old(tasks)[p]
        decreases |order| - k
      {
        assert LinkAt(allNext, order, k);
        assert it !in order[..k] by { NotBefore(order, k); }
        if tasks[it].parent == parent {
          tasks := tasks[it := tasks[it].(parent := 0, reapBlocked := false)];
        }
        assert order[..k + 1] == order[..k] + [it];
        it := allNext[it];
        k := k + 1;
      }
      assert order[..k] == order;
    }

    /** task_exit, up to the endless wait for the next tick. */
    method ExitTask(code: int)
      requires Valid()
      modifies this
      ensures Valid() && View() == Exit(old(View()), code)
    {
      DetachChildren(current);
      var me := tasks[current];
      tasks := tasks[current := me.(exitCode := code, reapBlocked := me.parent != 0, state := TERMINATED)];
      RemoveTask(current);
    }

    /** The scan of task_reap_terminated. */
    method FindVictim() returns (victim: int)
      requires Valid()
      ensures victim == NULL ==> forall p :: p in tasks ==> !Victim(View(), p)
      ensures victim != NULL ==> victim >= 0 && victim in tasks && Victim(View(), victim)
    {
      victim := taskListHead;
      ghost var k: nat := 0;
      while victim != NULL
        invariant k <= |order| && victim == At(order, k)
        invariant forall p :: p in order[..k] ==> !Victim(View(), p)
        decreases |order| - k
      {
        assert LinkAt(allNext, order, k);
        if victim != current && tasks[victim].state == TERMINATED && !tasks[victim].reapBlocked { return; }
        assert order[..k + 1] == order[..k] + [victim];
        victim := allNext[victim];
        k := k + 1;
      }
      assert order[..k] == order;
    }

    /** The walk to a record of the task list. */
    method FindRecord(task: nat) returns (prev: int, it: int, ghost k: nat)
      requires Valid() && task in tasks
      ensures k < |order| && it == order[k] == task && prev == (if k == 0 then NULL else order[k - 1])
      ensures task !in order[..k]
    {
      prev, it, k := NULL, taskListHead, 0;
      while it != task
        invariant k < |order| && it == order[k] && prev == if k == 0 then NULL else order[k - 1]
        invariant task !in order[..k]
        decreases |order| - k
      {
        assert LinkAt(allNext, order, k);
        assert order[..k + 1] == order[..k] + [it];
        assert k == |order| - 1 ==> order[..k + 1] == order;
        prev := it;
        it := allNext[it];
        k := k + 1;
      }
    }

    /** task_list_remove and the release of the record. */
    method ListRemove(task: nat)
      requires Valid() && task in tasks && task != current && task !in ready
      modifies this`taskListHead, this`allNext, this`order, this`tasks
      ensures Valid() && task !in tasks
      ensures tasks == old(tasks) - {task} && order == Without(old(order), task)
    {
      var prev, it, k := FindRecord(task);
      OthersStay(order, k);
      WithoutIs(order, task, k);
      Unlist(prev, it, k);
      tasks := tasks - {task};
    }

    method Unlist(prev: int, it: int, ghost k: nat)
      requires ListValid() && k < |order| && it == order[k] && prev == (if k == 0 then NULL else order[k - 1])
      modifies this`taskListHead, this`allNext, this`order
      ensures ListValid() && order == Cut(old(order), k)
    {
      LinkOut(taskListHead, allNext, order, k);
      if prev != NULL {
        allNext := allNext[prev := allNext[it]];
      } else {
        taskListHead := allNext[it];
      }
      order := Cut(order, k);
      LinksFrame(taskListHead, allNext, order, it, NULL);
      allNext := allNext[it := NULL];
    }

    method ReapVictim(victim: nat)
      requires Valid() && Victim(View(), victim) && forall p :: p in ready ==> tasks[p].state == READY
      modifies this`taskListHead, this`allNext, this`order, this`tasks
      ensures Valid() && (forall p :: p in ready ==> tasks[p].state == READY)
      ensures Reap(View()) == Reap(old(View())) && |tasks| < |old(tasks)|
    {
      ListRemove(victim);
      ReapOne(old(View()), View(), victim);
    }

    /** task_reap_terminated: it ends with no victim left. */
    method ReapTerminated()
      requires Valid() && forall p :: p in ready ==> tasks[p].state == READY
      modifies this`taskListHead, this`allNext, this`order, this`tasks
      ensures Valid() && View() == Reap(old(View()))
    {
      while true
        invariant Valid() && forall p :: p in ready ==> tasks[p].state == READY
        invariant Reap(View()) == Reap(old(View()))
        decreases |tasks|
      {
        var victim := FindVictim();
        if victim == NULL {
          ReapNone(View());
          return;
        }
        ReapVictim(victim);
      }
    }

    /** The scan of task_wait_pid. */
    method FindChild(child: int) returns (hasChild: bool, targetExists: bool, exited: int)
      requires Valid() && child != 0 && child >= -1
      ensures exited == FirstExited(order, View(), child)
      ensures exited == NULL ==> (targetExists <==> Met(View(), order, child)) && (hasChild <==> Met(View(), order, -1))
    {
      hasChild, targetExists, exited := false, false, NULL;
      var it := taskListHead;
      ghost var k: nat, s := 0, View();
      while it != NULL
        invariant k <= |order| && it == At(order, k) && exited == NULL
        invariant FirstExited(order, s, child) == FirstExited(order[k..], s, child)
        invariant (targetExists <==> Met(s, order[..k], child)) && (hasChild <==> Met(s, order[..k], -1))
        decreases |order| - k
      {
        assert LinkAt(allNext, order, k);
        ScanNext(s, order, k, child);
        if tasks[it].parent == current {
          hasChild := true;
          if child == -1 || it == child {
            targetExists := true;
            if tasks[it].state == TERMINATED {
              exited := it;
              return;
            }
          }
        }
        it := allNext[it];
        k := k + 1;
      }
      assert order[..k] == order;
    }

    /** One look of task_wait_pid at the task list. */
    method WaitLook(child: int) returns (out: Outcome)
      requires Valid() && forall p :: p in ready ==> tasks[p].state == READY
      modifies this
      ensures Valid() && (View(), out) == Wait(old(View()), child)
    {
      if current == 0 { return Refused; }
      if child == 0 || child < -1 { return Refused; }
      var hasChild, targetExists, exited := FindChild(child);
      if exited != NULL {
        var code := tasks[exited].exitCode;
        Release(exited);
        return Exited(exited, code);
      }
      if !hasChild || (child != -1 && !targetExists) { return Refused; }
      return Again;
    }

    method Release(child: nat)
      requires Valid() && child in tasks && tasks[child].state == TERMINATED
      requires forall p :: p in ready ==> tasks[p].state == READY
      modifies this
      ensures Valid() && View() == Reap(old(View()).(tasks := old(tasks)[child := old(tasks)[child].(reapBlocked := false)]))
    {
      tasks := tasks[child := tasks[child].(reapBlocked := false)];
      ReapTerminated();
    }

    /** A spawned task whose terminal could not be attached. */
    method CancelTask(task: nat)
      requires Valid() && task in tasks && forall p :: p in ready ==> tasks[p].state == READY
      modifies this
      ensures Valid() && View() == Cancel(old(View()), task)
    {
      Withdraw(task);
      ReapTerminated();
    }

    method Withdraw(task: nat)
      requires Valid() && task in tasks && forall p :: p in ready ==> tasks[p].state == READY
      modifies this`readyQueue, this`readyQueueTail, this`ready, this`next, this`tasks
      ensures Valid() && forall p :: p in ready ==> tasks[p].state == READY
      ensures tasks == old(tasks)[task := old(tasks)[task].(state := TERMINATED, reapBlocked := false, parent := 0)]
      ensures ready == Without(old(ready), task)
    {
      tasks := tasks[task := tasks[task].(state := TERMINATED, reapBlocked := false, parent := 0)];
      WithoutGone(ready, task);
      RemoveTask(task);
    }
  }

  lemma {:induction false} WithoutGone(q: seq<nat>, x: nat)
    requires Distinct(q)
    ensures x !in Without(q, x)
  {
    if q != [] {
      forall p | p in q[1..]
        ensures p != q[0]
      {
        var i :| 0 <= i < |q[1..]| && q[1..][i] == p;
        assert Differ(q, 0, i + 1);
      }
      forall i, j | 0 <= i < j < |q[1..]|
        ensures Differ(q[1..], i, j)
      {
        assert Differ(q, i + 1, j + 1);
      }
      WithoutGone(q[1..], x);
    }
  }

  lemma AddIs(s: Sys, t: Sys, pid: nat)
    requires pid in s.tasks && Known(s.ready, s.tasks) && s.tasks[pid].stack && s.tasks[pid].state != RUNNING
    requires t.tasks == s.tasks[pid := s.tasks[pid].(state := READY)] && t.ready == Insert(s.ready, s.tasks, pid)
    requires t.order == s.order && t.current == s.current && t.nextPid == s.nextPid && t.enabled == s.enabled
    ensures t == Add(s, pid)
  {
  }

  lemma CreateIs(s: Sys, listed: Sys, t: Sys, user: bool)
    requires Known(s.ready, s.tasks) && (user || s.nextPid < PID_LIMIT)
    requires listed.tasks == s.tasks[s.nextPid := NewTask(s, user)] && listed.order == [s.nextPid] + s.order
    requires listed.nextPid == s.nextPid + 1 && listed.ready == s.ready
    requires listed.current == s.current && listed.enabled == s.enabled
    requires t == Add(listed, s.nextPid)
    ensures t == Create(s, user)
  {
  }

  lemma ReapNone(s: Sys)
    requires Known(s.order, s.tasks) && forall p :: p in s.tasks ==> !Victim(s, p)
    ensures Reap(s) == s
  {
    assert Reap(s).tasks == s.tasks;
    KeepAll(s.order, s.tasks);
  }

  lemma NotBefore(q: seq<nat>, k: nat)
    requires Distinct(q) && k < |q|
    ensures q[k] !in q[..k]
  {
    forall i | 0 <= i < k
      ensures q[i] != q[k]
    {
      assert Differ(q, i, k);
    }
  }

  lemma OthersStay(q: seq<nat>, k: nat)
    requires Distinct(q) && k < |q|
    ensures forall p :: p in Cut(q, k) <==> p in q && p != q[k]
  {
    forall p | p in q && p != q[k]
      ensures p in Cut(q, k)
    {
      var i :| 0 <= i < |q| && q[i] == p;
      assert Cut(q, k)[if i < k then i else i - 1] == p;
    }
    forall p | p in Cut(q, k)
      ensures p in q && p != q[k]
    {
      var i :| 0 <= i < |Cut(q, k)| && Cut(q, k)[i] == p;
      assert p == q[if i < k then i else i + 1];
      assert i < k ==> Differ(q, i, k);
      assert i >= k ==> Differ(q, k, i + 1);
    }
  }

  lemma {:induction false} KeepAll(order: seq<nat>, infos: map<nat, Info>)
    requires Known(order, infos)
    ensures Keep(order, infos) == order
  {
    if order != [] {
      assert forall i :: 0 <= i < |order[1..]| ==> order[1..][i] == order[i + 1];
      KeepAll(order[1..], infos);
    }
  }

  lemma {:induction false} KeepWithout(order: seq<nat>, infos: map<nat, Info>, p: nat)
    requires p !in infos
    ensures Keep(Without(order, p), infos) == Keep(order, infos)
  {
    if order != [] && order[0] != p {
      KeepWithout(order[1..], infos, p);
      assert ([order[0]] + Without(order[1..], p))[1..] == Without(order[1..], p);
    }
  }

  /** Taking one victim first changes nothing of what is taken in the end. */
  lemma ReapOne(s: Sys, t: Sys, p: nat)
    requires Victim(s, p) && t == s.(tasks := s.tasks - {p}, order := Without(s.order, p))
    ensures Reap(t) == Reap(s) && |t.tasks| < |s.tasks|
  {
    assert t.tasks.Keys == s.tasks.Keys - {p};
    assert forall q :: q != p ==> (Victim(t, q) <==> Victim(s, q));
    assert Reap(t).tasks == Reap(s).tasks;
    KeepWithout(s.order, Reap(s).tasks, p);
  }
}
