/** The doubly linked task list of src/process/Task.c: TASK_FRONT_, TASK_TAIL_ and
    CURRENT_TASK_, with the links of struct Task. */
module TaskList {
  import opened Machine

  class Task {
    var next: Task?
    var prev: Task?

    constructor ()
      ensures next == null && prev == null
    {
      next, prev := null, null;
    }
  }

  /** s without its element k. */
  function Without<T>(s: seq<T>, k: nat): seq<T>
    requires k < |s|
  {
    s[..k] + s[k + 1..]
  }

  // ------------------------------------------------------------ round robin

  /** The index run_next_task moves to on a list of k tasks. */
  function NextIndex(i: nat, k: nat): (r: nat)
    requires i < k
    ensures r < k
  {
    if i + 1 < k then i + 1 else 0
  }

  /** The tasks that n calls of run_next_task run, from current index i on. */
  function Runs<T>(tasks: seq<T>, i: nat, n: nat): (ran: seq<T>)
    requires i < |tasks|
    ensures |ran| == n
    decreases n
  {
    if n == 0 then [] else [tasks[NextIndex(i, |tasks|)]] + Runs(tasks, NextIndex(i, |tasks|), n - 1)
  }

  /** The index that is current after n calls. */
  function Advance(i: nat, n: nat, k: nat): (r: nat)
    requires i < k
    ensures r < k
    decreases n
  {
    if n == 0 then i else Advance(NextIndex(i, k), n - 1, k)
  }

  /** Within a round, call j runs the task j + 1 places after the current one. */
  lemma {:induction false} RunsAt<T>(tasks: seq<T>, i: nat, n: nat, j: nat)
    requires i < |tasks| && j < n && j < |tasks|
    ensures Runs(tasks, i, n)[j] == tasks[if i + 1 + j < |tasks| then i + 1 + j else i + 1 + j - |tasks|]
    decreases n
  {
    if j > 0 {
      RunsAt(tasks, NextIndex(i, |tasks|), n - 1, j - 1);
    }
  }

  lemma {:induction false} AdvanceAt(i: nat, n: nat, k: nat)
    requires i < k && n <= k
    ensures Advance(i, n, k) == if i + n < k then i + n else i + n - k
    decreases n
  {
    if n > 0 {
      AdvanceAt(NextIndex(i, k), n - 1, k);
    }
  }

  /** After any number of calls, as a formula. */
  lemma {:induction false} AdvanceIs(i: nat, n: nat, k: nat)
    requires i < k
    ensures Advance(i, n, k) == (i + n) % k
    decreases n
  {
    if n > 0 {
      AdvanceIs(NextIndex(i, k), n - 1, k);
      assert i + 1 == k ==> (i + n) % k == (n - 1) % k by {
        LessOneRound(n - 1, k);
      }
    }
  }

  lemma LessOneRound(n: nat, k: nat)
    requires k > 0
    ensures (n + k) % k == n % k
  {
    var q, r := n / k, n % k;
    assert n + k == (q + 1) * k + r;
    DivisionUnique(n + k, k, q + 1, r);
  }

  /** A round of k calls is the list rotated: every task runs exactly once, in list order
      from the one after the current, and the current one comes last. */
  lemma RoundIsRotation<T>(tasks: seq<T>, i: nat)
    requires i < |tasks|
    ensures Runs(tasks, i, |tasks|) == tasks[i + 1..] + tasks[..i + 1]
    ensures multiset(Runs(tasks, i, |tasks|)) == multiset(tasks)
    ensures Advance(i, |tasks|, |tasks|) == i
  {
    var k := |tasks|;
    var rotated := tasks[i + 1..] + tasks[..i + 1];
    forall j | 0 <= j < k ensures Runs(tasks, i, k)[j] == rotated[j] {
      RunsAt(tasks, i, k, j);
    }
    assert Runs(tasks, i, k) == rotated;
    assert tasks == tasks[..i + 1] + tasks[i + 1..];
    AdvanceAt(i, k, k);
  }

  lemma {:induction false} RunsSnoc<T>(tasks: seq<T>, i: nat, n: nat)
    requires i < |tasks|
    ensures Advance(i, n + 1, |tasks|) == NextIndex(Advance(i, n, |tasks|), |tasks|)
    ensures Runs(tasks, i, n + 1) == Runs(tasks, i, n) + [tasks[Advance(i, n + 1, |tasks|)]]
    decreases n
  {
    if n > 0 {
      RunsSnoc(tasks, NextIndex(i, |tasks|), n - 1);
    }
  }

  lemma RunsNone<T>(tasks: seq<T>, i: nat)
    requires i < |tasks|
    ensures Runs(tasks, i, 0) == [] && Advance(i, 0, |tasks|) == i
  {
  }

  /** Calls after n calls go on from where those stopped; so round follows round. */
  lemma {:induction false} RunsSplit<T>(tasks: seq<T>, i: nat, n: nat, m: nat)
    requires i < |tasks|
    ensures Runs(tasks, i, n + m) == Runs(tasks, i, n) + Runs(tasks, Advance(i, n, |tasks|), m)
    decreases n
  {
    if n > 0 {
      RunsSplit(tasks, NextIndex(i, |tasks|), n - 1, m);
    }
  }

  // ------------------------------------------------------------- the list

  /** The neighbours of task k. */
  ghost function Next(tasks: seq<Task>, k: nat): Task?
    requires k < |tasks|
  {
    if k + 1 < |tasks| then tasks[k + 1] else null
  }

  ghost function Prev(tasks: seq<Task>, k: nat): Task?
    requires k < |tasks|
  {
    if k == 0 then null else tasks[k - 1]
  }

  ghost predicate Distinct(tasks: seq<Task>) {
    forall i, j | 0 <= i < j < |tasks| :: tasks[i] != tasks[j]
  }

  /** The forward order from front is tasks, and current is one of them. */
  ghost predicate IsChained(front: Task?, current: Task?, tasks: seq<Task>)
    reads tasks`next
  {
    && Distinct(tasks)
    && (forall i | 0 <= i < |tasks| :: tasks[i].next == Next(tasks, i))
    && if tasks == [] then front == null && current == null
       else front == tasks[0] && current != null && current in tasks
  }

  ghost predicate IsTail(tail: Task?, tasks: seq<Task>) {
    tail == if tasks == [] then null else tasks[|tasks| - 1]
  }

  /** The forward order is tasks, and tail is its last element. */
  ghost predicate IsOrdered(front: Task?, tail: Task?, current: Task?, tasks: seq<Task>)
    reads tasks`next
  {
    IsChained(front, current, tasks) && IsTail(tail, tasks)
  }

  /** prev mirrors next. */
  ghost predicate IsMirrored(tasks: seq<Task>)
    reads tasks`prev
  {
    forall i | 0 <= i < |tasks| :: tasks[i].prev == Prev(tasks, i)
  }

  lemma ChainedAt(front: Task?, current: Task?, tasks: seq<Task>, k: nat)
    requires IsChained(front, current, tasks) && k < |tasks|
    ensures front == tasks[0] && current != null && current in tasks
    ensures forall i | 0 <= i < |tasks| :: tasks[i].next == Next(tasks, i)
    ensures forall i | 0 <= i < |tasks| :: i != k ==> tasks[i] != tasks[k]
  {
  }

  lemma LinksOf(front: Task?, current: Task?, tasks: seq<Task>)
    requires IsChained(front, current, tasks) && tasks != []
    ensures Distinct(tasks) && front == tasks[0] && current != null && current in tasks
    ensures forall i | 0 <= i < |tasks| :: tasks[i].next == Next(tasks, i)
    ensures IsMirrored(tasks) ==> forall i | 0 <= i < |tasks| :: tasks[i].prev == Prev(tasks, i)
  {
  }

  /** Appending behind end: the new task is found exactly if end was the last one. */
  lemma AppendedIff(was: seq<Task>, task: Task, end: Task, front: Task?, current: Task?, mirrored: bool)
    requires was != [] && task !in was && Distinct(was) && front == was[0] && current != null && current in was
    requires forall i | 0 <= i < |was| :: was[i].next == if was[i] == end then task else Next(was, i)
    requires (end != task ==> task.next == null) && task.prev == end
    requires mirrored ==> forall i | 0 <= i < |was| :: was[i].prev == Prev(was, i)
    ensures IsOrdered(front, task, current, was + [task]) <==> IsTail(end, was)
    ensures mirrored && IsTail(end, was) ==> IsMirrored(was + [task])
  {
    var all, last := was + [task], |was| - 1;
    if IsTail(end, was) {
      forall i | 0 <= i < |all| ensures all[i].next == Next(all, i) && (mirrored ==> all[i].prev == Prev(all, i)) {
        assert i < |was| ==> all[i] == was[i];
      }
    } else {
      assert all[last] == was[last] && Next(all, last) == task;
    }
  }

  lemma WithoutAt<T>(s: seq<T>, k: nat)
    requires k < |s|
    ensures |Without(s, k)| == |s| - 1
    ensures forall j | 0 <= j < |s| - 1 :: Without(s, k)[j] == s[if j < k then j else j + 1]
    ensures forall i | 0 <= i < |s| && i != k :: s[i] == Without(s, k)[if i < k then i else i - 1]
  {
  }

  lemma RemovedChain(was: seq<Task>, k: nat)
    requires k < |was|
    requires forall i | 0 <= i < |was| :: i != k - 1 && i != k ==> was[i].next == Next(was, i)
    requires k > 0 ==> was[k - 1].next == Next(was, k)
    ensures forall j | 0 <= j < |was| - 1 :: Without(was, k)[j].next == Next(Without(was, k), j)
  {
  }

  lemma RemovedDistinct(was: seq<Task>, k: nat)
    requires k < |was| && Distinct(was)
    ensures Distinct(Without(was, k)) && was[k] !in Without(was, k)
    ensures forall t | t in was && t != was[k] :: t in Without(was, k)
  {
  }

  /** Once task k's predecessor, or front, points past it, the rest is in order. */
  lemma RemovedIsChained(was: seq<Task>, k: nat, front: Task?, current: Task?)
    requires k < |was| && Distinct(was)
    requires front == if k > 0 then was[0] else Next(was, k)
    requires if |was| == 1 then current == null else current != null && current in was && current != was[k]
    requires forall i | 0 <= i < |was| :: i != k - 1 && i != k ==> was[i].next == Next(was, i)
    requires k > 0 ==> was[k - 1].next == Next(was, k)
    ensures IsChained(front, current, Without(was, k))
  {
    hide Without, Distinct;
    RemovedChain(was, k);
    RemovedDistinct(was, k);
    RemovedEnds(was, k);
    hide Next, Prev;
  }

  lemma RemovedEnds(was: seq<Task>, k: nat)
    requires k < |was|
    ensures |Without(was, k)| == |was| - 1
    ensures |was| > 1 ==> Without(was, k)[0] == if k > 0 then was[0] else was[1]
    ensures |was| > 1 ==> Without(was, k)[|was| - 2] == if k + 1 < |was| then was[|was| - 1] else was[k - 1]
    ensures Next(was, k) == (if k + 1 < |was| then was[k + 1] else null)
    ensures Prev(was, k) == (if k == 0 then null else was[k - 1])
  {
  }

  /** When remove_task_from_list of task k, whose prev is given, leaves the forward order
      without just this task: behind the front prev must be accurate; at the front it may
      be anything but a later task. */
  ghost predicate Unlinks(tasks: seq<Task>, k: nat, prev: Task?)
    requires k < |tasks|
  {
    if k > 0 then prev == tasks[k - 1] else prev == null || prev !in tasks[1..]
  }

  /** The next fields after the write to prev.next. */
  ghost predicate Bypassed(tasks: seq<Task>, k: nat, prev: Task?)
    requires k < |tasks|
    reads tasks`next
  {
    forall i | 0 <= i < |tasks| :: tasks[i].next == if prev == tasks[i] then Next(tasks, k) else Next(tasks, i)
  }

  /** Where current and front are after the removal of task k. */
  ghost predicate MovedOff(tasks: seq<Task>, k: nat, front: Task?, was: Task?, current: Task?)
    requires k < |tasks|
  {
    && front == (if k > 0 then tasks[0] else Next(tasks, k))
    && current == if was != tasks[k] then was else if k + 1 < |tasks| then tasks[k + 1] else front
  }

  lemma UnlinksIff(tasks: seq<Task>, k: nat, prev: Task?, front: Task?, was: Task?, current: Task?)
    requires k < |tasks| && Distinct(tasks) && was in tasks && Bypassed(tasks, k, prev)
    requires MovedOff(tasks, k, front, was, current)
    ensures IsChained(front, current, Without(tasks, k)) <==> Unlinks(tasks, k, prev)
    ensures k > 0 && !Unlinks(tasks, k, prev) ==> tasks[k - 1].next == tasks[k]
  {
    if Unlinks(tasks, k, prev) {
      NotBypassed(tasks, k, prev);
      MovedCurrent(tasks, k, front, was, current);
      RemovedIsChained(tasks, k, front, current);
    } else {
      WithoutAt(tasks, k);
      var rest := Without(tasks, k);
      if k > 0 {
        assert rest[k - 1] == tasks[k - 1] && tasks[k - 1].next == tasks[k] && Next(rest, k - 1) != tasks[k];
      } else {
        var j :| 1 <= j < |tasks| && tasks[j] == prev;
        assert rest[j - 1] == tasks[j] && tasks[j].next == tasks[1] && Next(rest, j - 1) != tasks[1];
      }
    }
  }

  lemma NotBypassed(tasks: seq<Task>, k: nat, prev: Task?)
    requires k < |tasks| && Distinct(tasks) && Bypassed(tasks, k, prev) && Unlinks(tasks, k, prev)
    ensures forall i | 0 <= i < |tasks| :: i != k - 1 && i != k ==> tasks[i].next == Next(tasks, i)
    ensures k > 0 ==> tasks[k - 1].next == Next(tasks, k)
  {
    forall i | 0 <= i < |tasks| && i != k - 1 && i != k ensures prev != tasks[i] {
      assert k == 0 ==> tasks[i] == tasks[1..][i - 1];
    }
  }

  lemma MovedCurrent(tasks: seq<Task>, k: nat, front: Task?, was: Task?, current: Task?)
    requires k < |tasks| && Distinct(tasks) && was in tasks && MovedOff(tasks, k, front, was, current)
    ensures if |tasks| == 1 then current == null else current != null && current in tasks && current != tasks[k]
  {
  }

  ghost function Only(t: Task?): set<Task> {
    if t == null then {} else {t}
  }

  class Scheduler {
    var front: Task?
    var tail: Task?
    var current: Task?
    ghost var tasks: seq<Task>

    constructor ()
      ensures tasks == [] && Linked()
    {
      front, tail, current, tasks := null, null, null, [];
    }

    ghost predicate Ordered()
      reads this, tasks`next
    {
      IsOrdered(front, tail, current, tasks)
    }

    ghost predicate Chained()
      reads this, tasks`next
    {
      IsChained(front, current, tasks)
    }

    /** The full invariant. */
    ghost predicate Linked()
      reads this, tasks
    {
      Ordered() && IsMirrored(tasks)
    }

    /** task_get_next. */
    method GetNext() returns (t: Task?)
      requires current != null
      ensures t == if current.next == null then front else current.next
      ensures Chained() ==> forall i | 0 <= i < |tasks| && current == tasks[i] :: t == tasks[NextIndex(i, |tasks|)]
    {
      assert Chained() ==> forall i | 0 <= i < |tasks| :: tasks[i].next == Next(tasks, i);
      if current.next == null {
        return front;
      }
      t := current.next;
    }

    /** The list part of run_next_task; with no task to run it panics. */
    method RunNext()
      requires current != null && (current.next != null || front != null)
      modifies this`current
      ensures current == if old(current).next == null then front else old(current).next
      ensures old(Chained()) ==> Chained()
      ensures old(Chained()) ==>
                forall i | 0 <= i < |tasks| && old(current) == tasks[i] :: current == tasks[NextIndex(i, |tasks|)]
    {
      var next := GetNext();
      assert Chained() ==> next == null || next in tasks;
      current := next;
    }

    /** n clock ticks: which tasks have run. */
    method Tick(n: nat, ghost i: nat) returns (ghost ran: seq<Task>)
      requires Chained() && i < |tasks| && current == tasks[i]
      modifies this`current
      ensures ran == Runs(tasks, i, n) && Chained() && current == tasks[Advance(i, n, |tasks|)]
      ensures n == |tasks| ==> current == old(current) && multiset(ran) == multiset(tasks)
    {
      hide IsChained, Runs, Advance, NextIndex;
      ran := [];
      var done := 0;
      RunsNone(tasks, i);
      while done < n
        invariant 0 <= done <= n && Chained()
        invariant ran == Runs(tasks, i, done) && current == tasks[Advance(i, done, |tasks|)]
      {
        RunsSnoc(tasks, i, done);
        ChainedAt(front, current, tasks, i);
        ghost var at := Advance(i, done, |tasks|);
        RunNext();
        assert current == tasks[NextIndex(at, |tasks|)];
        ran := ran + [current];
        done := done + 1;
      }
      if n == |tasks| {
        RoundIsRotation(tasks, i);
      }
    }

    /** The list part of task_new. Of a list in forward order only the tail decides whether
        the new task is found: an empty list takes any task, another one the tasks appended
        at its last element. */
    method Append(task: Task)
      requires Chained() && (tasks != [] ==> tail != null)
      requires task !in tasks && task.next == null && task.prev == null
      modifies this, if tasks == [] then {} else {tail}, task
      ensures old(tasks == []) ==> tasks == [task] && Linked() && current == task
      ensures old(tasks != []) ==>
                front == old(front) && current == old(current) && tail == task && task.prev == old(tail)
      ensures old(tasks != []) ==> (IsOrdered(front, tail, current, old(tasks) + [task]) <==> old(Ordered()))
      ensures old(Ordered()) ==> tasks == old(tasks) + [task] && Ordered()
      ensures old(Linked()) ==> Linked()
    {
      if front == null {
        front := task;
        tail := task;
        current := task;
        tasks := [task];
        return;
      }
      AppendBehindTail(task);
    }

    /** The second half of task_new. */
    method AppendBehindTail(task: Task)
      requires Chained() && tasks != [] && tail != null
      requires task !in tasks && task.next == null && task.prev == null
      modifies this, tail, task
      ensures front == old(front) && current == old(current) && tail == task && task.prev == old(tail)
      ensures IsOrdered(front, tail, current, old(tasks) + [task]) <==> old(IsTail(tail, tasks))
      ensures tasks == if old(IsTail(tail, tasks)) then old(tasks) + [task] else old(tasks)
      ensures old(IsTail(tail, tasks) && IsMirrored(tasks)) ==> IsMirrored(tasks)
    {
      ghost var was, end, mirrored := tasks, tail, IsMirrored(tasks);
      LinksOf(front, current, was);
      hide IsChained, IsMirrored, IsTail, Distinct, Next, Prev;
      tail.next := task;
      task.prev := tail;
      tail := task;
      tasks := if IsTail(end, was) then was + [task] else was;
      AppendedIff(was, task, end, front, current, mirrored);
    }

    /** The second half of remove_task_from_list: no global pointer stays on the task. */
    method MoveEnds(task: Task)
      requires task.next != task
      modifies this`front, this`tail, this`current
      ensures front == if task == old(front) then task.next else old(front)
      ensures tail == if task == old(tail) then task.prev else old(tail)
      ensures current == if task != old(current) then old(current) else if task.next == null then front else task.next
    {
      if task == front {
        front := task.next;
      }
      if task == tail {
        tail := task.prev;
      }
      if task == current {
        if current.next == null {
          current := front;
        } else {
          current := current.next;
        }
      }
    }

    /** remove_task_from_list of task k. The successor's prev is not written, so a prev may
        be stale: point at a task removed before, whose block may have become another task
        of the list. The forward order loses just this task if and only if Unlinks holds;
        behind the front the task stays reachable otherwise. */
    method Remove(task: Task, ghost k: nat, ghost was: seq<Task>, ghost prev: Task?)
      requires Chained() && k < |tasks| && task == tasks[k] && was == tasks && prev == task.prev
      modifies this`front, this`tail, this`current, this`tasks, Only(prev)`next
      ensures IsChained(front, current, Without(was, k)) <==> Unlinks(was, k, prev)
      ensures IsTail(old(tail), was) && Unlinks(was, k, prev) ==>
                (IsTail(tail, Without(was, k)) <==> (|was| == 1 ==> prev == null))
      ensures tasks == if Unlinks(was, k, prev) then Without(was, k) else was
      ensures Bypassed(was, k, prev) && MovedOff(was, k, front, old(current), current)
      ensures tail == if task == old(tail) then prev else old(tail)
      ensures k > 0 && !Unlinks(was, k, prev) ==> was[k - 1].next == task
    {
      ChainedAt(front, current, was, k);
      assert Distinct(was) && task.next == Next(was, k);
      hide IsChained, Distinct, Without, Unlinks;
      if task.prev != null {
        task.prev.next := task.next;
      }
      assert Bypassed(was, k, prev);
      FrontIsFirst(was, k);
      MoveEnds(task);
      tasks := if Unlinks(was, k, prev) then Without(was, k) else was;
      UnlinksIff(was, k, prev, front, old(current), current);
      TailAfter(was, k, prev, old(tail), tail);
    }

    /** A removal where prev is right keeps the order, tail included. */
    method RemoveUnlinked(task: Task, ghost k: nat, ghost was: seq<Task>)
      requires Ordered() && was == tasks && k < |was| && task == was[k]
      requires Unlinks(was, k, task.prev) && (k == 0 ==> task.prev == null)
      modifies this`front, this`tail, this`current, this`tasks, Only(task.prev)`next
      ensures Ordered() && tasks == Without(was, k)
    {
      hide IsChained, IsTail, Without, Unlinks, Bypassed, MovedOff;
      Remove(task, k, was, task.prev);
    }

    /** Removing one task from a fully linked list keeps the forward order; the full
        invariant survives exactly when the removed task was the tail. */
    method RemoveFromLinked(task: Task, ghost k: nat)
      requires Linked() && k < |tasks| && task == tasks[k]
      modifies this`front, this`tail, this`current, this`tasks, Only(task.prev)`next
      ensures Ordered() && tasks == Without(old(tasks), k)
      ensures Linked() <==> k == |old(tasks)| - 1
    {
      ghost var was := tasks;
      hide IsOrdered, IsMirrored, Distinct, Without, Unlinks;
      AccuratePrev(was, k);
      OrderedDistinct(front, tail, current, was);
      RemoveUnlinked(task, k, was);
      StaleMirror(was, k);
    }

    /** Two removals in a row: after task i of a fully linked list has gone, removing its old
        successor works if and only if i was the front; otherwise the successor stays
        reachable. With two tasks tail is left at the first one, which is gone. */
    method RemoveNeighbours(ghost i: nat, first: Task, second: Task, ghost was: seq<Task>)
      requires Linked() && was == tasks && i + 1 < |was| && first == was[i] && second == was[i + 1]
      modifies this`front, this`tail, this`current, this`tasks, first`next, Only(first.prev)`next
      ensures IsChained(front, current, Without(Without(was, i), i)) <==> i == 0
      ensures i == 0 ==> (IsTail(tail, Without(Without(was, i), i)) <==> |was| > 2)
      ensures i > 0 ==> was[i - 1].next == second
      ensures |was| == 2 ==> front == null && tail == first
    {
      hide IsOrdered, IsChained, IsTail, IsMirrored, Distinct, Without, Bypassed, Unlinks, Prev;
      OrderedDistinct(front, tail, current, was);
      NeighbourFacts(was, i);
      Remove(first, i, was, first.prev);
      assert second.prev == first && second == Without(was, i)[i];
      Remove(second, i, Without(was, i), first);
    }

    /** run_next_task, where only the task it moves to matters. */
    method MoveOn()
      requires current != null && (current.next != null || front != null)
      modifies this`current
      ensures current == if old(current).next == null then front else old(current).next
      ensures old(Ordered()) ==> Ordered()
    {
      RunNext();
    }

    /** Exit of the current task: task_free moves current on, and isr80h_command9_exit
        then calls run_next_task as well, so the successor's turn is skipped (unless the
        stale prev of the task is that successor, which then runs alone). */
    method ExitCurrent(ghost i: nat, ghost was: seq<Task>, ghost prev: Task?)
      requires Ordered() && i < |tasks| && current == tasks[i] && |tasks| >= 2
      requires was == tasks && prev == current.prev
      modifies this`front, this`tail, this`current, this`tasks, Only(prev)`next
      ensures Unlinks(was, i, prev) ==> Ordered() && tasks == Without(was, i)
      ensures var n := |was|;
              var next := NextIndex(i, n);
              && NextIndex(next, n) != next
              && current == was[if prev == was[next] || (n == 2 && i == 0) then next else NextIndex(next, n)]
    {
      assert Distinct(was) && was[i] == current;
      hide IsChained, IsTail, Distinct, Without, Unlinks, Bypassed, MovedOff, NextIndex, Next, Prev;
      Remove(current, i, was, prev);
      ExitAdvances(was, i, prev, front, current);
      MoveOn();
    }
  }

  lemma FrontIsFirst(was: seq<Task>, k: nat)
    requires k < |was| && Distinct(was)
    ensures was[0] == was[k] <==> k == 0
    ensures Next(was, k) == (if k + 1 < |was| then was[k + 1] else null) && Next(was, k) != was[k]
  {
  }

  lemma TailAfter(was: seq<Task>, k: nat, prev: Task?, before: Task?, after: Task?)
    requires k < |was| && Distinct(was) && after == if was[k] == before then prev else before
    ensures IsTail(before, was) && Unlinks(was, k, prev) ==>
              (IsTail(after, Without(was, k)) <==> (|was| == 1 ==> prev == null))
  {
    hide Without, Next, Prev;
    WithoutAt(was, k);
    var n := |was|;
    if n >= 2 {
      assert Without(was, k)[n - 2] == was[if k == n - 1 then n - 2 else n - 1];
    }
  }

  /** When the removal of task k from an ordered list leaves an ordered list without it. */
  lemma RemovalIff(tasks: seq<Task>, k: nat, prev: Task?, front: Task?, was: Task?, current: Task?,
                   before: Task?, after: Task?)
    requires k < |tasks| && Distinct(tasks) && was in tasks && Bypassed(tasks, k, prev)
    requires MovedOff(tasks, k, front, was, current)
    requires IsTail(before, tasks) && after == if tasks[k] == before then prev else before
    ensures IsOrdered(front, after, current, Without(tasks, k))
            <==> Unlinks(tasks, k, prev) && (|tasks| == 1 ==> prev == null)
  {
    hide IsChained, Bypassed, MovedOff, Without, IsTail, Unlinks;
    UnlinksIff(tasks, k, prev, front, was, current);
    TailAfter(tasks, k, prev, before, after);
  }

  lemma OrderedDistinct(front: Task?, tail: Task?, current: Task?, tasks: seq<Task>)
    requires IsOrdered(front, tail, current, tasks)
    ensures Distinct(tasks) && IsTail(tail, tasks) && IsChained(front, current, tasks)
    ensures tasks != [] ==> tail == tasks[|tasks| - 1]
  {
  }

  lemma AccuratePrev(was: seq<Task>, k: nat)
    requires k < |was| && IsMirrored(was)
    ensures Unlinks(was, k, was[k].prev) && (k == 0 ==> was[k].prev == null)
  {
  }

  /** After the removal of the current task i, the task that is current and the one that
      run_next_task goes on to. */
  lemma ExitAdvances(was: seq<Task>, i: nat, prev: Task?, front: Task?, current: Task?)
    requires i < |was| && |was| >= 2 && Distinct(was) && Bypassed(was, i, prev)
    requires MovedOff(was, i, front, was[i], current)
    ensures var n := |was|;
            var next := NextIndex(i, n);
            && NextIndex(next, n) != next && current == was[next] && front != null
            && (if current.next == null then front else current.next)
               == was[if prev == was[next] || (n == 2 && i == 0) then next else NextIndex(next, n)]
  {
    assert was[NextIndex(i, |was|)].next
      == if prev == was[NextIndex(i, |was|)] then Next(was, i) else Next(was, NextIndex(i, |was|));
  }

  lemma NeighbourFacts(was: seq<Task>, i: nat)
    requires i + 1 < |was| && Distinct(was) && IsMirrored(was)
    ensures was[i].prev == null || was[i].prev in was
    ensures was[i + 1].prev == was[i] && Unlinks(was, i, was[i].prev) && (|was| == 1 ==> was[i].prev == null)
    ensures var rest := Without(was, i);
            && |rest| == |was| - 1 && rest[i] == was[i + 1] && (i > 0 ==> rest[i - 1] == was[i - 1])
            && (Unlinks(rest, i, was[i]) <==> i == 0)
    ensures |was| == 2 ==> was == [was[0], was[1]] && Without(Without(was, 0), 0) == []
  {
    RemovedDistinct(was, i);
  }

  /** After task k has gone, its successor still points back at it. */
  lemma StaleMirror(was: seq<Task>, k: nat)
    requires k < |was| && Distinct(was) && IsMirrored(was)
    ensures IsMirrored(Without(was, k)) <==> k == |was| - 1
  {
    hide Without;
    WithoutAt(was, k);
    var rest := Without(was, k);
    if k < |was| - 1 {
      assert rest[k] == was[k + 1] && rest[k].prev == was[k];
      assert k > 0 ==> rest[k - 1] == was[k - 1];
    } else {
      forall j | 0 <= j < |rest| ensures rest[j].prev == Prev(rest, j) {
        assert rest[j] == was[j];
      }
    }
  }
}
