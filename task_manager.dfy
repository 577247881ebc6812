/**
 * The round-robin task table of the kernel (os/src/task/mod.rs): a fixed list of
 * task control blocks, the index of the running task, and the list of address
 * ranges handed out through `push` and given back through `pay_back`.
 *
 * The context switch that follows a scheduling decision is not modelled: each
 * scheduling method stops at the state update that precedes `__switch`.
 */
module TaskManagement {
  import opened Wrappers
  import opened MachineInts
  import opened SeqOps

  /** Size of each task's syscall counter array (MAX_SYSCALL_NUM of the kernel configuration). */
  const MAX_SYSCALL_NUM: nat := 500

  datatype TaskStatus = Ready | Running | Exited

  /** The fields of a task control block that the task manager reads or writes. */
  datatype TaskControlBlock = TaskControlBlock(status: TaskStatus, syscallTimes: seq<u32>, time: nat)

  predicate WellFormed(t: TaskControlBlock)
  {
    |t.syscallTimes| == MAX_SYSCALL_NUM
  }

  // ---------------------------------------------------------------------------
  // Next-task selection

  /** The task id visited at step k of the scan that starts after `current`. */
  function CyclicId(current: nat, k: nat, n: nat): (id: nat)
    requires n > 0
    ensures id < n
  {
    (current + k) % n
  }

  predicate ReadyAt(tasks: seq<TaskControlBlock>, current: nat, k: nat)
    requires |tasks| > 0
  {
    tasks[CyclicId(current, k, |tasks|)].status == Ready
  }

  /** The search over steps k, k+1, ..., n of the cyclic scan. */
  function ScanFrom(tasks: seq<TaskControlBlock>, current: nat, k: nat): (r: Option<nat>)
    requires 1 <= k
    decreases |tasks| + 1 - k
    ensures r.Some? ==> r.value < |tasks| && tasks[r.value].status == Ready
    ensures r.Some? ==> exists j :: k <= j <= |tasks| && r.value == CyclicId(current, j, |tasks|) &&
                                    forall i :: k <= i < j ==> !ReadyAt(tasks, current, i)
    ensures r.None? ==> forall i :: k <= i <= |tasks| ==> !ReadyAt(tasks, current, i)
  {
    if k > |tasks| then None
    else if ReadyAt(tasks, current, k) then Some(CyclicId(current, k, |tasks|))
    else ScanFrom(tasks, current, k + 1)
  }

  /**
   * `find_next_task`: the first Ready task among ids current+1, current+2, ...,
   * current+n taken modulo n, so that `current` itself is looked at last.
   */
  function FindNextTask(tasks: seq<TaskControlBlock>, current: nat): (r: Option<nat>)
    ensures r.Some? ==> r.value < |tasks| && tasks[r.value].status == Ready
    ensures r.Some? ==> exists k :: 1 <= k <= |tasks| && r.value == CyclicId(current, k, |tasks|) &&
                                    forall i :: 1 <= i < k ==> !ReadyAt(tasks, current, i)
  {
    ScanFrom(tasks, current, 1)
  }

  /** Euclidean remainder: x == q*n + r with 0 <= r < n determines x % n. */
  lemma ModOfMultiplePlus(x: int, q: int, r: int, n: int)
    requires n > 0 && 0 <= r < n && x == q * n + r
    ensures x % n == r
  {
    var d := q - x / n;
    assert d * n == x % n - r;
  }

  /** Every id is visited by some step 1..n of the scan. */
  lemma CyclicCover(current: nat, j: nat, n: nat) returns (k: nat)
    requires j < n
    ensures 1 <= k <= n && CyclicId(current, k, n) == j
  {
    var c := current % n;
    var q := current / n;
    k := if j > c then j - c else n - c + j;
    if j > c {
      ModOfMultiplePlus(current + k, q, j, n);
    } else {
      assert current + k == (q + 1) * n + j;
      ModOfMultiplePlus(current + k, q + 1, j, n);
    }
  }

  /** The scan reports no task exactly when no task at all is Ready. */
  lemma FindNextTaskNoneIffNoReady(tasks: seq<TaskControlBlock>, current: nat)
    ensures FindNextTask(tasks, current).None? <==> forall j :: 0 <= j < |tasks| ==> tasks[j].status != Ready
  {
    if FindNextTask(tasks, current).None? {
      forall j | 0 <= j < |tasks| ensures tasks[j].status != Ready {
        var k := CyclicCover(current, j, |tasks|);
        assert !ReadyAt(tasks, current, k);
      }
    }
  }

  /** Steps 1..n-1 never revisit the current task. */
  lemma CurrentOnlyAtLastStep(current: nat, k: nat, n: nat)
    requires current < n && 1 <= k < n
    ensures CyclicId(current, k, n) != current
  {
    if current + k < n {
      assert (current + k) % n == current + k;
    } else {
      assert current + k == n + (current + k - n);
      assert (current + k) % n == current + k - n;
    }
  }

  /** The current task is chosen again only when no other task is Ready. */
  lemma CurrentCheckedLast(tasks: seq<TaskControlBlock>, current: nat, other: nat)
    requires current < |tasks| && other < |tasks| && other != current
    requires tasks[other].status == Ready
    ensures FindNextTask(tasks, current) != Some(current)
  {
    var n := |tasks|;
    var r := FindNextTask(tasks, current);
    if r == Some(current) {
      var k :| 1 <= k <= n && current == CyclicId(current, k, n) &&
               forall i :: 1 <= i < k ==> !ReadyAt(tasks, current, i);
      if k < n {
        CurrentOnlyAtLastStep(current, k, n);
      } else {
        var k' := CyclicCover(current, other, n);
        ModOfMultiplePlus(current + n, 1, current, n);
        assert ReadyAt(tasks, current, k');
      }
    }
  }

  // ---------------------------------------------------------------------------
  // Address-range bookkeeping

  /** The test `push` applies to the new range [start, end) against one recorded range r. */
  predicate Separate(start: nat, end: nat, r: (nat, nat))
  {
    (start < r.0 && end <= r.0) || (start >= r.1 && end > r.1)
  }

  function Max(a: nat, b: nat): nat { if a < b then b else a }
  function Min(a: nat, b: nat): nat { if a < b then a else b }

  /** The half-open ranges [a.0, a.1) and [b.0, b.1) share an address. */
  predicate Intersect(a: (nat, nat), b: (nat, nat))
  {
    Max(a.0, b.0) < Min(a.1, b.1)
  }

  predicate PairwiseDisjoint(v: seq<(nat, nat)>)
  {
    forall i, j :: 0 <= i < |v| && 0 <= j < |v| && i != j ==> !Intersect(v[i], v[j])
  }

  /** The test of `push` never admits an intersecting range, and admits every disjoint non-empty one. */
  lemma SeparateIffDisjoint(start: nat, end: nat, r: (nat, nat))
    ensures Separate(start, end, r) ==> !Intersect((start, end), r) && !Intersect(r, (start, end))
    ensures start < end && r.0 < r.1 && !Intersect((start, end), r) ==> Separate(start, end, r)
  {
  }

  /** Appending a range that passed the test against every recorded range keeps them disjoint. */
  lemma AppendSeparateKeepsDisjoint(v: seq<(nat, nat)>, start: nat, end: nat)
    requires PairwiseDisjoint(v)
    requires forall k :: 0 <= k < |v| ==> Separate(start, end, v[k])
    ensures PairwiseDisjoint(v + [(start, end)])
  {
    var w := v + [(start, end)];
    forall i, j | 0 <= i < |w| && 0 <= j < |w| && i != j
      ensures !Intersect(w[i], w[j])
    {
      if i == |v| {
        SeparateIffDisjoint(start, end, v[j]);
      } else if j == |v| {
        SeparateIffDisjoint(start, end, v[i]);
      }
    }
  }

  /** Removing one entry keeps the remaining ranges disjoint. */
  lemma RemoveKeepsDisjoint(v: seq<(nat, nat)>, i: nat)
    requires i < |v| && PairwiseDisjoint(v)
    ensures PairwiseDisjoint(RemoveAt(v, i))
  {
    var w := RemoveAt(v, i);
    forall a, b | 0 <= a < |w| && 0 <= b < |w| && a != b
      ensures !Intersect(w[a], w[b])
    {
      var a' := if a < i then a else a + 1;
      var b' := if b < i then b else b + 1;
      assert w[a] == v[a'] && w[b] == v[b'];
    }
  }

  /**
   * What `pay_back(start, end)` does to the recorded list v, as the source's steps:
   * reverse, pop the last entry of the reversed copy (the FIRST recorded range),
   * on an exact match `remove(1)` from the reversed list, reverse back.
   * None stands for the panic of `remove(1)` on a one-entry list.
   */
  function PayBackOn(v: seq<(nat, nat)>, start: nat, end: nat): (r: Option<seq<(nat, nat)>>)
    ensures v == [] || v[0] != (start, end) ==> r == Some(v)
    ensures |v| == 1 && v[0] == (start, end) ==> r.None?
    ensures |v| >= 2 && v[0] == (start, end) ==> r == Some(RemoveAt(v, |v| - 2))
  {
    if v == [] then Some(v)
    else
      var rev := Reverse(v);
      var (beg, en) := rev[|rev| - 1];
      if beg >= start && en <= end && beg == start && en == end then
        if 1 < |rev| then
          var removed := RemoveAt(rev, 1);
          assert Reverse(removed) == RemoveAt(v, |v| - 2);
          Some(Reverse(removed))
        else None
      else
        ReverseInvolution(v);
        Some(Reverse(rev))
  }

  /**
   * With three or more ranges, an exact match on the first one keeps it recorded
   * and removes the second-to-last range instead.
   */
  lemma PayBackKeepsMatchedRange(v: seq<(nat, nat)>, start: nat, end: nat)
    requires |v| >= 3 && v[0] == (start, end)
    ensures PayBackOn(v, start, end).Some?
    ensures var w := PayBackOn(v, start, end).value;
            |w| == |v| - 1 && w[0] == (start, end) && w[|w| - 1] == v[|v| - 1] &&
            w[..|w| - 1] == v[..|v| - 2]
  {
    var w := PayBackOn(v, start, end).value;
    assert w == RemoveAt(v, |v| - 2);
    assert w[..|w| - 1] == v[..|v| - 2];
  }

  /** With exactly two ranges, an exact match on the first one removes that range. */
  lemma PayBackTwoRanges(v: seq<(nat, nat)>, start: nat, end: nat)
    requires |v| == 2 && v[0] == (start, end)
    ensures PayBackOn(v, start, end) == Some([v[1]])
  {
    assert RemoveAt(v, 0) == [v[1]];
  }

  /** An example: giving back the first of three ranges removes the middle one. */
  lemma PayBackRemovesWrongRange()
    ensures PayBackOn([(0, 10), (10, 20), (20, 30)], 0, 10) == Some([(0, 10), (20, 30)])
  {
    var v := [(0, 10), (10, 20), (20, 30)];
    assert RemoveAt(v, 1) == [(0, 10), (20, 30)];
  }

  /** `pay_back` never breaks the disjointness of the recorded ranges. */
  lemma PayBackKeepsDisjoint(v: seq<(nat, nat)>, start: nat, end: nat)
    requires PairwiseDisjoint(v)
    ensures PayBackOn(v, start, end).Some? ==> PairwiseDisjoint(PayBackOn(v, start, end).value)
  {
    var r := PayBackOn(v, start, end);
    if |v| >= 2 && v[0] == (start, end) {
      RemoveKeepsDisjoint(v, |v| - 2);
      assert r == Some(RemoveAt(v, |v| - 2));
    } else if v == [] || v[0] != (start, end) {
      assert r == Some(v);
    }
  }

  // ---------------------------------------------------------------------------
  // The task manager state

  class TaskManager {
    /** Total number of tasks. */
    const numApp: nat
    var tasks: seq<TaskControlBlock>
    /** Index of the task that runs (or ran last). */
    var currentTask: nat
    /** The recorded (start, end) ranges. */
    var vecForAlloc: seq<(nat, nat)>

    ghost predicate Valid()
      reads this
    {
      |tasks| == numApp && currentTask < numApp &&
      (forall i :: 0 <= i < |tasks| ==> WellFormed(tasks[i])) &&
      PairwiseDisjoint(vecForAlloc)
    }

    /** The current task is the one and only Running task. */
    ghost predicate RunningIsCurrent()
      reads this
    {
      forall i :: 0 <= i < |tasks| ==> (tasks[i].status == Running <==> i == currentTask)
    }

    ghost predicate NoneRunning()
      reads this
    {
      forall i :: 0 <= i < |tasks| ==> tasks[i].status != Running
    }

    /** The initial table: the loaded tasks, task 0 current, no recorded ranges. */
    constructor (initial: seq<TaskControlBlock>)
      requires |initial| > 0
      requires forall i :: 0 <= i < |initial| ==> WellFormed(initial[i])
      ensures Valid()
      ensures numApp == |initial| && tasks == initial && currentTask == 0 && vecForAlloc == []
    {
      numApp := |initial|;
      tasks := initial;
      currentTask := 0;
      vecForAlloc := [];
    }

    /** `run_first_task`, up to the switch: task 0 becomes Running. */
    method RunFirstTask()
      requires Valid()
      modifies this
      ensures Valid()
      ensures tasks == old(tasks)[0 := old(tasks)[0].(status := Running)]
      ensures currentTask == old(currentTask) && vecForAlloc == old(vecForAlloc)
      ensures old(currentTask) == 0 && old(NoneRunning()) ==> RunningIsCurrent()
    {
      tasks := tasks[0 := tasks[0].(status := Running)];
    }

    /** `mark_current_suspended`: only the current task's status changes, to Ready. */
    method MarkCurrentSuspended()
      requires Valid()
      modifies this
      ensures Valid()
      ensures tasks == old(tasks)[old(currentTask) := old(tasks)[old(currentTask)].(status := Ready)]
      ensures currentTask == old(currentTask) && vecForAlloc == old(vecForAlloc)
      ensures old(RunningIsCurrent()) ==> NoneRunning()
    {
      var cur := currentTask;
      tasks := tasks[cur := tasks[cur].(status := Ready)];
    }

    /** `mark_current_exited`: only the current task's status changes, to Exited. */
    method MarkCurrentExited()
      requires Valid()
      modifies this
      ensures Valid()
      ensures tasks == old(tasks)[old(currentTask) := old(tasks)[old(currentTask)].(status := Exited)]
      ensures currentTask == old(currentTask) && vecForAlloc == old(vecForAlloc)
      ensures old(RunningIsCurrent()) ==> NoneRunning()
    {
      var cur := currentTask;
      tasks := tasks[cur := tasks[cur].(status := Exited)];
    }

    /**
     * `run_next_task`, up to the switch. `switched` is false where the source
     * panics with "All applications completed!"; nothing has changed then.
     */
    method RunNextTask() returns (switched: bool)
      requires Valid()
      modifies this
      ensures Valid()
      ensures switched <==> FindNextTask(old(tasks), old(currentTask)).Some?
      ensures switched ==> var next := FindNextTask(old(tasks), old(currentTask)).value;
                           tasks == old(tasks)[next := old(tasks)[next].(status := Running)] &&
                           currentTask == next
      ensures !switched ==> tasks == old(tasks) && currentTask == old(currentTask)
      ensures vecForAlloc == old(vecForAlloc)
      ensures switched && old(NoneRunning()) ==> RunningIsCurrent()
    {
      var found := FindNextTask(tasks, currentTask);
      if found.Some? {
        var next := found.value;
        tasks := tasks[next := tasks[next].(status := Running)];
        currentTask := next;
        switched := true;
      } else {
        switched := false;
      }
    }

    /**
     * `suspend_current_and_run_next`: a suspension always finds a task to run,
     * since the suspended task is Ready itself, and keeps "the current task is
     * the only Running one".
     */
    method SuspendCurrentAndRunNext() returns (switched: bool)
      requires Valid()
      modifies this
      ensures Valid() && switched
      ensures var c := old(currentTask);
              var m := old(tasks)[c := old(tasks)[c].(status := Ready)];
              FindNextTask(m, c).Some? && currentTask == FindNextTask(m, c).value &&
              tasks == m[currentTask := m[currentTask].(status := Running)]
      ensures vecForAlloc == old(vecForAlloc)
      ensures old(RunningIsCurrent()) ==> RunningIsCurrent()
    {
      MarkCurrentSuspended();
      assert tasks[currentTask].status == Ready;
      FindNextTaskNoneIffNoReady(tasks, currentTask);
      switched := RunNextTask();
    }

    /**
     * `exit_current_and_run_next`: the halt happens exactly when no task is Ready
     * after the exit; otherwise the exited task stays Exited and another one runs.
     */
    method ExitCurrentAndRunNext() returns (switched: bool)
      requires Valid()
      modifies this
      ensures Valid()
      ensures vecForAlloc == old(vecForAlloc)
      ensures !switched <==> forall i :: 0 <= i < |old(tasks)| && i != old(currentTask) ==> old(tasks)[i].status != Ready
      ensures tasks[old(currentTask)].status == Exited
      ensures switched ==> currentTask != old(currentTask)
      ensures var c := old(currentTask);
              var m := old(tasks)[c := old(tasks)[c].(status := Exited)];
              if switched then
                FindNextTask(m, c).Some? && currentTask == FindNextTask(m, c).value &&
                tasks == m[currentTask := m[currentTask].(status := Running)]
              else
                FindNextTask(m, c).None? && tasks == m && currentTask == c
      ensures switched && old(RunningIsCurrent()) ==> RunningIsCurrent()
    {
      MarkCurrentExited();
      ghost var marked := tasks;
      assert forall i :: 0 <= i < |marked| ==>
        (marked[i].status == Ready <==> i != old(currentTask) && old(tasks)[i].status == Ready);
      FindNextTaskNoneIffNoReady(marked, currentTask);
      switched := RunNextTask();
    }

    /** `set_tcb_syscall_times`: one counter of the current task goes up by one. */
    method SetTcbSyscallTimes(syscallId: nat)
      requires Valid()
      requires syscallId < MAX_SYSCALL_NUM
      modifies this
      ensures Valid()
      ensures var cur := old(currentTask);
              var t := old(tasks)[cur];
              tasks == old(tasks)[cur := t.(syscallTimes := t.syscallTimes[syscallId := WrappingIncrement(t.syscallTimes[syscallId])])]
      ensures currentTask == old(currentTask) && vecForAlloc == old(vecForAlloc)
    {
      var cur := currentTask;
      var t := tasks[cur];
      tasks := tasks[cur := t.(syscallTimes := t.syscallTimes[syscallId := WrappingIncrement(t.syscallTimes[syscallId])])];
    }

    /** `get_current_task_state`. */
    method GetCurrentTaskState() returns (s: TaskStatus)
      requires Valid()
      ensures s == tasks[currentTask].status
    {
      s := tasks[currentTask].status;
    }

    /** `get_tcb_syscall_times`: a copy of the current task's counters. */
    method GetTcbSyscallTimes() returns (times: seq<u32>)
      requires Valid()
      ensures |times| == MAX_SYSCALL_NUM && times == tasks[currentTask].syscallTimes
    {
      times := tasks[currentTask].syscallTimes;
    }

    /** `get_init_time`: the stored time of task 0, whichever task is current. */
    method GetInitTime() returns (time: nat)
      requires Valid()
      ensures time == tasks[0].time
    {
      time := tasks[0].time;
    }

    /**
     * `push(start, end, _)`: scan a snapshot of the recorded ranges from the
     * last to the first; reject on the first failed test, else append.
     */
    method Push(start: nat, end: nat) returns (ok: bool)
      requires Valid()
      modifies this
      ensures Valid()
      ensures ok <==> forall k :: 0 <= k < |old(vecForAlloc)| ==> Separate(start, end, old(vecForAlloc)[k])
      ensures vecForAlloc == if ok then old(vecForAlloc) + [(start, end)] else old(vecForAlloc)
      ensures tasks == old(tasks) && currentTask == old(currentTask)
    {
      var cpVec := vecForAlloc;
      while |cpVec| > 0
        invariant cpVec == vecForAlloc[..|cpVec|]
        invariant forall k :: |cpVec| <= k < |vecForAlloc| ==> Separate(start, end, vecForAlloc[k])
      {
        var last := cpVec[|cpVec| - 1];
        cpVec := cpVec[..|cpVec| - 1];
        if !Separate(start, end, last) {
          return false;
        }
      }
      AppendSeparateKeepsDisjoint(vecForAlloc, start, end);
      vecForAlloc := vecForAlloc + [(start, end)];
      ok := true;
    }

    /**
     * `pay_back(start, end)` as written. The source's `while` returns at the end
     * of its first iteration, so it is an `if` here. `panicked` is true where
     * `remove(1)` panics.
     */
    method PayBack(start: nat, end: nat) returns (panicked: bool)
      requires Valid()
      modifies this
      ensures Valid()
      ensures panicked <==> PayBackOn(old(vecForAlloc), start, end).None?
      ensures !panicked ==> vecForAlloc == PayBackOn(old(vecForAlloc), start, end).value
      ensures panicked ==> vecForAlloc == old(vecForAlloc)
      ensures tasks == old(tasks) && currentTask == old(currentTask)
    {
      ghost var v := vecForAlloc;
      PayBackKeepsDisjoint(v, start, end);
      ReverseInvolution(v);
      var index: nat := 0;
      var cpVec := Reverse(vecForAlloc);
      vecForAlloc := Reverse(vecForAlloc);
      if |cpVec| > 0 {
        index := index + 1;
        var (beg, en) := cpVec[|cpVec| - 1];
        cpVec := cpVec[..|cpVec| - 1];
        if beg >= start && en <= end {
          if beg == start && en == end {
            if index >= |vecForAlloc| {
              return true;
            }
            vecForAlloc := RemoveAt(vecForAlloc, index);
          }
        }
        vecForAlloc := Reverse(vecForAlloc);
        return false;
      }
      panicked := false;
    }
  }
}
