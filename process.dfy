/**
 * The argument handling of the process-control syscalls (os/src/syscall/process.rs).
 *
 * The page table, the loader, the clock and user-pointer translation are outside
 * this model: their results are parameters, and a write through a user pointer is
 * returned as an "out" value.
 */
module ProcessSyscalls {
  import opened Wrappers
  import opened MachineInts
  import opened SeqOps

  const PAGE_SIZE: nat := 4096
  const MICROS_PER_SEC: nat := 1_000_000
  const MICROS_PER_MILLI: nat := 1_000
  /** Number of general-purpose registers in a trap context. */
  const TRAP_REGS: nat := 32

  datatype ProcStatus = Ready | Running | Zombie

  // ---------------------------------------------------------------------------
  // mmap / munmap

  datatype Perm = R | W | X | U

  /** The test of `sys_mmap` on `port`: no bit above bit 2, and one of bits 0-2 set. */
  predicate PortValid(port: bv64)
  {
    !((port & !7) != 0 || (port & 7) == 0)
  }

  /** Valid permission arguments are exactly 1..7. */
  lemma PortValidRange(port: bv64)
    ensures PortValid(port) <==> 1 <= port <= 7
  {
  }

  /** The permission number whose bits 0, 1 and 2 stand for R, W and X. */
  function PortOf(p: set<Perm>): (port: bv64)
    ensures port <= 7
  {
    (if R in p then 1 else 0) | (if W in p then 2 else 0) | (if X in p then 4 else 0)
  }

  /** The `MapPermission` built by `sys_mmap` from `port`. */
  function PermissionOf(port: bv64): (p: set<Perm>)
    ensures U in p
    ensures p <= {R, W, X, U}
    ensures PortValid(port) ==> PortOf(p) == port
    ensures PortValid(port) ==> p * {R, W, X} != {}
  {
    {U} + (if port & 0x1 == 1 then {R} else {})
        + (if (port >> 1) & 0x1 == 1 then {W} else {})
        + (if (port >> 2) & 0x1 == 1 then {X} else {})
  }

  /** `((len - 1) / 4096 + 1) * 4096`. */
  function PageRoundUp(len: nat): (r: nat)
    requires len > 0
    ensures r % PAGE_SIZE == 0
    ensures len <= r < len + PAGE_SIZE
  {
    ((len - 1) / PAGE_SIZE + 1) * PAGE_SIZE
  }

  /** The rounded length is the least whole number of pages that holds `len` bytes. */
  lemma PageRoundUpIsLeast(len: nat, m: nat)
    requires len > 0 && m % PAGE_SIZE == 0 && len <= m
    ensures PageRoundUp(len) <= m
  {
    var r := PageRoundUp(len);
    var a := m / PAGE_SIZE;
    var b := r / PAGE_SIZE;
    assert m == a * PAGE_SIZE;
    assert r == b * PAGE_SIZE;
    assert b * PAGE_SIZE < (a + 1) * PAGE_SIZE;
  }

  /** The call `sys_mmap` makes to the region layer: start, INCLUSIVE end and permission. */
  datatype MapRequest = MapRequest(start: nat, endIncl: nat, perm: set<Perm>)

  /**
   * The validation of `sys_mmap`; None where it returns -1 before any mapping.
   * The permission test comes first, so a zero length is rounded only after a
   * valid permission has been seen.
   */
  function MmapRequest(start: nat, len: nat, port: bv64): (q: Option<MapRequest>)
    requires PortValid(port) ==> len > 0
    ensures q.Some? <==> PortValid(port) && start % PAGE_SIZE == 0
    ensures q.Some? ==> q.value.start == start && q.value.perm == PermissionOf(port)
    ensures q.Some? ==> var size := q.value.endIncl + 1 - start;
                        size % PAGE_SIZE == 0 && len <= size < len + PAGE_SIZE
  {
    if (port & !0x7) != 0 || (port & 0x7) == 0 then None
    else
      var len := PageRoundUp(len);
      if start % PAGE_SIZE != 0 then None
      else Some(MapRequest(start, start + len - 1, PermissionOf(port)))
  }

  /**
   * `sys_mmap(start, len, port)`. `mapped` is the outcome of the region layer's
   * `memory_map` when it is called.
   */
  function SysMmap(start: nat, len: nat, port: bv64, mapped: bool): (r: isize)
    requires PortValid(port) ==> len > 0
    ensures r == 0 || r == -1
    ensures r == 0 <==> 1 <= port <= 7 && start % PAGE_SIZE == 0 && mapped
  {
    match MmapRequest(start, len, port)
    case None => -1
    case Some(_) => if mapped then 0 else -1
  }

  /** The validation of `sys_munmap`: the page-aligned start and the inclusive end, or None for -1. */
  function MunmapRequest(start: nat, len: nat): (q: Option<(nat, nat)>)
    requires len > 0
    ensures q.Some? <==> start % PAGE_SIZE == 0
    ensures q.Some? ==> q.value.0 == start && var size := q.value.1 + 1 - start;
                        size % PAGE_SIZE == 0 && len <= size < len + PAGE_SIZE
  {
    var len := PageRoundUp(len);
    if start % PAGE_SIZE != 0 then None
    else Some((start, start + len - 1))
  }

  /** `sys_munmap(start, len)`. `unmapped` is the outcome of `memory_unmap` when it is called. */
  function SysMunmap(start: nat, len: nat, unmapped: bool): (r: isize)
    requires len > 0
    ensures r == 0 || r == -1
    ensures r == 0 <==> start % PAGE_SIZE == 0 && unmapped
  {
    match MunmapRequest(start, len)
    case None => -1
    case Some(_) => if unmapped then 0 else -1
  }

  /** mmap and munmap of the same arguments address the same pages. */
  lemma MmapMunmapSameRegion(start: nat, len: nat, port: bv64)
    requires len > 0 && PortValid(port)
    ensures MmapRequest(start, len, port).Some? <==> MunmapRequest(start, len).Some?
    ensures MmapRequest(start, len, port).Some? ==>
              MmapRequest(start, len, port).value.endIncl == MunmapRequest(start, len).value.1
  {
  }

  // ---------------------------------------------------------------------------
  // get_time / task_info

  datatype TimeVal = TimeVal(sec: nat, usec: nat)

  /** The `TimeVal` that `sys_get_time` writes for a clock reading of `us` microseconds. */
  function SplitTime(us: nat): (tv: TimeVal)
    ensures tv.usec < MICROS_PER_SEC
    ensures tv.sec * MICROS_PER_SEC + tv.usec == us
  {
    TimeVal(us / MICROS_PER_SEC, us % MICROS_PER_SEC)
  }

  /** A time value with microseconds below one second is the split of exactly one reading. */
  lemma SplitTimeUnique(us: nat, tv: TimeVal)
    requires tv.usec < MICROS_PER_SEC && tv.sec * MICROS_PER_SEC + tv.usec == us
    ensures SplitTime(us) == tv
  {
    var s := SplitTime(us);
    assert (s.sec - tv.sec) * MICROS_PER_SEC == tv.usec - s.usec;
  }

  datatype TaskInfo = TaskInfo(status: ProcStatus, syscallTimes: seq<u32>, time: nat)

  /** The microseconds `sys_task_info` measures: the stored value for a Zombie, else now minus start. */
  function ElapsedMicros(status: ProcStatus, stored: nat, now: nat): (us: nat)
    requires status != Zombie ==> stored <= now
    ensures status == Zombie ==> us == stored
    ensures status != Zombie ==> stored + us == now
  {
    match status
    case Zombie => stored
    case _ => now - stored
  }

  /**
   * The `TaskInfo` that `sys_task_info` writes. `stored` is the task's recorded
   * time and `now` the clock reading, which does not run backwards.
   */
  function TaskInfoOf(status: ProcStatus, syscallTimes: seq<u32>, stored: nat, now: nat): (info: TaskInfo)
    requires status != Zombie ==> stored <= now
    ensures info.status == status && info.syscallTimes == syscallTimes
    ensures info.time * MICROS_PER_MILLI <= ElapsedMicros(status, stored, now) < (info.time + 1) * MICROS_PER_MILLI
  {
    TaskInfo(status, syscallTimes, ElapsedMicros(status, stored, now) / MICROS_PER_MILLI)
  }

  /** A live task's reported time never decreases as the clock advances; a Zombie's is frozen. */
  lemma TaskInfoTimeMonotone(status: ProcStatus, times: seq<u32>, stored: nat, now1: nat, now2: nat)
    requires status != Zombie ==> stored <= now1
    requires now1 <= now2
    ensures TaskInfoOf(status, times, stored, now1).time <= TaskInfoOf(status, times, stored, now2).time
    ensures status == Zombie ==> TaskInfoOf(status, times, stored, now1) == TaskInfoOf(status, times, stored, now2)
  {
  }

  // ---------------------------------------------------------------------------
  // Return-value mapping of sbrk, exec, spawn, fork

  /** `sys_sbrk`: the previous break as `isize`, or -1 when the break cannot move. */
  function SysSbrk(oldBrk: Option<usize>): (r: isize)
    ensures oldBrk.None? ==> r == -1
    ensures oldBrk.Some? ==> IsizeAsUsize(r) == oldBrk.value
    ensures oldBrk.Some? && oldBrk.value < ISIZE_LIMIT ==> r == oldBrk.value
  {
    match oldBrk
    case Some(b) => UsizeAsIsize(b)
    case None => -1
  }

  /** `sys_exec`: 0 when the loader finds the program, -1 otherwise. */
  function SysExec(appData: Option<seq<bv8>>): (r: isize)
    ensures r == 0 <==> appData.Some?
    ensures r == -1 <==> appData.None?
  {
    if appData.Some? then 0 else -1
  }

  /** `sys_spawn`: the new child's pid when the loader finds the program, -1 otherwise. */
  function SysSpawn(appData: Option<seq<bv8>>, newPid: usize): (r: isize)
    ensures appData.None? ==> r == -1
    ensures appData.Some? ==> IsizeAsUsize(r) == newPid
    ensures appData.Some? && newPid < ISIZE_LIMIT ==> r == newPid
  {
    match appData
    case Some(_) => UsizeAsIsize(newPid)
    case None => -1
  }

  /** What `sys_fork` returns to the parent and the child's trap-frame registers. */
  datatype ForkResult = ForkResult(parentRet: isize, childRegs: seq<usize>)

  /** `sys_fork`: the parent gets the child's pid, the child's a0 (x10) is set to 0. */
  function SysFork(newPid: usize, childRegs: seq<usize>): (f: ForkResult)
    requires |childRegs| == TRAP_REGS
    ensures IsizeAsUsize(f.parentRet) == newPid
    ensures |f.childRegs| == TRAP_REGS && f.childRegs[10] == 0
    ensures forall i :: 0 <= i < TRAP_REGS && i != 10 ==> f.childRegs[i] == childRegs[i]
  {
    ForkResult(UsizeAsIsize(newPid), childRegs[10 := 0])
  }

  // ---------------------------------------------------------------------------
  // waitpid

  /** A child as `sys_waitpid` sees it. */
  datatype Child = Child(pid: usize, status: ProcStatus, exitCode: i32)

  /** `pid == -1 || pid as usize == p.getpid()`. */
  predicate Matches(pid: isize, c: Child)
  {
    pid == -1 || IsizeAsUsize(pid) == c.pid
  }

  /** `children.iter().any(...)`. */
  function AnyMatch(children: seq<Child>, pid: isize): (b: bool)
    ensures b <==> exists i :: 0 <= i < |children| && Matches(pid, children[i])
  {
    if children == [] then false
    else Matches(pid, children[0]) || AnyMatch(children[1..], pid)
  }

  predicate Reapable(pid: isize, c: Child)
  {
    c.status == Zombie && Matches(pid, c)
  }

  /** `children.iter().enumerate().find(...)` from position i on. */
  function FirstZombieFrom(children: seq<Child>, pid: isize, i: nat): (r: Option<nat>)
    requires i <= |children|
    decreases |children| - i
    ensures r.Some? ==> i <= r.value < |children| && Reapable(pid, children[r.value])
    ensures r.Some? ==> forall j :: i <= j < r.value ==> !Reapable(pid, children[j])
    ensures r.None? ==> forall j :: i <= j < |children| ==> !Reapable(pid, children[j])
  {
    if i == |children| then None
    else if Reapable(pid, children[i]) then Some(i)
    else FirstZombieFrom(children, pid, i + 1)
  }

  /** The position of the first matching Zombie child, in list order. */
  function FirstZombie(children: seq<Child>, pid: isize): (r: Option<nat>)
    ensures r.Some? ==> r.value < |children| && Reapable(pid, children[r.value])
    ensures r.Some? ==> forall j :: 0 <= j < r.value ==> !Reapable(pid, children[j])
    ensures r.None? <==> forall j :: 0 <= j < |children| ==> !Reapable(pid, children[j])
  {
    FirstZombieFrom(children, pid, 0)
  }

  predicate UniquePids(children: seq<Child>)
  {
    forall i, j :: 0 <= i < |children| && 0 <= j < |children| && i != j ==> children[i].pid != children[j].pid
  }

  /**
   * With distinct pids, once waitpid(pid) has reaped the child `pid`, no child
   * matches `pid` any more: the next waitpid(pid) returns -1.
   */
  lemma ReapedChildNoLongerMatches(children: seq<Child>, pid: isize)
    requires UniquePids(children) && pid != -1
    requires FirstZombie(children, pid).Some?
    ensures !AnyMatch(RemoveAt(children, FirstZombie(children, pid).value), pid)
  {
    var k := FirstZombie(children, pid).value;
    var rest := RemoveAt(children, k);
    forall i | 0 <= i < |rest| ensures !Matches(pid, rest[i]) {
      var i' := if i < k then i else i + 1;
      assert rest[i] == children[i'] && i' != k;
    }
  }

  /** A list with a matching Zombie child always has a matching child, so -1 and a reap exclude each other. */
  lemma ReapableImpliesMatch(children: seq<Child>, pid: isize)
    ensures FirstZombie(children, pid).Some? ==> AnyMatch(children, pid)
  {
  }

  /** The calling task's control block, for the syscalls that change it. */
  class TaskControlBlockInner {
    var children: seq<Child>
    var priority: nat

    constructor (children: seq<Child>, priority: nat)
      ensures this.children == children && this.priority == priority
    {
      this.children := children;
      this.priority := priority;
    }

    /**
     * `sys_waitpid(pid, exit_code_ptr)`. The write through `exit_code_ptr` is
     * returned as `exitCodeOut`.
     */
    method Waitpid(pid: isize) returns (r: isize, exitCodeOut: Option<i32>)
      modifies this
      ensures !AnyMatch(old(children), pid) ==>
                r == -1 && exitCodeOut == None && children == old(children)
      ensures AnyMatch(old(children), pid) && FirstZombie(old(children), pid).None? ==>
                r == -2 && exitCodeOut == None && children == old(children)
      ensures FirstZombie(old(children), pid).Some? ==>
                var k := FirstZombie(old(children), pid).value;
                children == RemoveAt(old(children), k) &&
                r == UsizeAsIsize(old(children)[k].pid) &&
                exitCodeOut == Some(old(children)[k].exitCode)
      ensures priority == old(priority)
    {
      ReapableImpliesMatch(children, pid);
      if !AnyMatch(children, pid) {
        return -1, None;
      }
      var pair := FirstZombie(children, pid);
      if pair.Some? {
        var idx := pair.value;
        var child := children[idx];
        children := RemoveAt(children, idx);
        var foundPid := child.pid;
        var exitCode := child.exitCode;
        r, exitCodeOut := UsizeAsIsize(foundPid), Some(exitCode);
      } else {
        r, exitCodeOut := -2, None;
      }
    }

    /** `sys_set_priority(prio)`: values below 2 are refused with -1 and change nothing. */
    method SetPriority(prio: isize) returns (r: isize)
      modifies this
      ensures prio < 2 ==> r == -1 && priority == old(priority)
      ensures prio >= 2 ==> r == prio && priority == prio
      ensures old(priority) >= 2 ==> priority >= 2
      ensures children == old(children)
    {
      if prio < 2 {
        r := -1;
      } else {
        priority := prio as nat;
        r := prio;
      }
    }
  }
}
