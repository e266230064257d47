/** The process table of student-distrib/syscalls.c on values: PCB addresses, the machine state that
  * `execute`, `halt` and `schedule` update, and what each of the three does to it. */
module ProcessModel {
  import opened Basics
  import opened Bytes

  const MAX_PROCESS := 6
  const KERNEL_STACK_BASE := 0x80_0000
  const KERNEL_STACK_SIZE := 0x2000
  const USR_PROGRAM_PAGE_SIZE := 0x40_0000
  const PAGE := 0x1000
  const NO_PARENT := 0xFFFF_FFFF // -1 kept in the unsigned parent_pid

  // ----- addresses -----

  function GetPcb(processesRunning: int): int {
    KERNEL_STACK_BASE - processesRunning * KERNEL_STACK_SIZE
  }

  function GetPcbByPid(pid: int): int {
    KERNEL_STACK_BASE - (pid + 1) * KERNEL_STACK_SIZE
  }

  // Index, in the array of 8 KB slots growing down from KERNEL_STACK_BASE, of the slot whose lowest byte is `address`.
  function SlotOf(address: int): int {
    (KERNEL_STACK_BASE - address) / KERNEL_STACK_SIZE - 1
  }

  function Esp0(pid: int): int {
    KERNEL_STACK_BASE - KERNEL_STACK_SIZE * pid - 4
  }

  // Bits 31..12 of the page directory entry that execute_paging writes.
  function UserPage(pid: nat): nat {
    ((KERNEL_STACK_BASE + pid * USR_PROGRAM_PAGE_SIZE) / PAGE) % 0x10_0000
  }

  // A 4 MB page takes bits 31..22 of a physical address from its directory entry and the rest from the linear address.
  function Physical(entry: nat, linear: nat): nat {
    (entry * PAGE / USR_PROGRAM_PAGE_SIZE) * USR_PROGRAM_PAGE_SIZE + linear % USR_PROGRAM_PAGE_SIZE
  }

  // ----- state -----

  // A saved kernel stack: the esp and ebp stored by one of the asm blocks.
  datatype Stack = Stack(esp: nat, ebp: nat)

  datatype Ops = NoOps | StdinOps | StdoutOps | FileOps | DirOps | RtcOps
  datatype Fd = Fd(ops: Ops, inode: nat, position: nat, inUse: bool)

  datatype Pcb = Pcb(
    fds: seq<Fd>,
    currPid: nat,
    parentPid: nat,
    parent: Stack,       // parent_esp, parent_ebp
    schedule: Stack,     // schedule_esp, schedule_ebp
    scheduleEsp0: int,
    terminalId: nat)

  datatype Machine = Machine(
    procs: seq<nat>,     // process_array
    running: nat,        // processes_running
    pcbs: seq<Pcb>,      // the PCB at the bottom of each 8 KB slot
    active: seq<int>,    // active_task_pid of each terminal
    scheduled: nat,      // scheduled_tid
    esp0: int,           // tss.esp0
    userPage: nat,       // directory entry of the user page
    maxProc: bool)       // max_proc_flag

  // Where the processor continues after a step.
  datatype Resume =
    | Refused(code: int)                  // execute returns to its caller
    | Enter(pid: nat)                     // iret into a fresh program
    | Return(to: Stack, status: byte)     // the matching execute returns `status`
    | Switch(to: Stack)                   // a stopped terminal goes on

  const CLOSED_FD := Fd(NoOps, 0, 0, false)

  function InitialFds(): (fds: seq<Fd>)
    ensures |fds| == MAX_FILES
    ensures fds[0].inUse && fds[1].inUse && forall i :: 2 <= i < MAX_FILES ==> fds[i] == CLOSED_FD
  {
    [Fd(StdinOps, 0, 0, true), Fd(StdoutOps, 0, 0, true)] + seq(MAX_FILES - 2, i => CLOSED_FD)
  }

  function ClosedFds(): (fds: seq<Fd>)
    ensures |fds| == MAX_FILES && forall i :: 0 <= i < MAX_FILES ==> fds[i] == CLOSED_FD
  {
    seq(MAX_FILES, i => CLOSED_FD)
  }

  // The pid scan of execute.
  function FirstFree(procs: seq<nat>): (pid: nat)
    ensures pid <= |procs|
    ensures pid < |procs| ==> procs[pid] == 0
    ensures forall p :: 0 <= p < pid ==> procs[p] != 0
  {
    if procs == [] || procs[0] == 0 then 0 else 1 + FirstFree(procs[1..])
  }

  function Count(procs: seq<nat>): (n: nat)
    ensures n <= |procs|
  {
    if procs == [] then 0 else (if procs[0] != 0 then 1 else 0) + Count(procs[1..])
  }

  // The live pids are exactly 0..n-1 for some n.
  ghost predicate IsPrefix(procs: seq<nat>) {
    forall p, q :: 0 <= p < q < |procs| && procs[q] != 0 ==> procs[p] != 0
  }

  ghost predicate Shape(m: Machine) {
    && |m.procs| == |m.pcbs| == MAX_PROCESS
    && |m.active| == NUM_TERMINALS
    && m.scheduled < NUM_TERMINALS
    && (forall t :: 0 <= t < NUM_TERMINALS ==> -1 <= m.active[t] < MAX_PROCESS)
  }

  // A process that gets a pid also gets a PCB inside the six slots.
  ghost predicate SlotInRange(m: Machine) {
    FirstFree(m.procs) < |m.procs| ==> m.running < MAX_PROCESS
  }

  function Unsigned(x: int): int { if x < 0 then x + 0x1_0000_0000 else x }

  // ----- execute, halt, schedule -----

  function Launch(m: Machine, here: Stack): (n: Machine)
    requires Shape(m) && SlotInRange(m) && FirstFree(m.procs) < MAX_PROCESS
    ensures Shape(n)
  {
    var pid := FirstFree(m.procs);
    var slot := SlotOf(GetPcb(m.running + 1));
    var parent := if pid < 3 then NO_PARENT else Unsigned(m.active[m.scheduled]);
    m.(procs := m.procs[pid := 1],
       running := m.running + 1,
       userPage := UserPage(pid),
       pcbs := m.pcbs[slot := m.pcbs[slot].(fds := InitialFds(), currPid := pid, parentPid := parent,
                                            parent := here, terminalId := m.scheduled)],
       active := m.active[m.scheduled := pid],
       esp0 := Esp0(pid))
  }

  function ExecuteStep(m: Machine, loadable: bool, here: Stack): (r: (Machine, Resume))
    requires Shape(m) && SlotInRange(m)
    ensures Shape(r.0)
  {
    if !loadable then (m, Refused(-1))
    else if FirstFree(m.procs) == MAX_PROCESS then (m.(maxProc := true), Refused(0))
    else (Launch(m, here), Enter(FirstFree(m.procs)))
  }

  // What halt needs: the scheduled terminal's task has a PCB that names a pid, and its parent if it has one.
  ghost predicate CanHalt(m: Machine) {
    && Shape(m)
    && 0 <= m.active[m.scheduled]
    && 1 <= m.running <= MAX_PROCESS
    && m.pcbs[m.active[m.scheduled]].currPid < MAX_PROCESS
    && (m.pcbs[m.active[m.scheduled]].parentPid == NO_PARENT || m.pcbs[m.active[m.scheduled]].parentPid < MAX_PROCESS)
  }

  function Release(m: Machine): (n: Machine)
    requires CanHalt(m)
    ensures Shape(n)
  {
    var pid := m.active[m.scheduled];
    m.(running := m.running - 1,
       procs := m.procs[m.pcbs[pid].currPid := 0],
       pcbs := m.pcbs[pid := m.pcbs[pid].(fds := ClosedFds())])
  }

  function HaltStep(m: Machine, status: byte, here: Stack): (r: (Machine, Resume))
    requires CanHalt(m)
    ensures Shape(r.0)
  {
    var pcb := m.pcbs[m.active[m.scheduled]];
    if pcb.parentPid == NO_PARENT then
      var n := Release(m);
      ExecuteStep(n.(active := n.active[n.scheduled := -1]), true, here)
    else
      var n := Release(m);
      (n.(esp0 := Esp0(pcb.parentPid), userPage := UserPage(pcb.parentPid),
        active := n.active[n.scheduled := pcb.parentPid]),
       Return(pcb.parent, status))
  }

  function NextTerminal(t: nat): (n: nat)
    ensures n < NUM_TERMINALS
  {
    (t + 1) % NUM_TERMINALS
  }

  // A terminal with no task gets a shell, so there must be a pid for it.
  ghost predicate CanTick(m: Machine) {
    && Shape(m)
    && SlotInRange(m)
    && ((exists t :: 0 <= t < NUM_TERMINALS && m.active[t] < 0) ==> FirstFree(m.procs) < MAX_PROCESS)
  }

  function Park(m: Machine, here: Stack): (n: Machine)
    requires Shape(m) && 0 <= m.active[m.scheduled]
    ensures Shape(n)
  {
    var pid := m.active[m.scheduled];
    m.(pcbs := m.pcbs[pid := m.pcbs[pid].(schedule := here, scheduleEsp0 := m.esp0)],
       scheduled := NextTerminal(m.scheduled))
  }

  function TickStep(m: Machine, here: Stack): (r: (Machine, Resume))
    requires CanTick(m)
    ensures Shape(r.0)
  {
    if m.active[m.scheduled] < 0 then ExecuteStep(m, true, here)
    else
      var n := Park(m, here);
      var pid := n.active[n.scheduled];
      if pid < 0 then ExecuteStep(n, true, here)
      else (n.(esp0 := n.pcbs[pid].scheduleEsp0, userPage := UserPage(pid)), Switch(n.pcbs[pid].schedule))
  }

  lemma {:induction false} CountZero(procs: seq<nat>)
    ensures Count(procs) == 0 <==> forall p :: 0 <= p < |procs| ==> procs[p] == 0
  {
    if procs != [] {
      CountZero(procs[1..]);
      if forall p :: 0 <= p < |procs| ==> procs[p] == 0 {
        forall p | 0 <= p < |procs[1..]| ensures procs[1..][p] == 0 { assert procs[p + 1] == 0; }
      } else if procs[0] == 0 {
        var p :| 0 <= p < |procs| && procs[p] != 0;
        assert procs[1..][p - 1] != 0;
      }
    }
  }

  // ----- addressing -----

  /** First-free allocation hands out the number of live processes exactly when the live pids form a prefix. */
  lemma {:induction false} FirstFreeIsCount(procs: seq<nat>)
    ensures FirstFree(procs) <= Count(procs)
    ensures FirstFree(procs) == Count(procs) <==> IsPrefix(procs)
  {
    if procs == [] {
    } else {
      var rest := procs[1..];
      FirstFreeIsCount(rest);
      CountZero(procs);
      if procs[0] != 0 {
        assert IsPrefix(procs) <==> IsPrefix(rest) by {
          if IsPrefix(procs) {
            forall p, q | 0 <= p < q < |rest| && rest[q] != 0 ensures rest[p] != 0 {
              assert procs[q + 1] != 0;
              assert procs[p + 1] != 0;
            }
          }
          if IsPrefix(rest) {
            forall p, q | 0 <= p < q < |procs| && procs[q] != 0 ensures procs[p] != 0 {
              if p > 0 { assert rest[q - 1] != 0; assert rest[p - 1] != 0; }
            }
          }
        }
      }
    }
  }

  lemma {:induction false} CountUpdate(procs: seq<nat>, pid: nat, v: nat)
    requires pid < |procs|
    ensures Count(procs[pid := v]) == Count(procs) - (if procs[pid] != 0 then 1 else 0) + (if v != 0 then 1 else 0)
  {
    if pid == 0 {
      assert procs[pid := v][1..] == procs[1..];
    } else {
      assert procs[pid := v][1..] == procs[1..][pid - 1 := v];
      CountUpdate(procs[1..], pid - 1, v);
    }
  }

  lemma {:induction false} CountIsLength(procs: seq<nat>)
    ensures Count(procs) == |procs| <==> forall p :: 0 <= p < |procs| ==> procs[p] != 0
  {
    if procs == [] {
    } else {
      CountIsLength(procs[1..]);
      assert forall p :: 0 <= p < |procs| - 1 ==> procs[1..][p] == procs[p + 1];
      if procs[0] != 0 && forall p :: 0 <= p < |procs[1..]| ==> procs[1..][p] != 0 {
        forall p | 0 <= p < |procs| ensures procs[p] != 0 { if p > 0 { assert procs[1..][p - 1] != 0; } }
      }
    }
  }

  /** Right after execute has taken a pid, `get_pcb` and `get_pcb_by_pid` name the same PCB if and only if
    * the live pids formed a prefix before it; and then the live pids form a prefix again. */
  lemma PcbAddressing(m: Machine, here: Stack)
    requires Shape(m) && m.running == Count(m.procs) && FirstFree(m.procs) < MAX_PROCESS
    ensures SlotInRange(m)
    ensures var n := Launch(m, here); n.running == Count(n.procs)
    ensures var n := Launch(m, here); GetPcb(n.running) == GetPcbByPid(FirstFree(m.procs)) <==> IsPrefix(m.procs)
    ensures IsPrefix(m.procs) ==> IsPrefix(Launch(m, here).procs)
  {
    FirstFreeIsCount(m.procs);
    CountUpdate(m.procs, FirstFree(m.procs), 1);
    CountIsLength(m.procs);
  }

  /** A halt that does not restart a shell keeps a prefix exactly when it halts the largest live pid. */
  lemma HaltKeepsPrefix(procs: seq<nat>, pid: nat)
    requires IsPrefix(procs) && pid < |procs| && procs[pid] != 0
    ensures IsPrefix(procs[pid := 0]) <==> forall q :: pid < q < |procs| ==> procs[q] == 0
  {
    var after := procs[pid := 0];
    if IsPrefix(after) {
      forall q | pid < q < |procs| ensures procs[q] == 0 { assert after[pid] == 0; assert after[q] == procs[q]; }
    } else {
      var p, q :| 0 <= p < q < |after| && after[q] != 0 && after[p] == 0;
      assert procs[q] != 0;
    }
  }

  /** The 8 KB kernel stack slots and the 4 MB user frames of distinct pids never overlap, and no user frame meets a
    * kernel stack. `a` and `b` range over the linear addresses of the user page. */
  lemma FramesDisjoint(p: nat, q: nat, a: nat, b: nat)
    requires p < MAX_PROCESS && q < MAX_PROCESS && p != q
    requires 0x800_0000 <= a < 0x840_0000 && 0x800_0000 <= b < 0x840_0000
    ensures GetPcbByPid(p) <= Esp0(p) < GetPcbByPid(p) + KERNEL_STACK_SIZE
    ensures GetPcbByPid(p) + KERNEL_STACK_SIZE <= GetPcbByPid(q) || GetPcbByPid(q) + KERNEL_STACK_SIZE <= GetPcbByPid(p)
    ensures SlotOf(GetPcbByPid(p)) == p
    ensures Physical(UserPage(p), a) == KERNEL_STACK_BASE + p * USR_PROGRAM_PAGE_SIZE + (a - 0x800_0000)
    ensures Physical(UserPage(p), a) != Physical(UserPage(q), b)
    ensures GetPcbByPid(q) + KERNEL_STACK_SIZE <= Physical(UserPage(p), a)
  {}

  lemma UserPageIsFrame(p: nat)
    requires p < MAX_PROCESS
    ensures UserPage(p) == 0x800 + p * 0x400
    ensures UserPage(p) * PAGE / USR_PROGRAM_PAGE_SIZE == 2 + p
  {}

  /** The stack pointer of a pid is four bytes below the top of its slot, next to the slot above. */
  lemma KernelStackTop(p: nat)
    requires p < MAX_PROCESS
    ensures Esp0(p) == 0x80_0000 - 0x2000 * p - 4
    ensures GetPcbByPid(p) == 0x80_0000 - 0x2000 * p - 0x2000
    ensures Esp0(p) + 4 == GetPcbByPid(p) + KERNEL_STACK_SIZE
  {}

  // The four bytes of a word, all in the slot of pid p, and any of them in it.
  predicate WordInSlot(at: int, p: nat) { GetPcbByPid(p) <= at && at + 4 <= GetPcbByPid(p) + KERNEL_STACK_SIZE }
  predicate WordMeetsSlot(at: int, p: nat) { GetPcbByPid(p) < at + 4 && at < GetPcbByPid(p) + KERNEL_STACK_SIZE }

  /** Every word pushed from there lies in the pid's own slot, and in no other pid's, until 0x1FFC bytes are pushed, and
    * not beyond. `depth` is how far below the stack pointer the word stands. */
  lemma PushesStayInSlot(p: nat, q: nat, depth: nat)
    requires p < MAX_PROCESS && q < MAX_PROCESS && p != q && 4 <= depth
    ensures WordInSlot(Esp0(p) - depth, p) <==> depth <= KERNEL_STACK_SIZE - 4
    ensures depth <= KERNEL_STACK_SIZE - 4 ==> !WordMeetsSlot(Esp0(p) - depth, q)
  {}
}
