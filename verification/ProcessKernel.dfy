/** The globals of student-distrib/syscalls.c and the code that updates them in place, proved to take the steps of
  * ProcessModel. */
module ProcessKernel {
  import opened Basics
  import opened Bytes
  import opened ProcessModel
  import opened ProcessRuns

  lemma Snoc(a: seq<Resume>, r: Resume, b: seq<Resume>)
    ensures a + ([r] + b) == (a + [r]) + b
  {}

  class Kernel {
    const processArray: array<nat>
    const pcbs: array<Pcb>
    const active: array<int>      // active_task_pid of each terminal
    var processesRunning: nat
    var scheduledTid: nat
    var esp0: int
    var userPage: nat
    var maxProcFlag: bool

    function State(): Machine
      reads this, processArray, pcbs, active
    {
      Machine(processArray[..], processesRunning, pcbs[..], active[..], scheduledTid, esp0, userPage, maxProcFlag)
    }

    ghost predicate Valid()
      reads this, processArray, pcbs, active
    {
      && processArray.Length == pcbs.Length == MAX_PROCESS
      && active.Length == NUM_TERMINALS
      && processArray as object != active && processArray as object != pcbs && active as object != pcbs
      && (forall k :: 0 <= k < MAX_PROCESS ==> |pcbs[k].fds| == MAX_FILES)
      && Shape(State())
    }

    constructor ()
      ensures Valid() && fresh(processArray) && fresh(pcbs) && fresh(active)
      ensures processArray[..] == [0, 0, 0, 0, 0, 0] && processesRunning == 0
      ensures active[..] == [-1, -1, -1] && scheduledTid == 0
    {
      processArray := new nat[MAX_PROCESS](i => 0);
      pcbs := new Pcb[MAX_PROCESS](i => Pcb(ClosedFds(), 0, 0, Stack(0, 0), Stack(0, 0), 0, 0));
      active := new int[NUM_TERMINALS](i => -1);
      processesRunning, scheduledTid, esp0, userPage, maxProcFlag := 0, 0, 0, 0, false;
    }

    method ClearFds(slot: nat)
      requires Valid() && slot < MAX_PROCESS
      modifies pcbs
      ensures Valid()
      ensures pcbs[..] == old(pcbs[..])[slot := old(pcbs[slot]).(fds := ClosedFds())]
    {
      var i := 0;
      while i < MAX_FILES
        invariant 0 <= i <= MAX_FILES
        invariant |pcbs[slot].fds| == MAX_FILES
        invariant pcbs[slot] == old(pcbs[slot]).(fds := pcbs[slot].fds)
        invariant forall j :: 0 <= j < i ==> pcbs[slot].fds[j] == CLOSED_FD
        invariant forall k :: 0 <= k < MAX_PROCESS && k != slot ==> pcbs[k] == old(pcbs[k])
      {
        pcbs[slot] := pcbs[slot].(fds := pcbs[slot].fds[i := CLOSED_FD]);
        i := i + 1;
      }
      assert pcbs[slot].fds == ClosedFds();
    }

    method InitFdArray(slot: nat)
      requires Valid() && slot < MAX_PROCESS
      modifies pcbs
      ensures Valid()
      ensures pcbs[..] == old(pcbs[..])[slot := old(pcbs[slot]).(fds := InitialFds())]
    {
      ClearFds(slot);
      pcbs[slot] := pcbs[slot].(fds := pcbs[slot].fds[0 := Fd(StdinOps, 0, 0, true)]);
      pcbs[slot] := pcbs[slot].(fds := pcbs[slot].fds[1 := Fd(StdoutOps, 0, 0, true)]);
      assert pcbs[slot].fds == InitialFds();
    }

    method ScanPids() returns (pid: nat)
      requires Valid()
      ensures pid == FirstFree(processArray[..])
    {
      pid := 0;
      while pid < MAX_PROCESS && processArray[pid] != 0
        invariant pid <= MAX_PROCESS
        invariant forall p :: 0 <= p < pid ==> processArray[p] != 0
      {
        pid := pid + 1;
      }
      var free := FirstFree(processArray[..]);
      assert free < MAX_PROCESS ==> processArray[..][free] == 0;
      assert pid < MAX_PROCESS ==> processArray[..][pid] == 0;
    }

    // The part of execute that fills the new process's PCB and makes it its terminal's active task.
    method FillPcb(slot: nat, pid: nat, here: Stack)
      requires Valid() && slot < MAX_PROCESS && pid < MAX_PROCESS
      modifies pcbs, active
      ensures Valid()
      ensures var parent := if pid < 3 then NO_PARENT else Unsigned(old(active[scheduledTid]));
        pcbs[..] == old(pcbs[..])[slot := old(pcbs[slot]).(fds := InitialFds(), currPid := pid, parentPid := parent,
                                                          parent := here, terminalId := scheduledTid)]
      ensures active[..] == old(active[..])[scheduledTid := pid]
    {
      pcbs[slot] := pcbs[slot].(currPid := pid);
      if pid < 3 {
        pcbs[slot] := pcbs[slot].(parentPid := NO_PARENT);
      } else {
        pcbs[slot] := pcbs[slot].(parentPid := Unsigned(active[scheduledTid]));
      }
      active[scheduledTid] := pid;
      pcbs[slot] := pcbs[slot].(terminalId := scheduledTid);
      InitFdArray(slot);
      pcbs[slot] := pcbs[slot].(parent := here);
    }

    method Execute(loadable: bool, here: Stack) returns (resume: Resume)
      requires Valid() && SlotInRange(State())
      modifies this, processArray, pcbs, active
      ensures Valid()
      ensures (State(), resume) == ExecuteStep(old(State()), loadable, here)
      ensures resume.Enter? ==>
        esp0 == 0x80_0000 - 0x2000 * resume.pid - 4 && userPage == 0x800 + 0x400 * resume.pid
    {
      if !loadable {
        return Refused(-1);
      }
      var pid := ScanPids();
      if pid == MAX_PROCESS {
        maxProcFlag := true;
        return Refused(0);
      }
      processArray[pid] := 1;
      processesRunning := processesRunning + 1;
      userPage := UserPage(pid);
      var slot := SlotOf(GetPcb(processesRunning));
      FillPcb(slot, pid, here);
      esp0 := Esp0(pid);
      resume := Enter(pid);
    }

    method Halt(status: byte, here: Stack) returns (resume: Resume)
      requires Valid() && CanHalt(State())
      modifies this, processArray, pcbs, active
      ensures Valid()
      ensures (State(), resume) == HaltStep(old(State()), status, here)
      ensures resume.Return? ==>
        var parent := active[scheduledTid];
        0 <= parent && esp0 == 0x80_0000 - 0x2000 * parent - 4 && userPage == 0x800 + 0x400 * parent
    {
      var pid := active[scheduledTid];
      processesRunning := processesRunning - 1;
      processArray[pcbs[pid].currPid] := 0;
      ClearFds(pid);
      assert State() == Release(old(State()));
      if pcbs[pid].parentPid == NO_PARENT {
        active[scheduledTid] := -1;
        resume := Execute(true, here);
      } else {
        esp0 := Esp0(pcbs[pid].parentPid);
        userPage := UserPage(pcbs[pid].parentPid);
        active[scheduledTid] := pcbs[pid].parentPid;
        resume := Return(pcbs[pid].parent, status);
      }
    }

    method Schedule(targetTerminal: nat, here: Stack) returns (resume: Resume)
      requires Valid() && CanTick(State()) && targetTerminal == NextTerminal(scheduledTid)
      modifies this, processArray, pcbs, active
      ensures Valid()
      ensures (State(), resume) == TickStep(old(State()), here)
    {
      var activePid := active[scheduledTid];
      if activePid < 0 {
        resume := Execute(true, here);
        return;
      }
      pcbs[activePid] := pcbs[activePid].(schedule := here);
      pcbs[activePid] := pcbs[activePid].(scheduleEsp0 := esp0);
      scheduledTid := targetTerminal;
      assert State() == Park(old(State()), here);
      activePid := active[scheduledTid];
      if activePid < 0 {
        resume := Execute(true, here); // enters the new shell and never comes back here
        return;
      }
      esp0 := pcbs[activePid].scheduleEsp0;
      userPage := UserPage(activePid);
      resume := Switch(pcbs[activePid].schedule);
    }

    method PitHandler(here: Stack) returns (resume: Resume)
      requires Valid() && CanTick(State())
      modifies this, processArray, pcbs, active
      ensures Valid()
      ensures (State(), resume) == TickStep(old(State()), here)
    {
      var target := (scheduledTid + 1) % NUM_TERMINALS;
      resume := Schedule(target, here);
    }

    method Do(e: Event) returns (resume: Resume)
      requires Valid() && Enabled(State(), e)
      modifies this, processArray, pcbs, active
      ensures Valid()
      ensures (State(), resume) == Step(old(State()), e)
    {
      match e
      case Execute(loadable, here) => resume := Execute(loadable, here);
      case Halt(status, here) => resume := Halt(status, here);
      case Tick(here) => resume := PitHandler(here);
    }

    // Whatever happens next, for as long as it goes on: what each step resumed.
    method Run(events: seq<Event>) returns (resumes: seq<Resume>)
      requires Valid() && EnabledRun(State(), events)
      modifies this, processArray, pcbs, active
      ensures Valid()
      ensures (State(), resumes) == ProcessRuns.Run(old(State()), events)
    {
      hide Shape, Enabled, Step;
      var i := 0;
      resumes := [];
      assert events[0..] == events;
      while i < |events|
        invariant 0 <= i <= |events| && Valid()
        invariant EnabledRun(State(), events[i..])
        invariant ProcessRuns.Run(old(State()), events).0 == ProcessRuns.Run(State(), events[i..]).0
        invariant ProcessRuns.Run(old(State()), events).1 == resumes + ProcessRuns.Run(State(), events[i..]).1
      {
        assert events[i..][0] == events[i] && events[i..][1..] == events[i + 1..];
        var resume := Do(events[i]);
        Snoc(resumes, resume, ProcessRuns.Run(State(), events[i + 1..]).1);
        resumes := resumes + [resume];
        i := i + 1;
      }
      assert events[i..] == [] && resumes + [] == resumes;
    }
  }
}
