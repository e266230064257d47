/** Density is not just enough: it is exactly when the process table keeps its promises. */
module ProcessDensity {
  import opened Basics
  import opened Bytes
  import opened ProcessModel
  import opened ProcessRuns
  import opened ProcessLaws

  // ----- one new process -----

  // The PCB slot of a pid that was freed still says what a new process at `here` would have it say.
  ghost predicate StaleFits(m: Machine, pid: nat, here: Stack)
    requires Shape(m) && pid < MAX_PROCESS
  {
    && m.pcbs[pid].currPid == pid && m.pcbs[pid].terminalId == m.scheduled
    && m.pcbs[pid].parent == here && m.pcbs[pid].parentPid == m.active[m.scheduled]
  }

  // A frame whose record names another pid or another caller breaks the correspondence.
  lemma WrongRecord(n: Machine, d: Calls, t: nat, i: nat)
    requires Shape(n) && ValidCalls(d) && t < NUM_TERMINALS && i < |d.stacks[t]| && d.stacks[t][i].pid < MAX_PROCESS
    requires var pcb := n.pcbs[d.stacks[t][i].pid];
      pcb.currPid != d.stacks[t][i].pid || pcb.parent != d.stacks[t][i].caller
    ensures !Matches(n, d)
  {
    assert !FrameMatches(n, t, d.stacks[t], i);
  }

  lemma LiveOnStack(m: Machine, c: Calls, pid: nat) returns (t: nat, i: nat)
    requires Matches(m, c) && pid < MAX_PROCESS && m.procs[pid] != 0
    ensures t < NUM_TERMINALS && i < |c.stacks[t]| && c.stacks[t][i].pid == pid
  {
    assert OnStack(c, pid);
    var u, j :| 0 <= u < |c.stacks| && 0 <= j < |c.stacks[u]| && c.stacks[u][j].pid == pid;
    t, i := u, j;
  }

  // Outside a prefix the first free pid lies below the slot the record goes to.
  lemma SlotAbove(m: Machine, c: Calls)
    requires Matches(m, c) && FirstFree(m.procs) < MAX_PROCESS
    ensures 3 <= FirstFree(m.procs) <= m.running < MAX_PROCESS
    ensures FirstFree(m.procs) == m.running <==> IsPrefix(m.procs)
    ensures SlotInRange(m)
    ensures FirstFree(LivePids(c)) == FirstFree(m.procs)
    ensures SlotOf(GetPcb(m.running + 1)) == m.running
  {
    LiveAgree(m, c);
    FirstFreeIsCount(m.procs);
    CountIsLength(m.procs);
  }

  // The record execute writes for the process it starts.
  ghost function NewRecord(m: Machine, slot: Pcb, here: Stack): Pcb
    requires Shape(m) && 0 <= m.active[m.scheduled]
  {
    slot.(fds := InitialFds(), currPid := FirstFree(m.procs), parentPid := m.active[m.scheduled],
          parent := here, terminalId := m.scheduled)
  }

  lemma LaunchShape(m: Machine, c: Calls, here: Stack)
    requires Matches(m, c) && FirstFree(m.procs) < MAX_PROCESS && SlotInRange(m)
    ensures 0 <= m.active[m.scheduled] && m.running < MAX_PROCESS
    ensures var pid := FirstFree(m.procs);
      && Launch(m, here) ==
         m.(procs := m.procs[pid := 1], running := m.running + 1, active := m.active[m.scheduled := pid],
            userPage := UserPage(pid), esp0 := Esp0(pid),
            pcbs := m.pcbs[m.running := NewRecord(m, m.pcbs[m.running], here)])
      && CallStep(c, Execute(true, here)).0 ==
         c.(stacks := c.stacks[c.scheduled := c.stacks[c.scheduled] + [Frame(pid, here)]])
  {
    SlotAbove(m, c);
    assert ChainIs(m, m.scheduled, c.stacks[m.scheduled]);
  }

  lemma LaunchOverLive(m: Machine, c: Calls, here: Stack)
    requires Matches(m, c) && FirstFree(m.procs) < MAX_PROCESS && !IsPrefix(m.procs)
    requires SlotInRange(m) && m.running < MAX_PROCESS && m.procs[m.running] != 0
    ensures !Matches(Launch(m, here), CallStep(c, Execute(true, here)).0)
  {
    var t, i := LiveOnStack(m, c, m.running);
    SlotAbove(m, c);
    LaunchShape(m, c, here);
    hide Launch, CallStep, FirstFree, LivePids, Esp0, UserPage, InitialFds, IsPrefix, Matches;
    WrongRecord(Launch(m, here), CallStep(c, Execute(true, here)).0, t, i);
  }

  lemma LaunchLeavesStale(m: Machine, c: Calls, here: Stack)
    requires Matches(m, c) && FirstFree(m.procs) < MAX_PROCESS && !IsPrefix(m.procs)
    requires SlotInRange(m) && !StaleFits(m, FirstFree(m.procs), here)
    ensures !Matches(Launch(m, here), CallStep(c, Execute(true, here)).0)
  {
    SlotAbove(m, c);
    LaunchShape(m, c, here);
    hide Launch, CallStep, FirstFree, LivePids, Esp0, UserPage, InitialFds, IsPrefix;
    var n, d, s := Launch(m, here), CallStep(c, Execute(true, here)).0, m.scheduled;
    var top := |c.stacks[s]|;
    assert ChainIs(m, s, c.stacks[s]);
    assert d.stacks[s][top] == Frame(FirstFree(m.procs), here) && d.stacks[s][top - 1] == c.stacks[s][top - 1];
    assert !FrameMatches(n, s, d.stacks[s], top);
  }

  ghost predicate SameButFds(a: Pcb, b: Pcb) { a == b.(fds := a.fds) }

  // The processes of a chain are live as before and, but for their descriptors, untouched.
  ghost predicate Untouched(m: Machine, n: Machine, stack: seq<Frame>)
    requires Shape(m) && Shape(n)
  {
    forall i :: 0 <= i < |stack| && stack[i].pid < MAX_PROCESS && m.procs[stack[i].pid] != 0 ==>
      n.procs[stack[i].pid] != 0 && SameButFds(n.pcbs[stack[i].pid], m.pcbs[stack[i].pid])
  }

  lemma ChainStays(m: Machine, n: Machine, t: nat, stack: seq<Frame>)
    requires Shape(m) && Shape(n) && t < NUM_TERMINALS && ChainIs(m, t, stack) && Untouched(m, n, stack)
    requires n.active[t] == m.active[t]
    ensures ChainIs(n, t, stack)
  {
    forall i | 0 <= i < |stack| ensures FrameMatches(n, t, stack, i) { assert FrameMatches(m, t, stack, i); }
  }

  lemma ChainGrows(m: Machine, n: Machine, t: nat, stack: seq<Frame>, f: Frame)
    requires Shape(m) && Shape(n) && t < NUM_TERMINALS && ChainIs(m, t, stack) && Untouched(m, n, stack)
    requires f.pid < MAX_PROCESS && n.active[t] == f.pid && n.procs[f.pid] != 0
    requires n.pcbs[f.pid].currPid == f.pid && n.pcbs[f.pid].terminalId == t && n.pcbs[f.pid].parent == f.caller
    requires n.pcbs[f.pid].parentPid == m.active[t]
    ensures ChainIs(n, t, stack + [f])
  {
    var longer := stack + [f];
    forall i | 0 <= i < |longer| ensures FrameMatches(n, t, longer, i) {
      if i < |stack| { assert FrameMatches(m, t, stack, i); }
    }
  }

  lemma StaleChains(m: Machine, c: Calls, here: Stack)
    requires Matches(m, c) && FirstFree(m.procs) < MAX_PROCESS && SlotInRange(m) && m.running < MAX_PROCESS
    requires m.procs[m.running] == 0 && m.running != FirstFree(m.procs) && StaleFits(m, FirstFree(m.procs), here)
    ensures var d := CallStep(c, Execute(true, here)).0;
      forall t :: 0 <= t < NUM_TERMINALS ==> ChainIs(Launch(m, here), t, d.stacks[t])
  {
    LaunchShape(m, c, here);
    LiveAgree(m, c);
    var n, d := Launch(m, here), CallStep(c, Execute(true, here)).0;
    hide Launch, CallStep, FirstFree, LivePids, Esp0, UserPage, InitialFds, ChainIs, OnStack, Count, Distinct;
    hide ContextRight;
    forall t | 0 <= t < NUM_TERMINALS ensures ChainIs(n, t, d.stacks[t]) {
      if t == m.scheduled {
        ChainGrows(m, n, t, c.stacks[t], Frame(FirstFree(m.procs), here));
      } else {
        ChainStays(m, n, t, c.stacks[t]);
      }
    }
  }

  lemma ActivesLive(m: Machine, c: Calls)
    requires Forest(m, c)
    ensures forall t :: 0 <= t < NUM_TERMINALS ==> 0 <= m.active[t] && m.procs[m.active[t]] != 0
  {
    forall t | 0 <= t < NUM_TERMINALS ensures 0 <= m.active[t] && m.procs[m.active[t]] != 0 {
      assert ChainIs(m, t, c.stacks[t]);
      assert FrameMatches(m, t, c.stacks[t], |c.stacks[t]| - 1);
    }
  }

  lemma StaleMatches(m: Machine, c: Calls, here: Stack)
    requires Matches(m, c) && FirstFree(m.procs) < MAX_PROCESS && SlotInRange(m) && m.running < MAX_PROCESS
    requires m.procs[m.running] == 0 && m.running != FirstFree(m.procs) && StaleFits(m, FirstFree(m.procs), here)
    ensures Matches(Launch(m, here), CallStep(c, Execute(true, here)).0)
  {
    var pid := FirstFree(m.procs);
    LiveAgree(m, c);
    CountUpdate(m.procs, pid, 1);
    StaleChains(m, c, here);
    ExecuteCovers(m, c, here);
    PushStaysDistinct(m, c, m.scheduled, Frame(pid, here));
    ActivesLive(m, c);
    LaunchShape(m, c, here);
    hide Launch, CallStep, FirstFree, LivePids, InitialFds, OnStack, ChainIs, Distinct, Count;
  }

  /** A new process fits its terminal's call stack if and only if the live pids form a prefix, or its record goes to
    * a slot that is free while its own slot happens to hold the same record from before. */
  lemma LaunchMatchesExactly(m: Machine, c: Calls, here: Stack)
    requires Matches(m, c) && FirstFree(m.procs) < MAX_PROCESS
    ensures SlotInRange(m) && m.running < MAX_PROCESS
    ensures Matches(Launch(m, here), CallStep(c, Execute(true, here)).0) <==>
      IsPrefix(m.procs) || (m.procs[m.running] == 0 && StaleFits(m, FirstFree(m.procs), here))
  {
    SlotAbove(m, c);
    if IsPrefix(m.procs) {
      ExecuteMatches(m, c, here);
    } else {
      if m.procs[m.running] != 0 {
        LaunchOverLive(m, c, here);
      } else if StaleFits(m, FirstFree(m.procs), here) {
        StaleMatches(m, c, here);
      } else {
        LaunchLeavesStale(m, c, here);
      }
    }
  }

  // ----- a base shell that halts -----

  lemma BaseShell(m: Machine, c: Calls, status: byte, here: Stack)
    requires Matches(m, c) && |c.stacks[c.scheduled]| == 1
    ensures CanHalt(m) && 3 <= m.running <= MAX_PROCESS
    ensures c.stacks[m.scheduled] == [Frame(m.scheduled, m.pcbs[m.scheduled].parent)]
    ensures m.active[m.scheduled] == m.scheduled && m.procs[m.scheduled] != 0
    ensures m.pcbs[m.scheduled].currPid == m.scheduled && m.pcbs[m.scheduled].parentPid == NO_PARENT
  {
    var s := m.scheduled;
    MatchesEnabled(m, c, Halt(status, here));
    assert ChainIs(m, s, c.stacks[s]);
    assert FrameMatches(m, s, c.stacks[s], 0);
    LiveAgree(m, c);
    FirstFreeIsCount(m.procs);
  }

  lemma ReleaseBase(m: Machine, c: Calls, status: byte, here: Stack)
    requires Matches(m, c) && |c.stacks[c.scheduled]| == 1 && CanHalt(m)
    ensures var r, s := Release(m), m.scheduled;
      && r == m.(running := m.running - 1, procs := m.procs[s := 0],
        pcbs := m.pcbs[s := m.pcbs[s].(fds := ClosedFds())])
      && FirstFree(r.procs) == s
      && (IsPrefix(r.procs) <==> s == m.running - 1)
  {
    BaseShell(m, c, status, here);
    BasesLive(m, c);
    CountUpdate(m.procs, m.scheduled, 0);
    var r := Release(m);
    FirstFreeAt(r.procs, m.scheduled);
    FirstFreeIsCount(r.procs);
  }

  // The record of a restarted shell.
  function ShellRecord(slot: Pcb, s: nat, here: Stack): Pcb {
    slot.(fds := InitialFds(), currPid := s, parentPid := NO_PARENT, parent := here, terminalId := s)
  }

  // Halting the only process of a terminal starts its shell again under the same pid, but the record goes to the slot
  // the count of processes points at.
  lemma RestartShapeAny(m: Machine, c: Calls, status: byte, here: Stack)
    requires Matches(m, c) && |c.stacks[c.scheduled]| == 1
    ensures CanHalt(m) && 3 <= m.running <= MAX_PROCESS
    ensures DenseStep(m, Halt(status, here)) <==> m.running - 1 == m.scheduled
    ensures var s, slot := m.scheduled, m.running - 1;
      var closed := m.pcbs[s := m.pcbs[s].(fds := ClosedFds())];
      && HaltStep(m, status, here) ==
         (m.(procs := m.procs[s := 1], userPage := UserPage(s), esp0 := Esp0(s),
             pcbs := closed[slot := ShellRecord(closed[slot], s, here)]),
          Enter(s))
    ensures CallStep(c, Halt(status, here)) ==
      (c.(stacks := c.stacks[m.scheduled := [Frame(m.scheduled, here)]]), Enter(m.scheduled))
  {
    var s := m.scheduled;
    BaseShell(m, c, status, here);
    ReleaseBase(m, c, status, here);
    var r := Release(m);
    hide Matches, Release, FirstFree, Count, IsPrefix;
    assert r.procs[s := 1] == m.procs[s := 1];
    assert r.active[s := -1][s := s] == m.active;
    assert SlotOf(GetPcb(r.running + 1)) == m.running - 1;
  }

  /** A base shell's restart is dense in one configuration only: shell 2, with the three shells the only processes. */
  lemma RestartDenseExactly(m: Machine, c: Calls, status: byte, here: Stack)
    requires Matches(m, c) && |c.stacks[c.scheduled]| == 1
    ensures DenseStep(m, Halt(status, here)) <==> m.scheduled == 2 && m.running == 3
  {
    RestartShapeAny(m, c, status, here);
  }

  lemma RestartOverLive(m: Machine, c: Calls, status: byte, here: Stack)
    requires Matches(m, c) && |c.stacks[c.scheduled]| == 1 && CanHalt(m)
    requires m.running - 1 != m.scheduled && m.procs[m.running - 1] != 0
    ensures !Matches(HaltStep(m, status, here).0, CallStep(c, Halt(status, here)).0)
  {
    var t, i := LiveOnStack(m, c, m.running - 1);
    RestartShapeAny(m, c, status, here);
    BaseShell(m, c, status, here);
    hide HaltStep, CallStep, Matches;
    WrongRecord(HaltStep(m, status, here).0, CallStep(c, Halt(status, here)).0, t, i);
  }

  // A machine with the same live processes and, but for descriptors, the same records matches the same stacks.
  lemma MatchesStays(m: Machine, n: Machine, c: Calls)
    requires Matches(m, c) && Shape(n) && n.running == Count(n.procs)
    requires n.scheduled == m.scheduled && n.active == m.active && n.esp0 == m.esp0 && n.userPage == m.userPage
    requires forall p :: 0 <= p < MAX_PROCESS ==> (m.procs[p] != 0 <==> n.procs[p] != 0)
    requires forall p :: 0 <= p < MAX_PROCESS && m.procs[p] != 0 ==> SameButFds(n.pcbs[p], m.pcbs[p])
    ensures Matches(n, c)
  {
    ActivesLive(m, c);
    hide Distinct, Count, OnStack;
    forall t | 0 <= t < NUM_TERMINALS ensures ChainIs(n, t, c.stacks[t]) { ChainStays(m, n, t, c.stacks[t]); }
  }

  lemma SameStacks(c: Calls, s: nat, f: Frame)
    requires s < |c.stacks| && c.stacks[s] == [f]
    ensures c.(stacks := c.stacks[s := [f]]) == c
  {}

  // Outside the slot it writes, a restart changes nothing but descriptors.
  lemma RestartRecords(m: Machine, c: Calls, status: byte, here: Stack)
    requires Matches(m, c) && |c.stacks[c.scheduled]| == 1 && CanHalt(m)
    ensures var n := HaltStep(m, status, here).0;
      && n.procs == m.procs[m.scheduled := 1] && n.running == m.running == Count(n.procs)
      && n.scheduled == m.scheduled && n.active == m.active && n.esp0 == m.esp0 && n.userPage == m.userPage
      && (forall p :: 0 <= p < MAX_PROCESS && p != m.running - 1 ==> SameButFds(n.pcbs[p], m.pcbs[p]))
    ensures CallStep(c, Halt(status, here)).0 == c.(stacks := c.stacks[m.scheduled := [Frame(m.scheduled, here)]])
  {
    RestartShapeAny(m, c, status, here);
    BaseShell(m, c, status, here);
    CountUpdate(m.procs, m.scheduled, 1);
    hide HaltStep, CallStep, Forest, Count;
  }

  lemma RestartOverFree(m: Machine, c: Calls, status: byte, here: Stack)
    requires Matches(m, c) && |c.stacks[c.scheduled]| == 1 && CanHalt(m)
    requires m.running - 1 != m.scheduled && m.procs[m.running - 1] == 0
    ensures Matches(HaltStep(m, status, here).0, CallStep(c, Halt(status, here)).0) <==>
      m.pcbs[m.scheduled].parent == here
  {
    var s, n, d := m.scheduled, HaltStep(m, status, here).0, CallStep(c, Halt(status, here)).0;
    BaseShell(m, c, status, here);
    RestartRecords(m, c, status, here);
    hide HaltStep, CallStep, Matches, Count, Forest, ContextRight, ChainIs, FrameMatches, Distinct, OnStack;
    if m.pcbs[s].parent == here {
      SameStacks(c, s, Frame(s, here));
      MatchesStays(m, n, c);
    } else {
      WrongRecord(n, d, s, 0);
    }
  }

  /** A base shell that halts comes back on its terminal's call stack, with every other chain as it was, if and only
    * if it is shell 2 and the three shells are the only processes, or the new record goes to a free slot while the
    * shell's own slot happens to hold the same record from before. */
  lemma RestartMatchesExactly(m: Machine, c: Calls, status: byte, here: Stack)
    requires Matches(m, c) && |c.stacks[c.scheduled]| == 1
    ensures CanHalt(m) && 3 <= m.running <= MAX_PROCESS
    ensures Matches(HaltStep(m, status, here).0, CallStep(c, Halt(status, here)).0) <==>
      (m.scheduled == 2 && m.running == 3) || (m.procs[m.running - 1] == 0 && m.pcbs[m.scheduled].parent == here)
  {
    RestartShapeAny(m, c, status, here);
    BaseShell(m, c, status, here);
    if m.running - 1 == m.scheduled {
      RestartMatches(m, c, status, here);
    } else if m.procs[m.running - 1] != 0 {
      RestartOverLive(m, c, status, here);
    } else {
      RestartOverFree(m, c, status, here);
    }
  }

  // ----- the promise with its descriptors -----

  // The terminal's descriptors, which no call closes.
  predicate HasTerminal(fds: seq<Fd>) {
    |fds| >= 2 && fds[0] == Fd(StdinOps, 0, 0, true) && fds[1] == Fd(StdoutOps, 0, 0, true)
  }

  ghost predicate LiveAbove(procs: seq<nat>, pid: nat) {
    exists q :: pid < q < |procs| && procs[q] != 0
  }

  // Every process has its terminal's descriptors, and what halt has freed below one has not.
  ghost predicate TablesRight(m: Machine)
    requires Shape(m)
  {
    && (forall p :: 0 <= p < MAX_PROCESS && m.procs[p] != 0 ==> HasTerminal(m.pcbs[p].fds))
    && (forall p :: 0 <= p < MAX_PROCESS && m.procs[p] == 0 && LiveAbove(m.procs, p) ==> !HasTerminal(m.pcbs[p].fds))
  }

  ghost predicate Sound(m: Machine, c: Calls) {
    Matches(m, c) && TablesRight(m)
  }

  lemma NotPrefixLeavesHole(procs: seq<nat>)
    requires !IsPrefix(procs)
    ensures FirstFree(procs) < |procs| && LiveAbove(procs, FirstFree(procs))
  {}

  lemma NoHole(procs: seq<nat>)
    requires IsPrefix(procs)
    ensures forall p :: 0 <= p < |procs| && procs[p] == 0 ==> !LiveAbove(procs, p)
  {}

  lemma LaunchSoundExactly(m: Machine, c: Calls, here: Stack)
    requires Sound(m, c) && FirstFree(m.procs) < MAX_PROCESS
    ensures SlotInRange(m)
    ensures Sound(Launch(m, here), CallStep(c, Execute(true, here)).0) <==> IsPrefix(m.procs)
  {
    SlotAbove(m, c);
    LaunchShape(m, c, here);
    var pid, n := FirstFree(m.procs), Launch(m, here);
    if IsPrefix(m.procs) {
      ExecuteMatches(m, c, here);
      PcbAddressing(m, here);
      NoHole(n.procs);
      hide Matches, Launch, CallStep, LiveAbove;
    } else {
      NotPrefixLeavesHole(m.procs);
      hide Matches, Launch, CallStep;
      assert !HasTerminal(m.pcbs[pid].fds) && n.pcbs[pid] == m.pcbs[pid];
    }
  }

  lemma SameAbove(a: seq<nat>, b: seq<nat>, pid: nat)
    requires |a| == |b| && forall p :: 0 <= p < |a| ==> (a[p] != 0 <==> b[p] != 0)
    ensures LiveAbove(a, pid) <==> LiveAbove(b, pid)
  {}

  lemma RestartSoundExactly(m: Machine, c: Calls, status: byte, here: Stack)
    requires Sound(m, c) && |c.stacks[c.scheduled]| == 1 && CanHalt(m)
    ensures Sound(HaltStep(m, status, here).0, CallStep(c, Halt(status, here)).0) <==>
      m.scheduled == 2 && m.running == 3
  {
    RestartShapeAny(m, c, status, here);
    BaseShell(m, c, status, here);
    var n, s := HaltStep(m, status, here).0, m.scheduled;
    if m.running - 1 == s {
      RestartMatches(m, c, status, here);
      hide Matches, HaltStep, CallStep;
      forall p | 0 <= p < MAX_PROCESS ensures LiveAbove(n.procs, p) <==> LiveAbove(m.procs, p) {
        SameAbove(m.procs, n.procs, p);
      }
    } else {
      hide Matches, HaltStep, CallStep;
      assert n.procs[s] != 0 && n.pcbs[s].fds == ClosedFds();
    }
  }

  lemma FreedTables(m: Machine, n: Machine, pid: nat)
    requires Shape(m) && Shape(n) && TablesRight(m) && pid < MAX_PROCESS
    requires n.procs == m.procs[pid := 0] && n.pcbs == m.pcbs[pid := m.pcbs[pid].(fds := ClosedFds())]
    ensures TablesRight(n)
  {}

  lemma ReturnSound(m: Machine, c: Calls, status: byte, here: Stack)
    requires Sound(m, c) && |c.stacks[c.scheduled]| > 1 && CanHalt(m)
    ensures Sound(HaltStep(m, status, here).0, CallStep(c, Halt(status, here)).0)
  {
    ReturnMatches(m, c, status, here);
    ReturnShape(m, c, status, here);
    var n := HaltStep(m, status, here).0;
    var pid := c.stacks[c.scheduled][|c.stacks[c.scheduled]| - 1].pid;
    assert ChainIs(m, m.scheduled, c.stacks[m.scheduled]);
    assert FrameMatches(m, m.scheduled, c.stacks[m.scheduled], |c.stacks[m.scheduled]| - 1);
    hide Matches, HaltStep, CallStep, ChainIs, Release;
    FreedTables(m, n, pid);
  }

  lemma TickSound(m: Machine, c: Calls, here: Stack)
    requires Sound(m, c) && CanTick(m)
    ensures Sound(TickStep(m, here).0, CallStep(c, Tick(here)).0)
  {
    TickMatches(m, c, here);
    assert ChainIs(m, m.scheduled, c.stacks[m.scheduled]);
  }

  lemma StepDenseReturn(m: Machine, c: Calls, status: byte, here: Stack)
    requires Matches(m, c) && |c.stacks[c.scheduled]| > 1
    ensures DenseStep(m, Halt(status, here))
  {
    var stack := c.stacks[m.scheduled];
    assert ChainIs(m, m.scheduled, stack);
    assert FrameMatches(m, m.scheduled, stack, |stack| - 1);
    assert FrameMatches(m, m.scheduled, stack, |stack| - 2);
  }

  /** One step keeps the promise, descriptors included, if and only if it is dense. */
  lemma StepSoundExactly(m: Machine, c: Calls, e: Event)
    requires Sound(m, c)
    ensures Enabled(m, e)
    ensures Sound(Step(m, e).0, CallStep(c, e).0) <==> DenseStep(m, e)
  {
    MatchesEnabled(m, c, e);
    match e
    case Execute(loadable, here) =>
      LiveAgree(m, c);
      MaxProcIrrelevant(m, c);
      if FirstFree(m.procs) < MAX_PROCESS { LaunchSoundExactly(m, c, here); }
    case Halt(status, here) =>
      if |c.stacks[c.scheduled]| > 1 {
        ReturnSound(m, c, status, here);
        StepDenseReturn(m, c, status, here);
      } else {
        RestartSoundExactly(m, c, status, here);
        RestartDenseExactly(m, c, status, here);
      }
    case Tick(here) => TickSound(m, c, here);
  }

  // The promise holds at every moment of the run.
  ghost predicate SoundRun(m: Machine, c: Calls, events: seq<Event>)
    requires ValidCalls(c)
    decreases |events|
  {
    Sound(m, c) &&
    (events == [] || (Enabled(m, events[0]) && SoundRun(Step(m, events[0]).0, CallStep(c, events[0]).0, events[1..])))
  }

  /** A run from a sound state keeps the promise at every moment if and only if it is dense: outside dense runs it is
    * broken at the first process that starts over a hole in the pids. */
  lemma {:induction false} RunSoundExactly(m: Machine, c: Calls, events: seq<Event>)
    requires Sound(m, c)
    ensures SoundRun(m, c, events) <==> DenseRun(m, events)
    decreases |events|
  {
    if events == [] {
    } else {
      StepSoundExactly(m, c, events[0]);
      var n, d := Step(m, events[0]).0, CallStep(c, events[0]).0;
      hide Step, CallStep, Sound, Enabled, DenseStep;
      if Sound(n, d) { RunSoundExactly(n, d, events[1..]); }
    }
  }

  // ----- whose descriptors a system call uses -----

  lemma PrefixLive(procs: seq<nat>)
    requires IsPrefix(procs)
    ensures forall q :: 0 <= q < |procs| ==> (procs[q] != 0 <==> q < Count(procs))
  {}

  /** open, read and close find their table through get_pcb: it is the caller's own if and only if the caller's pid
    * is one less than the number of processes, which with the live pids a prefix means that no process has a larger
    * pid. */
  lemma OwnTableExactly(m: Machine, c: Calls)
    requires Matches(m, c)
    ensures var pid := m.active[m.scheduled];
      && (GetPcb(m.running) == GetPcbByPid(pid) <==> pid == m.running - 1)
      && (IsPrefix(m.procs) ==> (GetPcb(m.running) == GetPcbByPid(pid) <==> !LiveAbove(m.procs, pid)))
  {
    ActivesLive(m, c);
    var pid := m.active[m.scheduled];
    if IsPrefix(m.procs) {
      PrefixLive(m.procs);
      if pid < m.running - 1 { assert m.procs[m.running - 1] != 0; }
    }
    hide ChainIs, OnStack, Distinct, ContextRight, IsPrefix, Count;
  }

  /** With only the three shells running, only terminal 2's reaches its own table. */
  lemma ShellsShareATable(m: Machine, c: Calls)
    requires Matches(m, c) && forall t :: 0 <= t < NUM_TERMINALS ==> |c.stacks[t]| == 1
    ensures GetPcb(m.running) == GetPcbByPid(m.active[m.scheduled]) <==> m.scheduled == 2
  {
    OwnTableExactly(m, c);
    ThreeShells(m, c);
  }

  // ----- from power-on -----

  /** The state three ticks after power-on is sound, so from there the promise is kept exactly along the dense runs. */
  lemma BootSound(m: Machine, a: Stack, b: Stack, c: Stack)
    requires PoweredOn(m)
    ensures EnabledRun(m, [Tick(a), Tick(b), Tick(c)])
    ensures Sound(Run(m, [Tick(a), Tick(b), Tick(c)]).0, Booted(a, b, c))
  {
    Boot(m, a, b, c);
    ThreeShells(Run(m, [Tick(a), Tick(b), Tick(c)]).0, Booted(a, b, c));
  }

  lemma {:induction false} RunSnoc(m: Machine, events: seq<Event>, e: Event)
    requires EnabledRun(m, events) && Enabled(Run(m, events).0, e)
    ensures EnabledRun(m, events + [e]) && Run(m, events + [e]).0 == Step(Run(m, events).0, e).0
    decreases |events|
  {
    if events == [] {
      assert events + [e] == [e] && [e][1..] == [];
    } else {
      assert (events + [e])[1..] == events[1..] + [e];
      RunSnoc(Step(m, events[0]).0, events[1..], e);
    }
  }

  lemma FourthTick(booted: Machine, a: Stack, b: Stack, c: Stack, d: Stack)
    requires Matches(booted, Booted(a, b, c))
    ensures Enabled(booted, Tick(d))
    ensures var n, calls := Step(booted, Tick(d)).0, CallStep(Booted(a, b, c), Tick(d)).0;
      Matches(n, calls) && n.scheduled == 0 && forall t :: 0 <= t < NUM_TERMINALS ==> |calls.stacks[t]| == 1
  {
    StepMatches(booted, Booted(a, b, c), Tick(d));
    hide Step;
  }

  // Back at shell 0.
  lemma FourTicks(m: Machine, a: Stack, b: Stack, c: Stack, d: Stack) returns (n: Machine, calls: Calls)
    requires PoweredOn(m)
    ensures EnabledRun(m, [Tick(a), Tick(b), Tick(c)] + [Tick(d)])
    ensures n == Run(m, [Tick(a), Tick(b), Tick(c)] + [Tick(d)]).0
    ensures Matches(n, calls) && n.scheduled == 0 && forall t :: 0 <= t < NUM_TERMINALS ==> |calls.stacks[t]| == 1
  {
    hide Run, EnabledRun, Matches, Step, CallStep, Enabled, DenseSteps, Booted;
    Boot(m, a, b, c);
    var booted := Run(m, [Tick(a), Tick(b), Tick(c)]).0;
    FourthTick(booted, a, b, c, d);
    RunSnoc(m, [Tick(a), Tick(b), Tick(c)], Tick(d));
    n, calls := Step(booted, Tick(d)).0, CallStep(Booted(a, b, c), Tick(d)).0;
  }

  /** The failure is reached from power-on: three ticks start the shells, a fourth comes back to shell 0, and when
    * that exits terminal 2 has no chain left, while shell 2 lives on. */
  lemma RestartFailsFromBoot(m: Machine, a: Stack, b: Stack, c: Stack, d: Stack, status: byte, here: Stack)
    requires PoweredOn(m)
    ensures var events := [Tick(a), Tick(b), Tick(c)] + [Tick(d)];
      && EnabledRun(m, events)
      && var n := Run(m, events).0;
         && CanHalt(n) && n.scheduled == 0
         && var broken := HaltStep(n, status, here).0;
            broken.active[2] == 2 && broken.procs[2] != 0 && forall stack :: !ChainIs(broken, 2, stack)
  {
    var n, calls := FourTicks(m, a, b, c, d);
    hide Run, EnabledRun, Matches, HaltStep, ChainIs, CanHalt;
    RestartOutOfOrder(n, calls, status, here);
  }
}
