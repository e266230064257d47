/** Every dense run of the process table behaves like three stacks of calls, one per terminal, that take turns. */
module ProcessRuns {
  import opened Basics
  import opened Bytes
  import opened ProcessModel

  datatype Event =
    | Execute(loadable: bool, here: Stack)
    | Halt(status: byte, here: Stack)
    | Tick(here: Stack)

  // ----- what users are promised: three stacks of program calls -----

  // A running program and the stack that called it.
  datatype Frame = Frame(pid: nat, caller: Stack)

  // `parked` is where each terminal was last stopped by a tick.
  datatype Calls = Calls(stacks: seq<seq<Frame>>, parked: seq<Stack>, scheduled: nat)

  ghost predicate ValidCalls(c: Calls) {
    && |c.stacks| == |c.parked| == NUM_TERMINALS
    && c.scheduled < NUM_TERMINALS
    && (forall t :: 0 <= t < NUM_TERMINALS ==> c.stacks[t] != [])
  }

  ghost predicate OnStack(c: Calls, pid: nat) {
    exists t, i :: 0 <= t < |c.stacks| && 0 <= i < |c.stacks[t]| && c.stacks[t][i].pid == pid
  }

  ghost function LivePids(c: Calls): (live: seq<nat>)
    ensures |live| == MAX_PROCESS
  {
    seq(MAX_PROCESS, p => if p >= 0 && OnStack(c, p) then 1 else 0)
  }

  ghost function CallStep(c: Calls, e: Event): (r: (Calls, Resume))
    requires ValidCalls(c)
    ensures ValidCalls(r.0)
  {
    var stack := c.stacks[c.scheduled];
    match e
    case Execute(loadable, here) =>
      var pid := FirstFree(LivePids(c));
      if !loadable then (c, Refused(-1))
      else if pid == MAX_PROCESS then (c, Refused(0))
      else (c.(stacks := c.stacks[c.scheduled := stack + [Frame(pid, here)]]), Enter(pid))
    case Halt(status, here) =>
      var top := stack[|stack| - 1];
      if |stack| == 1 then (c.(stacks := c.stacks[c.scheduled := [Frame(top.pid, here)]]), Enter(top.pid))
      else (c.(stacks := c.stacks[c.scheduled := stack[..|stack| - 1]]), Return(top.caller, status))
    case Tick(here) =>
      var d := c.(parked := c.parked[c.scheduled := here], scheduled := NextTerminal(c.scheduled));
      (d, Switch(d.parked[d.scheduled]))
  }

  // ----- the correspondence -----

  ghost predicate FrameMatches(m: Machine, t: nat, stack: seq<Frame>, i: nat)
    requires Shape(m) && i < |stack|
  {
    var pid := stack[i].pid;
    && pid < MAX_PROCESS
    && m.procs[pid] != 0
    && m.pcbs[pid].currPid == pid
    && m.pcbs[pid].terminalId == t
    && m.pcbs[pid].parent == stack[i].caller
    && m.pcbs[pid].parentPid == (if i == 0 then NO_PARENT else stack[i - 1].pid)
  }

  // The parent chain of terminal t's active pid, read from the PCBs, is `stack` from its top down to base shell t.
  ghost predicate ChainIs(m: Machine, t: nat, stack: seq<Frame>)
    requires Shape(m) && t < NUM_TERMINALS
  {
    && stack != []
    && stack[0].pid == t
    && m.active[t] == stack[|stack| - 1].pid
    && (forall i :: 0 <= i < |stack| ==> FrameMatches(m, t, stack, i))
  }

  ghost predicate Distinct(c: Calls) {
    forall t, i, u, j ::
      (0 <= t < |c.stacks| && 0 <= i < |c.stacks[t]| && 0 <= u < |c.stacks| && 0 <= j < |c.stacks[u]| &&
       c.stacks[t][i].pid == c.stacks[u][j].pid) ==> t == u && i == j
  }

  ghost predicate Forest(m: Machine, c: Calls) {
    && Shape(m) && ValidCalls(c)
    && m.scheduled == c.scheduled
    && m.running == Count(m.procs)
    && (forall t :: 0 <= t < NUM_TERMINALS ==> 0 <= m.active[t])
    && (forall t :: 0 <= t < NUM_TERMINALS ==> ChainIs(m, t, c.stacks[t]))
    && Distinct(c)
    && (forall p :: 0 <= p < MAX_PROCESS && m.procs[p] != 0 ==> OnStack(c, p))
  }

  // tss.esp0 and the user page belong to the running program; a stopped terminal's PCB holds where it was stopped.
  ghost predicate ContextRight(m: Machine, c: Calls)
    requires Forest(m, c)
  {
    && m.esp0 == Esp0(m.active[m.scheduled])
    && m.userPage == UserPage(m.active[m.scheduled])
    && (forall t :: 0 <= t < NUM_TERMINALS && t != m.scheduled ==>
          m.pcbs[m.active[t]].schedule == c.parked[t] && m.pcbs[m.active[t]].scheduleEsp0 == Esp0(m.active[t]))
  }

  ghost predicate Matches(m: Machine, c: Calls) {
    Forest(m, c) && ContextRight(m, c)
  }

  // ----- one step -----

  ghost predicate Enabled(m: Machine, e: Event) {
    match e
    case Execute(_, _) => Shape(m) && SlotInRange(m)
    case Halt(_, _) => CanHalt(m)
    case Tick(_) => CanTick(m)
  }

  function Step(m: Machine, e: Event): (r: (Machine, Resume))
    requires Enabled(m, e)
    ensures Shape(r.0)
  {
    match e
    case Execute(loadable, here) => ExecuteStep(m, loadable, here)
    case Halt(status, here) => HaltStep(m, status, here)
    case Tick(here) => TickStep(m, here)
  }

  // Whatever process is started in this step starts with the live pids forming a prefix.
  ghost predicate DenseStep(m: Machine, e: Event) {
    match e
    case Execute(loadable, _) => loadable ==> IsPrefix(m.procs)
    case Halt(_, _) => CanHalt(m) && m.pcbs[m.active[m.scheduled]].parentPid == NO_PARENT ==> IsPrefix(Release(m).procs)
    case Tick(_) => true
  }

  lemma BasesLive(m: Machine, c: Calls)
    requires Forest(m, c)
    ensures m.procs[0] != 0 && m.procs[1] != 0 && m.procs[2] != 0
  {
    forall t | 0 <= t < NUM_TERMINALS ensures m.procs[t] != 0 {
      assert ChainIs(m, t, c.stacks[t]);
      assert FrameMatches(m, t, c.stacks[t], 0);
    }
  }

  lemma FirstFreeAgree(a: seq<nat>, b: seq<nat>)
    requires |a| == |b| && forall p :: 0 <= p < |a| ==> (a[p] == 0 <==> b[p] == 0)
    ensures FirstFree(a) == FirstFree(b)
  {}

  lemma LiveAgree(m: Machine, c: Calls)
    requires Forest(m, c)
    ensures FirstFree(m.procs) == FirstFree(LivePids(c))
    ensures 3 <= FirstFree(m.procs)
  {
    var live := LivePids(c);
    forall p | 0 <= p < MAX_PROCESS ensures live[p] != 0 <==> m.procs[p] != 0 {
      if OnStack(c, p) {
        var t, i :| 0 <= t < |c.stacks| && 0 <= i < |c.stacks[t]| && c.stacks[t][i].pid == p;
        assert FrameMatches(m, t, c.stacks[t], i);
      }
    }
    FirstFreeAgree(m.procs, live);
    BasesLive(m, c);
  }

  // Matching machines can take every step.
  lemma MatchesEnabled(m: Machine, c: Calls, e: Event)
    requires Matches(m, c)
    ensures Enabled(m, e)
  {
    CountIsLength(m.procs);
    CountZero(m.procs);
    BasesLive(m, c);
    forall t | 0 <= t < NUM_TERMINALS ensures 0 <= m.active[t] {
      assert ChainIs(m, t, c.stacks[t]);
    }
    var t := m.scheduled;
    var stack := c.stacks[t];
    assert ChainIs(m, t, stack);
    assert FrameMatches(m, t, stack, |stack| - 1);
    if |stack| > 1 { assert FrameMatches(m, t, stack, |stack| - 2); }
    if FirstFree(m.procs) < MAX_PROCESS { assert m.procs[FirstFree(m.procs)] == 0; }
  }

  lemma ExecuteChains(m: Machine, c: Calls, here: Stack)
    requires Forest(m, c) && SlotInRange(m) && FirstFree(m.procs) < MAX_PROCESS && IsPrefix(m.procs)
    ensures var d := CallStep(c, Execute(true, here)).0;
      forall t :: 0 <= t < NUM_TERMINALS ==> ChainIs(Launch(m, here), t, d.stacks[t])
  {
    var pid := FirstFree(m.procs);
    FirstFreeIsCount(m.procs);
    LiveAgree(m, c);
    var n := Launch(m, here);
    var d := CallStep(c, Execute(true, here)).0;
    forall t | 0 <= t < NUM_TERMINALS ensures ChainIs(n, t, d.stacks[t]) {
      assert ChainIs(m, t, c.stacks[t]);
      forall i | 0 <= i < |d.stacks[t]| ensures FrameMatches(n, t, d.stacks[t], i) {
        if i < |c.stacks[t]| {
          assert d.stacks[t][i] == c.stacks[t][i];
          assert FrameMatches(m, t, c.stacks[t], i);
        }
      }
    }
  }

  lemma ExecuteCovers(m: Machine, c: Calls, here: Stack)
    requires Forest(m, c) && SlotInRange(m) && FirstFree(m.procs) < MAX_PROCESS
    ensures var d := CallStep(c, Execute(true, here)).0;
      forall p :: 0 <= p < MAX_PROCESS && Launch(m, here).procs[p] != 0 ==> OnStack(d, p)
  {
    LiveAgree(m, c);
    var s := m.scheduled;
    var d := CallStep(c, Execute(true, here)).0;
    forall p | 0 <= p < MAX_PROCESS && Launch(m, here).procs[p] != 0 ensures OnStack(d, p) {
      if p == FirstFree(m.procs) {
        assert d.stacks[s][|c.stacks[s]|].pid == p;
      } else {
        assert OnStack(c, p);
        var t, i :| 0 <= t < |c.stacks| && 0 <= i < |c.stacks[t]| && c.stacks[t][i].pid == p;
        assert d.stacks[t][i] == c.stacks[t][i];
      }
    }
  }

  lemma PushStaysDistinct(m: Machine, c: Calls, s: nat, f: Frame)
    requires Forest(m, c) && s < NUM_TERMINALS && f.pid < MAX_PROCESS && m.procs[f.pid] == 0
    ensures Distinct(c.(stacks := c.stacks[s := c.stacks[s] + [f]]))
  {
    var d := c.(stacks := c.stacks[s := c.stacks[s] + [f]]);
    forall t, i | 0 <= t < |c.stacks| && 0 <= i < |c.stacks[t]| ensures c.stacks[t][i].pid != f.pid {
      assert ChainIs(m, t, c.stacks[t]);
      assert FrameMatches(m, t, c.stacks[t], i);
    }
    forall t, i, u, j | 0 <= t < |d.stacks| && 0 <= i < |d.stacks[t]| && 0 <= u < |d.stacks| &&
      0 <= j < |d.stacks[u]| &&
        d.stacks[t][i].pid == d.stacks[u][j].pid
      ensures t == u && i == j
    {
      if i < |c.stacks[t]| { assert d.stacks[t][i] == c.stacks[t][i]; }
      if j < |c.stacks[u]| { assert d.stacks[u][j] == c.stacks[u][j]; }
    }
  }

  lemma ExecuteForest(m: Machine, c: Calls, here: Stack)
    requires Forest(m, c) && SlotInRange(m) && FirstFree(m.procs) < MAX_PROCESS && IsPrefix(m.procs)
    ensures Forest(Launch(m, here), CallStep(c, Execute(true, here)).0)
  {
    var pid := FirstFree(m.procs);
    LiveAgree(m, c);
    CountUpdate(m.procs, pid, 1);
    ExecuteChains(m, c, here);
    ExecuteCovers(m, c, here);
    PushStaysDistinct(m, c, m.scheduled, Frame(pid, here));
  }

  lemma ExecuteMatches(m: Machine, c: Calls, here: Stack)
    requires Matches(m, c) && SlotInRange(m) && FirstFree(m.procs) < MAX_PROCESS && IsPrefix(m.procs)
    ensures Matches(Launch(m, here), CallStep(c, Execute(true, here)).0)
  {
    var pid := FirstFree(m.procs);
    FirstFreeIsCount(m.procs);
    ExecuteForest(m, c, here);
    forall t | 0 <= t < NUM_TERMINALS && t != m.scheduled ensures m.active[t] != pid {
      assert ChainIs(m, t, c.stacks[t]);
      assert FrameMatches(m, t, c.stacks[t], |c.stacks[t]| - 1);
    }
  }

  lemma ReturnShape(m: Machine, c: Calls, status: byte, here: Stack)
    requires Forest(m, c) && CanHalt(m) && |c.stacks[c.scheduled]| > 1
    ensures var stack := c.stacks[c.scheduled];
      var top := stack[|stack| - 1];
      HaltStep(m, status, here) ==
        (Release(m).(esp0 := Esp0(stack[|stack| - 2].pid), userPage := UserPage(stack[|stack| - 2].pid),
                     active := m.active[m.scheduled := stack[|stack| - 2].pid]),
         Return(top.caller, status))
      && Release(m).procs == m.procs[top.pid := 0] && Release(m).running == m.running - 1 && m.procs[top.pid] != 0
      && Release(m).pcbs == m.pcbs[top.pid := m.pcbs[top.pid].(fds := ClosedFds())]
  {
    var stack := c.stacks[m.scheduled];
    assert ChainIs(m, m.scheduled, stack);
    assert FrameMatches(m, m.scheduled, stack, |stack| - 1);
    assert FrameMatches(m, m.scheduled, stack, |stack| - 2);
  }

  lemma ReturnChains(m: Machine, c: Calls, n: Machine, d: Calls)
    requires Forest(m, c) && Shape(n) && ValidCalls(d) && |c.stacks[c.scheduled]| > 1
    requires d == c.(stacks := c.stacks[c.scheduled := c.stacks[c.scheduled][..|c.stacks[c.scheduled]| - 1]])
    requires var pid := c.stacks[c.scheduled][|c.stacks[c.scheduled]| - 1].pid;
      && pid < MAX_PROCESS
      && n.procs == m.procs[pid := 0]
      && n.pcbs == m.pcbs[pid := m.pcbs[pid].(fds := ClosedFds())]
      && n.active == m.active[m.scheduled := c.stacks[c.scheduled][|c.stacks[c.scheduled]| - 2].pid]
    ensures forall t :: 0 <= t < NUM_TERMINALS ==> ChainIs(n, t, d.stacks[t])
  {
    var s, top := c.scheduled, |c.stacks[c.scheduled]| - 1;
    var pid := c.stacks[s][top].pid;
    forall t, i | 0 <= t < |d.stacks| && 0 <= i < |d.stacks[t]|
      ensures d.stacks[t][i] == c.stacks[t][i] && c.stacks[t][i].pid != pid
    {
      assert c.stacks[t][i].pid == c.stacks[s][top].pid ==> t == s && i == top;
    }
    forall t | 0 <= t < NUM_TERMINALS ensures ChainIs(n, t, d.stacks[t]) {
      assert ChainIs(m, t, c.stacks[t]);
      forall i | 0 <= i < |d.stacks[t]| ensures FrameMatches(n, t, d.stacks[t], i) {
        assert FrameMatches(m, t, c.stacks[t], i);
      }
    }
  }

  lemma PopCovers(m: Machine, c: Calls, d: Calls, pid: nat)
    requires Forest(m, c) && pid < MAX_PROCESS
    requires d == c.(stacks := c.stacks[c.scheduled := c.stacks[c.scheduled][..|c.stacks[c.scheduled]| - 1]])
    requires c.stacks[c.scheduled][|c.stacks[c.scheduled]| - 1].pid == pid
    ensures forall p :: 0 <= p < MAX_PROCESS && m.procs[pid := 0][p] != 0 ==> OnStack(d, p)
  {
    forall p | 0 <= p < MAX_PROCESS && m.procs[pid := 0][p] != 0 ensures OnStack(d, p) {
      assert OnStack(c, p);
      var t, i :| 0 <= t < |c.stacks| && 0 <= i < |c.stacks[t]| && c.stacks[t][i].pid == p;
      assert d.stacks[t][i] == c.stacks[t][i];
    }
  }

  // A pid on the scheduled terminal's stack is no other terminal's active pid.
  lemma OthersKeepContext(m: Machine, c: Calls, pid: nat)
    requires Forest(m, c)
    requires exists i :: 0 <= i < |c.stacks[c.scheduled]| && c.stacks[c.scheduled][i].pid == pid
    ensures forall t :: 0 <= t < NUM_TERMINALS && t != m.scheduled ==> m.active[t] != pid
  {
    var i :| 0 <= i < |c.stacks[c.scheduled]| && c.stacks[c.scheduled][i].pid == pid;
    forall t | 0 <= t < NUM_TERMINALS && t != m.scheduled ensures m.active[t] != pid {
      assert ChainIs(m, t, c.stacks[t]);
      assert c.stacks[t][|c.stacks[t]| - 1].pid == m.active[t];
    }
  }

  // Stacks that hold the same pids as before, or fewer from the top, stay distinct.
  lemma DistinctCarries(c: Calls, d: Calls)
    requires Distinct(c) && |d.stacks| == |c.stacks|
    requires forall t :: 0 <= t < |c.stacks| ==> |d.stacks[t]| <= |c.stacks[t]|
    requires forall t, i :: 0 <= t < |d.stacks| && 0 <= i < |d.stacks[t]| ==> d.stacks[t][i].pid == c.stacks[t][i].pid
    ensures Distinct(d)
  {}

  // A halt above the base shell pops one frame.
  lemma ReturnMatches(m: Machine, c: Calls, status: byte, here: Stack)
    requires Matches(m, c) && CanHalt(m) && |c.stacks[c.scheduled]| > 1
    ensures Matches(HaltStep(m, status, here).0, CallStep(c, Halt(status, here)).0)
    ensures HaltStep(m, status, here).1 == CallStep(c, Halt(status, here)).1
  {
    var stack := c.stacks[m.scheduled];
    var pid := stack[|stack| - 1].pid;
    ReturnShape(m, c, status, here);
    CountUpdate(m.procs, pid, 0);
    var n, d := HaltStep(m, status, here).0, CallStep(c, Halt(status, here)).0;
    PopCovers(m, c, d, pid);
    ReturnChains(m, c, n, d);
    DistinctCarries(c, d);
    OthersKeepContext(m, c, pid);
  }

  lemma RestartShape(m: Machine, c: Calls, status: byte, here: Stack)
    requires Forest(m, c) && CanHalt(m) && |c.stacks[c.scheduled]| == 1 && IsPrefix(Release(m).procs)
    ensures var s := m.scheduled;
      HaltStep(m, status, here) ==
        (m.(procs := m.procs[s := 1], userPage := UserPage(s), esp0 := Esp0(s), active := m.active[s := s],
            pcbs := m.pcbs[s := m.pcbs[s].(fds := InitialFds(), currPid := s, parentPid := NO_PARENT, parent := here,
              terminalId := s)]),
         Enter(s))
    ensures c.stacks[m.scheduled][0].pid == m.scheduled && m.procs[m.scheduled] != 0
  {
    var s := m.scheduled;
    assert ChainIs(m, s, c.stacks[s]);
    assert FrameMatches(m, s, c.stacks[s], 0);
    var r := Release(m);
    CountUpdate(m.procs, s, 0);
    BasesLive(m, c);
    FirstFreeIsCount(r.procs);
    assert FirstFree(r.procs) == s by {
      assert r.procs[s] == 0;
      assert forall p :: 0 <= p < s ==> r.procs[p] != 0;
    }
    assert r.procs[s := 1] == m.procs[s := 1];
    assert r.active[s := -1][s := s] == m.active[s := s];
    assert SlotOf(GetPcb(r.running + 1)) == s;
    var shell := m.pcbs[s].(fds := InitialFds(), currPid := s, parentPid := NO_PARENT, parent := here, terminalId := s);
    assert r.pcbs[s := shell] == m.pcbs[s := shell];
  }

  lemma RestartChains(m: Machine, c: Calls, n: Machine, d: Calls, here: Stack)
    requires Forest(m, c) && Shape(n) && ValidCalls(d) && |c.stacks[c.scheduled]| == 1
    requires d == c.(stacks := c.stacks[c.scheduled := [Frame(m.scheduled, here)]])
    requires c.stacks[c.scheduled][0].pid == m.scheduled
    requires n.procs == m.procs[m.scheduled := 1] && n.active == m.active[m.scheduled := m.scheduled]
    requires n.pcbs == m.pcbs[m.scheduled := m.pcbs[m.scheduled].(fds := InitialFds(), currPid := m.scheduled,
                                parentPid := NO_PARENT, parent := here, terminalId := m.scheduled)]
    ensures forall t :: 0 <= t < NUM_TERMINALS ==> ChainIs(n, t, d.stacks[t])
    ensures forall t, i :: 0 <= t < |d.stacks| && 0 <= i < |d.stacks[t]| ==> d.stacks[t][i].pid == c.stacks[t][i].pid
    ensures forall p :: 0 <= p < MAX_PROCESS && m.procs[p] != 0 ==> OnStack(d, p)
  {
    var s := m.scheduled;
    forall t, i | 0 <= t < |d.stacks| && 0 <= i < |d.stacks[t]|
      ensures d.stacks[t][i].pid == c.stacks[t][i].pid
      ensures t != s ==> d.stacks[t][i] == c.stacks[t][i] && c.stacks[t][i].pid != s
    {
      assert c.stacks[t][i].pid == c.stacks[s][0].pid ==> t == s && i == 0;
    }
    forall t | 0 <= t < NUM_TERMINALS ensures ChainIs(n, t, d.stacks[t]) {
      assert ChainIs(m, t, c.stacks[t]);
      forall i | 0 <= i < |d.stacks[t]| ensures FrameMatches(n, t, d.stacks[t], i) {
        assert FrameMatches(m, t, c.stacks[t], i);
      }
    }
    forall p | 0 <= p < MAX_PROCESS && m.procs[p] != 0 ensures OnStack(d, p) {
      assert OnStack(c, p);
      var t, i :| 0 <= t < |c.stacks| && 0 <= i < |c.stacks[t]| && c.stacks[t][i].pid == p;
      assert d.stacks[t][i].pid == c.stacks[t][i].pid;
    }
  }

  lemma RestartForest(m: Machine, c: Calls, n: Machine, d: Calls, here: Stack)
    requires Forest(m, c) && |c.stacks[c.scheduled]| == 1 && c.stacks[c.scheduled][0].pid == m.scheduled
    requires m.procs[m.scheduled] != 0
    requires d == c.(stacks := c.stacks[c.scheduled := [Frame(m.scheduled, here)]])
    requires Shape(n) && n.running == m.running && n.scheduled == m.scheduled
    requires n.procs == m.procs[m.scheduled := 1] && n.active == m.active[m.scheduled := m.scheduled]
    requires n.pcbs == m.pcbs[m.scheduled := m.pcbs[m.scheduled].(fds := InitialFds(), currPid := m.scheduled,
                                parentPid := NO_PARENT, parent := here, terminalId := m.scheduled)]
    ensures Forest(n, d)
  {
    CountUpdate(m.procs, m.scheduled, 1);
    RestartChains(m, c, n, d, here);
    assert Distinct(d) by { DistinctCarries(c, d); }
    assert forall p :: 0 <= p < MAX_PROCESS && n.procs[p] != 0 ==> m.procs[p] != 0;
  }

  // A halt of a base shell starts the same shell again.
  lemma RestartMatches(m: Machine, c: Calls, status: byte, here: Stack)
    requires Matches(m, c) && CanHalt(m) && |c.stacks[c.scheduled]| == 1 && IsPrefix(Release(m).procs)
    ensures Matches(HaltStep(m, status, here).0, CallStep(c, Halt(status, here)).0)
    ensures HaltStep(m, status, here).1 == CallStep(c, Halt(status, here)).1
  {
    RestartShape(m, c, status, here);
    RestartForest(m, c, HaltStep(m, status, here).0, CallStep(c, Halt(status, here)).0, here);
    OthersKeepContext(m, c, m.scheduled);
  }

  // Parking touches only the scheduling fields of one PCB.
  lemma TickForest(m: Machine, c: Calls, n: Machine, d: Calls)
    requires Forest(m, c) && Shape(n) && ValidCalls(d)
    requires d.stacks == c.stacks && d.scheduled == n.scheduled
    requires n.procs == m.procs && n.running == m.running && n.active == m.active
    requires forall p :: 0 <= p < MAX_PROCESS ==>
      n.pcbs[p] == m.pcbs[p].(schedule := n.pcbs[p].schedule, scheduleEsp0 := n.pcbs[p].scheduleEsp0)
    ensures Forest(n, d)
  {
    forall t | 0 <= t < NUM_TERMINALS ensures ChainIs(n, t, d.stacks[t]) {
      assert ChainIs(m, t, c.stacks[t]);
      forall i | 0 <= i < |d.stacks[t]| ensures FrameMatches(n, t, d.stacks[t], i) {
        assert FrameMatches(m, t, c.stacks[t], i);
      }
    }
    forall p | 0 <= p < MAX_PROCESS && n.procs[p] != 0 ensures OnStack(d, p) {
      assert OnStack(c, p);
      var t, i :| 0 <= t < |c.stacks| && 0 <= i < |c.stacks[t]| && c.stacks[t][i].pid == p;
      assert d.stacks[t][i] == c.stacks[t][i];
    }
  }

  lemma TickMatches(m: Machine, c: Calls, here: Stack)
    requires Matches(m, c) && CanTick(m)
    ensures Matches(TickStep(m, here).0, CallStep(c, Tick(here)).0)
    ensures TickStep(m, here).1 == CallStep(c, Tick(here)).1
  {
    var s := m.scheduled;
    assert ChainIs(m, s, c.stacks[s]);
    assert c.stacks[s][|c.stacks[s]| - 1].pid == m.active[s];
    OthersKeepContext(m, c, m.active[s]);
    TickForest(m, c, TickStep(m, here).0, CallStep(c, Tick(here)).0);
  }

  lemma MaxProcIrrelevant(m: Machine, c: Calls)
    requires Matches(m, c)
    ensures Matches(m.(maxProc := true), c)
  {
    var n := m.(maxProc := true);
    forall t | 0 <= t < NUM_TERMINALS ensures ChainIs(n, t, c.stacks[t]) {
      assert ChainIs(m, t, c.stacks[t]);
      forall i | 0 <= i < |c.stacks[t]| ensures FrameMatches(n, t, c.stacks[t], i) {
        assert FrameMatches(m, t, c.stacks[t], i);
      }
    }
  }

  /** One dense step: the process table does what the three call stacks do, resumes the same place, and keeps
    * the parent chains, the process count and the running context right. */
  lemma StepMatches(m: Machine, c: Calls, e: Event)
    requires Matches(m, c) && DenseStep(m, e)
    ensures Enabled(m, e)
    ensures Matches(Step(m, e).0, CallStep(c, e).0)
    ensures Step(m, e).1 == CallStep(c, e).1
  {
    MatchesEnabled(m, c, e);
    match e
    case Execute(loadable, here) =>
      LiveAgree(m, c);
      if loadable && FirstFree(m.procs) < MAX_PROCESS { ExecuteMatches(m, c, here); }
      else if loadable { MaxProcIrrelevant(m, c); }
    case Halt(status, here) =>
      assert ChainIs(m, m.scheduled, c.stacks[m.scheduled]);
      assert FrameMatches(m, m.scheduled, c.stacks[m.scheduled], |c.stacks[m.scheduled]| - 1);
      if |c.stacks[m.scheduled]| > 1 {
        assert FrameMatches(m, m.scheduled, c.stacks[m.scheduled], |c.stacks[m.scheduled]| - 2);
        ReturnMatches(m, c, status, here);
      } else {
        RestartMatches(m, c, status, here);
      }
    case Tick(here) => TickMatches(m, c, here);
  }

  // ----- whole runs -----

  ghost predicate EnabledRun(m: Machine, events: seq<Event>)
    decreases |events|
  {
    events == [] || (Enabled(m, events[0]) && EnabledRun(Step(m, events[0]).0, events[1..]))
  }

  ghost predicate DenseSteps(m: Machine, events: seq<Event>)
    requires EnabledRun(m, events)
    decreases |events|
  {
    events == [] || (DenseStep(m, events[0]) && DenseSteps(Step(m, events[0]).0, events[1..]))
  }

  ghost predicate DenseRun(m: Machine, events: seq<Event>) {
    EnabledRun(m, events) && DenseSteps(m, events)
  }

  // The final state and what each step resumed.
  ghost function Run(m: Machine, events: seq<Event>): (r: (Machine, seq<Resume>))
    requires EnabledRun(m, events)
    ensures |r.1| == |events|
    decreases |events|
  {
    if events == [] then (m, [])
    else
      var (n, resume) := Step(m, events[0]);
      var (last, resumes) := Run(n, events[1..]);
      (last, [resume] + resumes)
  }

  ghost function CallRun(c: Calls, events: seq<Event>): (r: (Calls, seq<Resume>))
    requires ValidCalls(c)
    ensures ValidCalls(r.0) && |r.1| == |events|
    decreases |events|
  {
    if events == [] then (c, [])
    else
      var (d, resume) := CallStep(c, events[0]);
      var (last, resumes) := CallRun(d, events[1..]);
      (last, [resume] + resumes)
  }

  /** Every dense run of the process table, however execute, halt and the timer interleave on the three terminals,
    * resumes exactly what the three call stacks resume; its parent chains are those stacks, disjoint and covering the
    * live pids; and esp0 and the user page are always the running program's. */
  lemma {:induction false} RunMatches(m: Machine, c: Calls, events: seq<Event>)
    requires Matches(m, c) && DenseRun(m, events)
    ensures Matches(Run(m, events).0, CallRun(c, events).0)
    ensures Run(m, events).1 == CallRun(c, events).1
    decreases |events|
  {
    if events == [] {
    } else {
      StepMatches(m, c, events[0]);
      RunMatches(Step(m, events[0]).0, CallStep(c, events[0]).0, events[1..]);
    }
  }

  // Power-on: no process, no task on any terminal, whatever the PCB slots hold.
  ghost predicate PoweredOn(m: Machine) {
    && Shape(m)
    && m.procs == [0, 0, 0, 0, 0, 0] && m.running == 0
    && m.active == [-1, -1, -1] && m.scheduled == 0
  }

  function Booted(a: Stack, b: Stack, c: Stack): (calls: Calls)
    ensures ValidCalls(calls)
  {
    Calls([[Frame(0, a)], [Frame(1, b)], [Frame(2, c)]], [b, c, c], 2)
  }

  lemma FirstFreeAt(procs: seq<nat>, n: nat)
    requires n < |procs| && procs[n] == 0 && forall p :: 0 <= p < n ==> procs[p] != 0
    ensures FirstFree(procs) == n
  {}

  lemma BootStep(m: Machine, h: Stack)
    requires CanTick(m) && m.active[m.scheduled] < 0 && FirstFree(m.procs) < MAX_PROCESS
    ensures Step(m, Tick(h)) == (Launch(m, h), Enter(FirstFree(m.procs)))
  {}

  lemma BootNext(m: Machine, h: Stack)
    requires CanTick(m) && m.active[m.scheduled] >= 0 && m.active[NextTerminal(m.scheduled)] < 0 &&
      FirstFree(m.procs) < MAX_PROCESS
    ensures Step(m, Tick(h)) == (Launch(Park(m, h), h), Enter(FirstFree(m.procs)))
  {}

  lemma RunCons(m: Machine, e: Event, rest: seq<Event>)
    requires Enabled(m, e) && DenseStep(m, e) && DenseRun(Step(m, e).0, rest)
    ensures DenseRun(m, [e] + rest)
    ensures Run(m, [e] + rest) == (Run(Step(m, e).0, rest).0, [Step(m, e).1] + Run(Step(m, e).0, rest).1)
  {}

  lemma RunOfThree(m: Machine, m1: Machine, m2: Machine, m3: Machine, e: seq<Event>, r: seq<Resume>)
    requires |e| == |r| == 3
    requires Enabled(m, e[0]) && DenseStep(m, e[0]) && Step(m, e[0]) == (m1, r[0])
    requires Enabled(m1, e[1]) && DenseStep(m1, e[1]) && Step(m1, e[1]) == (m2, r[1])
    requires Enabled(m2, e[2]) && DenseStep(m2, e[2]) && Step(m2, e[2]) == (m3, r[2])
    ensures DenseRun(m, e) && Run(m, e) == (m3, r)
  {
    RunCons(m2, e[2], []);
    RunCons(m1, e[1], [e[2]] + []);
    RunCons(m, e[0], [e[1]] + ([e[2]] + []));
    assert e == [e[0]] + ([e[1]] + ([e[2]] + []));
    assert r == [r[0]] + ([r[1]] + ([r[2]] + []));
  }

  lemma BootLaunch(m: Machine, h: Stack, n: nat)
    requires Shape(m) && n < 3 && m.running == n && m.scheduled == n && m.active[n] < 0
    requires forall p :: 0 <= p < MAX_PROCESS ==> m.procs[p] == if p < n then 1 else 0
    ensures FirstFree(m.procs) == n && SlotInRange(m)
    ensures Launch(m, h) ==
      m.(procs := m.procs[n := 1], running := n + 1, userPage := UserPage(n), active := m.active[n := n],
        esp0 := Esp0(n),
         pcbs := m.pcbs[n := m.pcbs[n].(fds := InitialFds(), currPid := n, parentPid := NO_PARENT, parent := h,
           terminalId := n)])
  {
    FirstFreeAt(m.procs, n);
    assert SlotOf(GetPcb(n + 1)) == n;
  }

  lemma CountLiteral(procs: seq<nat>)
    requires procs == [1, 1, 1, 0, 0, 0]
    ensures Count(procs) == 3
  {
    var tail := [0, 0, 0];
    CountZero(tail);
    assert procs[1..] == [1, 1] + tail && procs[1..][1..] == [1] + tail && procs[1..][1..][1..] == tail;
    assert Count(procs[1..][1..]) == 1;
    assert Count(procs[1..]) == 2;
  }

  lemma BootMatches(m: Machine, a: Stack, b: Stack, c: Stack)
    requires Shape(m) && m.procs == [1, 1, 1, 0, 0, 0] && m.running == 3 && m.active == [0, 1, 2] && m.scheduled == 2
    requires forall t :: 0 <= t < 3 ==>
      m.pcbs[t].currPid == m.pcbs[t].terminalId == t && m.pcbs[t].parentPid == NO_PARENT
    requires m.pcbs[0].parent == a && m.pcbs[1].parent == b && m.pcbs[2].parent == c
    requires m.pcbs[0].schedule == b && m.pcbs[1].schedule == c
    requires m.pcbs[0].scheduleEsp0 == Esp0(0) && m.pcbs[1].scheduleEsp0 == Esp0(1)
    requires m.esp0 == Esp0(2) && m.userPage == UserPage(2)
    ensures Matches(m, Booted(a, b, c))
  {
    var d := Booted(a, b, c);
    forall p | 0 <= p < MAX_PROCESS && m.procs[p] != 0 ensures OnStack(d, p) {
      assert d.stacks[p][0].pid == p;
    }
    CountLiteral(m.procs);
  }

  /** Three ticks from power-on start the three base shells and reach the state all runs are taken from. */
  lemma Boot(m: Machine, a: Stack, b: Stack, c: Stack)
    requires PoweredOn(m)
    ensures var events := [Tick(a), Tick(b), Tick(c)];
      && DenseRun(m, events)
      && Matches(Run(m, events).0, Booted(a, b, c))
      && Run(m, events).1 == [Enter(0), Enter(1), Enter(2)]
      && (forall t :: 0 <= t < 3 ==> Run(m, events).0.pcbs[t].fds == InitialFds())
  {
    BootLaunch(m, a, 0);
    BootStep(m, a);
    var m1 := Launch(m, a);
    BootLaunch(Park(m1, b), b, 1);
    BootNext(m1, b);
    var m2 := Launch(Park(m1, b), b);
    BootLaunch(Park(m2, c), c, 2);
    BootNext(m2, c);
    var m3 := Launch(Park(m2, c), c);
    BootMatches(m3, a, b, c);
    RunOfThree(m, m1, m2, m3, [Tick(a), Tick(b), Tick(c)], [Enter(0), Enter(1), Enter(2)]);
  }
}
