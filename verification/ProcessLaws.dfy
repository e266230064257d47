/** What the call stacks promise, carried over to dense runs of the process table: execute and halt bracket,
  * and the timer is a fair round robin that returns to each terminal where it was stopped. */
module ProcessLaws {
  import opened Basics
  import opened Bytes
  import opened ProcessModel
  import opened ProcessRuns

  // Terminal t never has fewer than `depth` programs on its stack.
  ghost predicate StaysAbove(c: Calls, events: seq<Event>, t: nat, depth: nat)
    requires ValidCalls(c) && t < NUM_TERMINALS
    decreases |events|
  {
    && |c.stacks[t]| >= depth
    && (events == [] || StaysAbove(CallStep(c, events[0]).0, events[1..], t, depth))
  }

  lemma {:induction false} FramesKept(c: Calls, events: seq<Event>, t: nat, depth: nat)
    requires ValidCalls(c) && t < NUM_TERMINALS && depth >= 2 && StaysAbove(c, events, t, depth)
    ensures var d := CallRun(c, events).0; |d.stacks[t]| >= depth && d.stacks[t][..depth] == c.stacks[t][..depth]
    decreases |events|
  {
    if events == [] {
    } else {
      var d := CallStep(c, events[0]).0;
      assert |d.stacks[t]| >= depth;
      assert d.stacks[t][..depth] == c.stacks[t][..depth];
      FramesKept(d, events[1..], t, depth);
    }
  }

  lemma {:induction false} CallRunAppend(c: Calls, a: seq<Event>, b: seq<Event>)
    requires ValidCalls(c)
    ensures CallRun(c, a + b).0 == CallRun(CallRun(c, a).0, b).0
    ensures CallRun(c, a + b).1 == CallRun(c, a).1 + CallRun(CallRun(c, a).0, b).1
    decreases |a|
  {
    var ab := a + b;
    if a == [] {
      assert ab == b;
    } else {
      assert ab[0] == a[0] && ab[1..] == a[1..] + b;
      var (d, r) := CallStep(c, a[0]);
      CallRunAppend(d, a[1..], b);
      var middle, tail := CallRun(d, a[1..]).1, CallRun(CallRun(d, a[1..]).0, b).1;
      assert CallRun(c, a).1 == [r] + middle;
      assert CallRun(c, ab).1 == [r] + CallRun(d, ab[1..]).1;
      assert [r] + (middle + tail) == ([r] + middle) + tail;
    }
  }

  lemma OneCall(c: Calls, e: Event)
    requires ValidCalls(c)
    ensures CallRun(c, [e]) == (CallStep(c, e).0, [CallStep(c, e).1])
  {
    var (d, r) := CallStep(c, e);
    assert [e][1..] == [] && CallRun(d, []) == (d, []);
    assert [r] + [] == [r];
  }

  lemma LastResume(c: Calls, first: Event, middle: seq<Event>, last: Event)
    requires ValidCalls(c)
    ensures CallRun(c, [first] + middle + [last]).1[|middle| + 1]
         == CallStep(CallRun(CallStep(c, first).0, middle).0, last).1
  {
    OneCall(c, first);
    CallRunAppend(c, [first], middle);
    CallRunAppend(c, [first] + middle, [last]);
    OneCall(CallRun(c, [first] + middle).0, last);
  }

  /** Execute and halt are well bracketed: whatever ran in between, on this terminal and the others, the halt that
    * takes the terminal back to the depth of an execute returns to the stack that execute saved, with the halting
    * program's status. */
  lemma HaltReturnsToExecute(m: Machine, c: Calls, here: Stack, between: seq<Event>, status: byte, last: Stack)
    requires Matches(m, c) && FirstFree(LivePids(c)) < MAX_PROCESS
    requires DenseRun(m, [Execute(true, here)] + between + [Halt(status, last)])
    requires var depth := |c.stacks[c.scheduled]| + 1;
      var start := CallStep(c, Execute(true, here)).0;
      var end := CallRun(start, between).0;
      StaysAbove(start, between, c.scheduled, depth) && end.scheduled == c.scheduled &&
        |end.stacks[c.scheduled]| == depth
    ensures Run(m, [Execute(true, here)] + between + [Halt(status, last)]).1[|between| + 1] == Return(here, status)
  {
    var first, halt := [Execute(true, here)], [Halt(status, last)];
    var depth := |c.stacks[c.scheduled]| + 1;
    var start := CallStep(c, first[0]).0;
    var end := CallRun(start, between).0;
    FramesKept(start, between, c.scheduled, depth);
    assert end.stacks[c.scheduled] == end.stacks[c.scheduled][..depth];
    assert start.stacks[c.scheduled][..depth][depth - 1].caller == here;
    RunMatches(m, c, first + between + halt);
    LastResume(c, first[0], between, halt[0]);
  }

  // ----- the timer -----

  function Ticks(events: seq<Event>): (n: nat) {
    if events == [] then 0 else (if events[0].Tick? then 1 else 0) + Ticks(events[1..])
  }

  // The terminal whose turn it is after n ticks.
  function Turned(s: nat, n: nat): (t: nat)
    ensures t < NUM_TERMINALS
  {
    (s + n) % NUM_TERMINALS
  }

  lemma OneTurn(s: nat, n: nat)
    ensures Turned(NextTerminal(s), n) == Turned(s, 1 + n)
    ensures s < NUM_TERMINALS ==> Turned(s, 0) == s
  {}

  lemma {:induction false} CallsTakeTurns(c: Calls, events: seq<Event>)
    requires ValidCalls(c)
    ensures CallRun(c, events).0.scheduled == Turned(c.scheduled, Ticks(events))
    decreases |events|
  {
    hide Turned, NextTerminal;
    if events == [] {
      OneTurn(c.scheduled, 0);
    } else {
      CallsTakeTurns(CallStep(c, events[0]).0, events[1..]);
      OneTurn(c.scheduled, Ticks(events[1..]));
    }
  }

  // Every terminal has a task, as it has from the third tick on.
  ghost predicate AllActive(m: Machine) {
    Shape(m) && forall t :: 0 <= t < NUM_TERMINALS ==> 0 <= m.active[t]
  }

  lemma StepTakesTurn(m: Machine, e: Event)
    requires AllActive(m) && Enabled(m, e)
    ensures AllActive(Step(m, e).0)
    ensures Step(m, e).0.scheduled == if e.Tick? then NextTerminal(m.scheduled) else m.scheduled
  {
    if e.Halt? {
      var freed := m.pcbs[m.active[m.scheduled]].currPid;
      assert Release(m).procs[freed] == 0;
    }
  }

  /** Only ticks change the scheduled terminal, and they go round the three terminals in order; for this a run need
    * not be dense. */
  lemma {:induction false} RoundRobin(m: Machine, events: seq<Event>)
    requires AllActive(m) && EnabledRun(m, events)
    ensures AllActive(Run(m, events).0)
    ensures Run(m, events).0.scheduled == Turned(m.scheduled, Ticks(events))
    decreases |events|
  {
    hide Turned;
    if events == [] {
      OneTurn(m.scheduled, 0);
    } else {
      StepTakesTurn(m, events[0]);
      hide AllActive, Enabled, Step, NextTerminal;
      var n, rest := Step(m, events[0]).0, events[1..];
      assert Run(m, events).0 == Run(n, rest).0;
      assert Ticks(events) == (if events[0].Tick? then 1 else 0) + Ticks(rest);
      RoundRobin(n, rest);
      hide Run, Ticks, EnabledRun;
      OneTurn(m.scheduled, Ticks(rest));
    }
  }

  lemma {:induction false} TicksAppend(a: seq<Event>, b: seq<Event>)
    ensures Ticks(a + b) == Ticks(a) + Ticks(b)
  {
    if a == [] {
      assert a + b == b;
    } else {
      assert (a + b)[1..] == a[1..] + b;
      TicksAppend(a[1..], b);
    }
  }

  lemma Thirds(s: nat)
    requires s < NUM_TERMINALS
    ensures {Turned(s, 1), Turned(s, 2), Turned(s, 3)} == {0, 1, 2}
  {}

  /** Any three consecutive ticks of a run, with whatever happens between them, schedule each terminal once. */
  lemma ThreeTicksScheduleAll(m: Machine, a: seq<Event>, b: seq<Event>, d: seq<Event>)
    requires AllActive(m) && Ticks(a) == Ticks(b) == Ticks(d) == 1
    requires EnabledRun(m, a) && EnabledRun(m, a + b) && EnabledRun(m, a + b + d)
    ensures {Run(m, a).0.scheduled, Run(m, a + b).0.scheduled, Run(m, a + b + d).0.scheduled} == {0, 1, 2}
  {
    assert m.scheduled < NUM_TERMINALS;
    hide Run, EnabledRun, AllActive, Ticks, Turned;
    RoundRobin(m, a);
    RoundRobin(m, a + b);
    RoundRobin(m, a + b + d);
    TicksAppend(a, b);
    TicksAppend(a + b, d);
    Thirds(m.scheduled);
  }

  // Until its turn comes round again, where terminal t was parked stays put.
  lemma {:induction false} ParkedKept(c: Calls, t: nat, k: nat, events: seq<Event>)
    requires ValidCalls(c) && t < NUM_TERMINALS
    requires 1 <= k && c.scheduled == (t + k) % NUM_TERMINALS && k + Ticks(events) <= 3
    ensures CallRun(c, events).0.parked[t] == c.parked[t]
    decreases |events|
  {
    if events != [] {
      var d := CallStep(c, events[0]).0;
      if events[0].Tick? {
        ParkedKept(d, t, k + 1, events[1..]);
      } else {
        ParkedKept(d, t, k, events[1..]);
      }
    }
  }

  lemma CallsGoOn(c: Calls, here: Stack, middle: seq<Event>, last: Stack)
    requires ValidCalls(c) && Ticks(middle) == 1
    ensures var start := CallStep(c, Tick(here)).0;
      var end := CallRun(start, middle).0;
      CallStep(end, Tick(last)).1 == Switch(here)
  {
    var start := CallStep(c, Tick(here)).0;
    ParkedKept(start, c.scheduled, 1, middle);
    CallsTakeTurns(start, middle);
  }

  /** A terminal stopped by a tick goes on, two ticks later, from the very stack it was stopped with, whatever the other
    * two terminals executed and halted meanwhile. */
  lemma StoppedTerminalGoesOn(m: Machine, c: Calls, here: Stack, middle: seq<Event>, last: Stack)
    requires Matches(m, c) && Ticks(middle) == 1
    requires DenseRun(m, [Tick(here)] + middle + [Tick(last)])
    ensures Run(m, [Tick(here)] + middle + [Tick(last)]).1[|middle| + 1] == Switch(here)
  {
    RunMatches(m, c, [Tick(here)] + middle + [Tick(last)]);
    CallsGoOn(c, here, middle, last);
    LastResume(c, Tick(here), middle, Tick(last));
  }

  // ----- the running context in numbers -----

  lemma ContextAddresses(m: Machine, c: Calls)
    requires Matches(m, c)
    ensures 0 <= m.active[m.scheduled] < MAX_PROCESS
    ensures m.esp0 == 0x80_0000 - 0x2000 * m.active[m.scheduled] - 4
    ensures m.userPage == 0x800 + 0x400 * m.active[m.scheduled]
  {
    var t := m.scheduled;
    assert ChainIs(m, t, c.stacks[t]);
    assert FrameMatches(m, t, c.stacks[t], |c.stacks[t]| - 1);
    KernelStackTop(m.active[t]);
    UserPageIsFrame(m.active[t]);
  }

  /** At the end of every dense run a system call of the running program gets the top of that program's own 8 KB slot as
    * its stack, and the program's addresses from 0x8000000 on reach its own 4 MB of memory. */
  lemma RunContext(m: Machine, c: Calls, events: seq<Event>, linear: nat)
    requires Matches(m, c) && DenseRun(m, events) && 0x800_0000 <= linear < 0x840_0000
    ensures var n := Run(m, events).0;
      && Shape(n)
      && var pid := n.active[n.scheduled];
      && 0 <= pid < MAX_PROCESS
      && n.esp0 == 0x80_0000 - 0x2000 * pid - 4
      && n.userPage == 0x800 + 0x400 * pid
      && Physical(n.userPage, linear) == 0x80_0000 + 0x40_0000 * pid + (linear - 0x800_0000)
  {
    RunMatches(m, c, events);
    var n := Run(m, events).0;
    ContextAddresses(n, CallRun(c, events).0);
    hide Run, CallRun, Matches, Esp0, GetPcbByPid;
    var pid := n.active[n.scheduled];
    UserPageIsFrame(pid);
    FramesDisjoint(pid, if pid == 0 then 1 else 0, linear, linear);
  }

  // ----- what a step leaves behind -----

  /** The process-limit flag is raised by an execute of a loadable program while all six pids are live, and by nothing
    * else. */
  lemma LimitRaised(m: Machine, e: Event)
    requires Enabled(m, e)
    ensures Step(m, e).0.maxProc <==>
      m.maxProc || (e.Execute? && e.loadable && forall p :: 0 <= p < MAX_PROCESS ==> m.procs[p] != 0)
  {
    var free := FirstFree(m.procs);
    assert free < MAX_PROCESS ==> m.procs[free] == 0;
    if e.Halt? {
      assert Release(m).procs[m.pcbs[m.active[m.scheduled]].currPid] == 0;
    }
  }

  /** A program that halts to its caller leaves its pid free and all its descriptors closed, and no other record
    * changes. */
  lemma HaltFrees(m: Machine, c: Calls, status: byte, here: Stack)
    requires Matches(m, c) && CanHalt(m) && |c.stacks[c.scheduled]| > 1
    ensures var pid, n := m.active[m.scheduled], HaltStep(m, status, here).0;
      && n.procs == m.procs[pid := 0] && m.procs[pid] != 0
      && |n.pcbs[pid].fds| == 8 && (forall i :: 0 <= i < 8 ==> !n.pcbs[pid].fds[i].inUse)
      && (forall p :: 0 <= p < MAX_PROCESS && p != pid ==> n.pcbs[p] == m.pcbs[p])
  {
    assert ChainIs(m, m.scheduled, c.stacks[m.scheduled]);
    ReturnShape(m, c, status, here);
  }

  // ----- outside dense runs -----

  lemma ThreeShells(m: Machine, c: Calls)
    requires Matches(m, c) && forall t :: 0 <= t < NUM_TERMINALS ==> |c.stacks[t]| == 1
    ensures forall p :: 0 <= p < MAX_PROCESS ==> (m.procs[p] != 0 <==> p < 3)
    ensures forall t :: 0 <= t < 3 ==> m.active[t] == t && m.pcbs[t].currPid == t && m.pcbs[t].parentPid == NO_PARENT
    ensures m.running == 3
  {
    forall t | 0 <= t < 3
      ensures c.stacks[t][0].pid == t
      ensures m.procs[t] != 0 && m.active[t] == t && m.pcbs[t].currPid == t && m.pcbs[t].parentPid == NO_PARENT
    {
      assert ChainIs(m, t, c.stacks[t]);
      assert FrameMatches(m, t, c.stacks[t], 0);
    }
    forall p | 0 <= p < MAX_PROCESS && m.procs[p] != 0 ensures p < 3 {
      assert OnStack(c, p);
      var t, i :| 0 <= t < |c.stacks| && 0 <= i < |c.stacks[t]| && c.stacks[t][i].pid == p;
      assert i == 0;
    }
    FirstFreeAt(m.procs, 3);
    FirstFreeIsCount(m.procs);
  }

  /** Without density the property fails. With the three base shells running, shell 0 exits: its restart takes pid 0
    * again but writes its record over live shell 2's PCB, which then names pid 0, so terminal 2 has lost its chain. */
  lemma RestartOutOfOrder(m: Machine, c: Calls, status: byte, here: Stack)
    requires Matches(m, c) && m.scheduled == 0 && forall t :: 0 <= t < NUM_TERMINALS ==> |c.stacks[t]| == 1
    ensures CanHalt(m) && !DenseStep(m, Halt(status, here))
    ensures var n := HaltStep(m, status, here).0;
      && n.active[0] == 0 && n.active[2] == 2 && n.procs[2] != 0
      && n.pcbs[2].currPid == 0
      && (forall stack :: !ChainIs(n, 2, stack))
  {
    ThreeShells(m, c);
    var r := Release(m);
    assert FirstFree(r.procs) == 0;
    assert r.procs[1] != 0;
    var n := HaltStep(m, status, here).0;
    assert SlotOf(GetPcb(r.running + 1)) == 2;
    forall stack ensures !ChainIs(n, 2, stack) {
      assert ChainIs(n, 2, stack) ==> FrameMatches(n, 2, stack, 0);
    }
  }
}
