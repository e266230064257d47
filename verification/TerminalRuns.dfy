/** Isolation: sharing one console, each terminal behaves as if it had a private one. */
module TerminalRuns {
  import opened Basics
  import opened Bytes
  import opened Console
  import opened ConsolePage
  import opened LineDiscipline
  import opened TerminalModel

  // A terminal on its own.
  datatype Private = Private(screen: Screen, line: Line)

  // What happens to it: a key pressed on it, text its program prints, a line its program reads.
  datatype Local = Pressed(key: Key) | Printed(text: seq<byte>) | Taken(nbytes: nat)

  ghost predicate Possible(p: Private, e: Local) {
    && Shaped(p.line) && p.line.nchars <= LAST && InRange(p.screen)
    && match e
       case Pressed(key) => Safe(p.screen, Echo(p.line, key))
       case Printed(text) => Safe(p.screen, text)
       case Taken(_) => true
  }

  ghost function PrivateStep(p: Private, e: Local): Private
    requires Possible(p, e)
  {
    match e
    case Pressed(key) => Private(Feed(p.screen, Echo(p.line, key)), KeyStep(p.line, key))
    case Printed(text) => Private(Feed(p.screen, text), p.line)
    case Taken(nbytes) => Private(p.screen, ReadLine(p.line, nbytes).0)
  }

  ghost predicate AllPossible(p: Private, es: seq<Local>)
    decreases |es|
  {
    es == [] || (Possible(p, es[0]) && AllPossible(PrivateStep(p, es[0]), es[1..]))
  }

  ghost function PrivateRun(p: Private, es: seq<Local>): Private
    requires AllPossible(p, es)
    decreases |es|
  {
    if es == [] then p else PrivateRun(PrivateStep(p, es[0]), es[1..])
  }

  ghost function PrivateOf(m: Machine, t: nat): Private
    requires Good(m) && t < NUM_TERMINALS
  {
    Private(Logical(m, t), m.terms[t].line)
  }

  // Terminal t's share of a shared event: keys go to the displayed terminal, programs run on the scheduled one.
  ghost function Share(m: Machine, e: Event, t: nat): seq<Local>
    requires Good(m)
  {
    if Presses(m, e) && t == m.displayed then [Pressed(KeyOf(m, e))]
    else if e.Write? && t == m.scheduled then [Printed(Notice(m, e.text))]
    else if e.Read? && t == m.scheduled then [Taken(e.nbytes)]
    else []
  }

  // After `m` terminal u has become `p`, the others are as they were, and the hardware cursor is the displayed
  // terminal's.
  ghost predicate OnlyChanges(m: Machine, n: Machine, u: nat, p: Private)
    requires Good(m)
  {
    && Good(n)
    && (forall t :: 0 <= t < NUM_TERMINALS ==> PrivateOf(n, t) == if t == u then p else PrivateOf(m, t))
  }

  lemma MapChangesNothing(m: Machine, t: nat)
    requires Good(m) && t < NUM_TERMINALS
    ensures Good(MapTo(m, t))
    ensures forall u :: 0 <= u < NUM_TERMINALS ==> PrivateOf(MapTo(m, t), u) == PrivateOf(m, u)
  {}

  // Printing through the mapping of terminal t, and saving its cursor, changes that terminal's screen only.
  lemma PutOn(m: Machine, t: nat, text: seq<byte>)
    requires Good(m) && t < NUM_TERMINALS && Safe(Logical(m, t), text)
    ensures Seen(MapTo(m, t)) == Logical(m, t)
    ensures var put := SaveCursor(Put(MapTo(m, t), text), t);
      var n := if t == m.displayed then Latch(put) else put;
      var s := Feed(Logical(m, t), text);
      && n.displayed == m.displayed && n.scheduled == m.scheduled && n.x == s.x && n.y == s.y
      && OnlyChanges(m, n, t, Private(s, m.terms[t].line))
  {}

  lemma {:induction false} TabBelow(l: Line, n: nat)
    requires Shaped(l) && l.nchars <= LAST
    ensures TypeTab(l, n).nchars <= LAST
  {
    if n == 0 {
    } else {
      TabBelow(l, n - 1);
    }
  }

  lemma KeyBelow(l: Line, key: Key)
    requires Shaped(l) && l.nchars <= LAST
    ensures Shaped(KeyStep(l, key)) && KeyStep(l, key).nchars <= LAST
  {
    TabBelow(l, 4);
  }

  lemma KeyIsolated(m: Machine, key: Key)
    requires Good(m) && Safe(Logical(m, m.displayed), Echo(m.terms[m.displayed].line, key))
    ensures Seen(MapTo(m, m.displayed)) == Logical(m, m.displayed)
    ensures var p := PrivateOf(m, m.displayed);
      var n := HandleKey(MapTo(m, m.displayed), key);
      && OnlyChanges(m, n, m.displayed, PrivateStep(p, Pressed(key)))
      && n.displayed == m.displayed && n.scheduled == m.scheduled && n.x == n.terms[n.displayed].x &&
        n.y == n.terms[n.displayed].y
  {
    var d := m.displayed;
    var line := m.terms[d].line;
    var text := Echo(line, key);
    KeyBelow(line, key);
    var typed := m.(terms := m.terms[d := m.terms[d].(line := KeyStep(line, key))]);
    hide Safe, Feed, KeyStep, Echo;
    assert Good(typed) && Logical(typed, d) == Logical(m, d);
    PutOn(typed, d, text);
    assert MapTo(m, d).(terms := typed.terms) == MapTo(typed, d);
  }

  /** Switching terminals swaps pages and cursors but changes no terminal's own screen. */
  lemma SwitchIsolated(m: Machine, next: nat)
    requires Good(m) && next < NUM_TERMINALS
    ensures var n := SwitchTo(MapTo(m, m.displayed), next);
      && Good(n) && n.displayed == next && n.scheduled == m.scheduled
      && (forall t :: 0 <= t < NUM_TERMINALS ==> PrivateOf(n, t) == PrivateOf(m, t))
      && n.x == n.terms[next].x && n.y == n.terms[next].y
  {}

  lemma DecodeAgrees(m: Machine, code: byte)
    requires m.displayed < |m.terms|
    ensures Decode(code, m.flags).Press? ==> (Presses(m, Scancode(code)) <==> !Dropped(m, code))
    ensures Decode(code, m.flags).Press? || Decode(code, m.flags).ShowTerminal? ==> code < 64
    ensures Decode(code, m.flags).ShowTerminal? ==> Decode(code, m.flags).t < NUM_TERMINALS
  {}

  lemma ShareRuns(m: Machine, e: Event, t: nat)
    requires Enabled(m, e) && t < NUM_TERMINALS
    ensures AllPossible(PrivateOf(m, t), Share(m, e, t))
    ensures PrivateRun(PrivateOf(m, t), Share(m, e, t))
         == if Share(m, e, t) == [] then PrivateOf(m, t) else PrivateStep(PrivateOf(m, t), Share(m, e, t)[0])
  {}

  lemma LatchIdle(m: Machine)
    requires Good(m) && m.x == m.terms[m.displayed].x && m.y == m.terms[m.displayed].y
    ensures Latch(m) == m
  {}

  lemma KeyboardIsolated(m: Machine, code: byte)
    requires Enabled(m, Scancode(code))
    ensures var n := Step(m, Scancode(code));
      && Good(n)
      && (forall t :: 0 <= t < NUM_TERMINALS ==>
            PrivateOf(n, t) == if Share(m, Scancode(code), t) == [] then PrivateOf(m, t)
                               else PrivateStep(PrivateOf(m, t), Pressed(KeyOf(m, Scancode(code)))))
  {
    var e, d := Scancode(code), m.displayed;
    DecodeAgrees(m, code);
    assert Safe(Logical(m, d), Output(m, e, d));
    var action := Decode(code, m.flags);
    hide Safe, Feed, KeyStep, Echo, Decode, PrivateStep;
    if action.SetFlags? || Dropped(m, code) || code >= 64 {
      assert !Presses(m, e);
    } else if action.Press? {
      KeyIsolated(m, action.key);
      var n := HandleKey(MapTo(m, d), action.key);
      LatchIdle(n);
      MapChangesNothing(n, m.scheduled);
    } else if action.ShowTerminal? {
      SwitchIsolated(m, action.t);
      var n := SwitchTo(MapTo(m, d), action.t);
      LatchIdle(n);
      MapChangesNothing(n, m.scheduled);
    } else {
      MapChangesNothing(m, d);
      LatchIdle(MapTo(m, d));
      MapChangesNothing(MapTo(m, d), m.scheduled);
    }
  }

  lemma WriteIsolated(m: Machine, text: seq<byte>)
    requires Enabled(m, Write(text))
    ensures OnlyChanges(m, Step(m, Write(text)), m.scheduled,
      PrivateStep(PrivateOf(m, m.scheduled), Printed(Notice(m, text))))
  {}

  lemma ReadIsolated(m: Machine, nbytes: nat)
    requires Enabled(m, Read(nbytes))
    ensures OnlyChanges(m, Step(m, Read(nbytes)), m.scheduled, PrivateStep(PrivateOf(m, m.scheduled), Taken(nbytes)))
  {}

  /** One step of the shared machine is, on every terminal, that terminal's share of it on a private console and
    * line. */
  lemma StepIsolated(m: Machine, e: Event, t: nat)
    requires Enabled(m, e) && t < NUM_TERMINALS
    ensures Good(Step(m, e))
    ensures AllPossible(PrivateOf(m, t), Share(m, e, t))
    ensures PrivateOf(Step(m, e), t) == PrivateRun(PrivateOf(m, t), Share(m, e, t))
  {
    ShareRuns(m, e, t);
    match e
    case Scancode(code) => KeyboardIsolated(m, code);
    case Write(text) => WriteIsolated(m, text);
    case Read(nbytes) => ReadIsolated(m, nbytes);
    case Tick =>
      var next := (m.scheduled + 1) % NUM_TERMINALS;
      MapChangesNothing(m.(scheduled := next), next);
    case Remap => MapChangesNothing(m, m.scheduled);
    case MaxProcs =>
  }

  // ----- whole runs -----

  ghost predicate AllEnabled(m: Machine, es: seq<Event>)
    decreases |es|
  {
    Good(m) && (es == [] || (Enabled(m, es[0]) && AllEnabled(Step(m, es[0]), es[1..])))
  }

  ghost function Run(m: Machine, es: seq<Event>): (n: Machine)
    requires AllEnabled(m, es)
    ensures Good(n)
    decreases |es|
  {
    if es == [] then m else Run(Step(m, es[0]), es[1..])
  }

  ghost function Shares(m: Machine, es: seq<Event>, t: nat): seq<Local>
    requires AllEnabled(m, es)
    decreases |es|
  {
    if es == [] then [] else Share(m, es[0], t) + Shares(Step(m, es[0]), es[1..], t)
  }

  lemma {:induction false} PrivateAppend(p: Private, a: seq<Local>, b: seq<Local>)
    requires AllPossible(p, a) && AllPossible(PrivateRun(p, a), b)
    ensures AllPossible(p, a + b) && PrivateRun(p, a + b) == PrivateRun(PrivateRun(p, a), b)
    decreases |a|
  {
    if a == [] {
      assert a + b == b;
    } else {
      assert (a + b)[0] == a[0] && (a + b)[1..] == a[1..] + b;
      PrivateAppend(PrivateStep(p, a[0]), a[1..], b);
    }
  }

  /** Terminal isolation: after any interleaving of writes, keys, reads, terminal switches and ticks, each terminal's
    * screen, cursor and edited line are what a private terminal gives on that terminal's own share of the run, and
    * the hardware cursor is the displayed terminal's. */
  lemma {:induction false} RunIsolated(m: Machine, es: seq<Event>, t: nat)
    requires AllEnabled(m, es) && t < NUM_TERMINALS
    ensures AllPossible(PrivateOf(m, t), Shares(m, es, t))
    ensures PrivateOf(Run(m, es), t) == PrivateRun(PrivateOf(m, t), Shares(m, es, t))
    ensures var n := Run(m, es); n.cursor == n.terms[n.displayed].y * COLS + n.terms[n.displayed].x
    decreases |es|
  {
    if es == [] {
    } else {
      StepIsolated(m, es[0], t);
      var n := Step(m, es[0]);
      RunIsolated(n, es[1..], t);
      hide Step, Share, Enabled, PrivateOf, PrivateStep, Possible;
      PrivateAppend(PrivateOf(m, t), Share(m, es[0], t), Shares(n, es[1..], t));
    }
  }

  // ----- down to the page -----

  // The bytes a private terminal's console gets, echoes included.
  ghost function TextOf(p: Private, es: seq<Local>): seq<byte>
    requires AllPossible(p, es)
    decreases |es|
  {
    if es == [] then []
    else
      (match es[0]
       case Pressed(key) => Echo(p.line, key)
       case Printed(text) => text
       case Taken(_) => [])
      + TextOf(PrivateStep(p, es[0]), es[1..])
  }

  lemma {:induction false} PrivateScreen(p: Private, es: seq<Local>)
    requires AllPossible(p, es) && InRange(p.screen)
    ensures Safe(p.screen, TextOf(p, es)) && PrivateRun(p, es).screen == Feed(p.screen, TextOf(p, es))
    decreases |es|
  {
    if es == [] {
    } else {
      var q := PrivateStep(p, es[0]);
      var text := match es[0]
        case Pressed(key) => Echo(p.line, key)
        case Printed(t) => t
        case Taken(_) => [];
      assert Safe(p.screen, text) && q.screen == Feed(p.screen, text);
      PrivateScreen(q, es[1..]);
      FeedAppend(p.screen, text, TextOf(q, es[1..]));
    }
  }

  /** Each terminal of the shared machine shows the last 25 rows of the page laid out by its own echoes and output
    * alone: all of them if its page was clear at the start, and from row `first` on if it showed them from there. */
  lemma TerminalShowsItsPage(m: Machine, es: seq<Event>, t: nat, page: Page, first: nat)
    requires AllEnabled(m, es) && t < NUM_TERMINALS && ShowsFrom(Logical(m, t), page, first)
    ensures AllPossible(PrivateOf(m, t), Shares(m, es, t))
    ensures NeverOverEdge(page, TextOf(PrivateOf(m, t), Shares(m, es, t)))
    ensures InRange(Logical(Run(m, es), t))
    ensures ShowsFrom(Logical(Run(m, es), t), PageFeed(page, TextOf(PrivateOf(m, t), Shares(m, es, t))), first)
  {
    RunIsolated(m, es, t);
    PrivateScreen(PrivateOf(m, t), Shares(m, es, t));
    SafeExactly(Logical(m, t), page, first, TextOf(PrivateOf(m, t), Shares(m, es, t)));
    ConsoleRefinesPage(Logical(m, t), page, first, TextOf(PrivateOf(m, t), Shares(m, es, t)));
  }

  // ----- which runs these are -----

  // What a step asks for beside what it prints: Ctrl-L is not a step, and a read waits for its line.
  ghost predicate Orderly(m: Machine, e: Event) {
    && Good(m)
    && !(e.Scancode? && Decode(e.code, m.flags).ClearScreen?)
    && (e.Read? ==> m.terms[m.scheduled].line.enter)
  }

  ghost predicate ValidPages(pages: seq<Page>) {
    |pages| == NUM_TERMINALS && forall t :: 0 <= t < NUM_TERMINALS ==> ValidPage(pages[t])
  }

  // A page for each terminal, shown from row `first` on.
  ghost predicate Showing(m: Machine, pages: seq<Page>, first: nat) {
    Good(m) && |pages| == NUM_TERMINALS && forall t :: 0 <= t < NUM_TERMINALS ==>
      ShowsFrom(Logical(m, t), pages[t], first)
  }

  ghost predicate FitsPages(m: Machine, e: Event, pages: seq<Page>)
    requires Good(m) && ValidPages(pages)
  {
    forall t :: 0 <= t < NUM_TERMINALS ==> NeverOverEdge(pages[t], Output(m, e, t))
  }

  ghost function PagesAfter(m: Machine, e: Event, pages: seq<Page>): (after: seq<Page>)
    requires Good(m) && ValidPages(pages)
    ensures |after| == NUM_TERMINALS
    ensures forall t :: 0 <= t < NUM_TERMINALS ==> after[t] == PageFeed(pages[t], Output(m, e, t))
  {
    seq(NUM_TERMINALS, t requires 0 <= t < NUM_TERMINALS => PageFeed(pages[t], Output(m, e, t)))
  }

  lemma EnabledExactly(m: Machine, e: Event, pages: seq<Page>, first: nat)
    requires Showing(m, pages, first)
    ensures Enabled(m, e) <==> Orderly(m, e) && FitsPages(m, e, pages)
  {
    assert ValidPages(pages);
    hide Decode, Output, ShowsFrom, NeverOverEdge, Safe;
    forall t | 0 <= t < NUM_TERMINALS
      ensures Safe(Logical(m, t), Output(m, e, t)) <==> NeverOverEdge(pages[t], Output(m, e, t))
    {
      SafeExactly(Logical(m, t), pages[t], first, Output(m, e, t));
    }
  }

  lemma ScreenAfter(m: Machine, e: Event, t: nat)
    requires Enabled(m, e) && t < NUM_TERMINALS
    ensures Good(Step(m, e)) && Safe(Logical(m, t), Output(m, e, t))
    ensures Logical(Step(m, e), t) == Feed(Logical(m, t), Output(m, e, t))
  {
    StepIsolated(m, e, t);
    ShareRuns(m, e, t);
    hide Decode, Step, Echo, Notice, Safe;
    assert Share(m, e, t) == [] ==> Output(m, e, t) == [];
  }

  lemma TerminalShowing(m: Machine, e: Event, pages: seq<Page>, first: nat, t: nat)
    requires Showing(m, pages, first) && Enabled(m, e) && t < NUM_TERMINALS
    ensures ValidPage(pages[t]) && Good(Step(m, e))
    ensures ShowsFrom(Logical(Step(m, e), t), PageFeed(pages[t], Output(m, e, t)), first)
  {
    ScreenAfter(m, e, t);
    ShowsMeans(Logical(m, t), pages[t], first);
    hide Step, Output, ShowsFrom, Safe, Enabled;
    FeedShows(Logical(m, t), pages[t], first, Output(m, e, t));
  }

  lemma StepShowing(m: Machine, e: Event, pages: seq<Page>, first: nat)
    requires Showing(m, pages, first) && Enabled(m, e)
    ensures ValidPages(pages) && Showing(Step(m, e), PagesAfter(m, e, pages), first)
  {
    assert ValidPages(pages);
    TerminalShowing(m, e, pages, first, 0);
    hide Step, Output, ShowsFrom, Safe, Enabled, Good, PagesAfter, PageFeed;
    forall t | 0 <= t < NUM_TERMINALS ensures ShowsFrom(Logical(Step(m, e), t), PagesAfter(m, e, pages)[t], first) {
      TerminalShowing(m, e, pages, first, t);
    }
  }

  // Every step is orderly, and nothing it prints backs over the left edge of the page its terminal has by then.
  ghost predicate AllFitPages(m: Machine, es: seq<Event>, pages: seq<Page>, first: nat)
    requires Showing(m, pages, first)
    decreases |es|
  {
    es == [] ||
    (Orderly(m, es[0]) && FitsPages(m, es[0], pages) &&
     (EnabledExactly(m, es[0], pages, first);
      StepShowing(m, es[0], pages, first);
      AllFitPages(Step(m, es[0]), es[1..], PagesAfter(m, es[0], pages), first)))
  }

  /** The runs the theorems above speak of are exactly those whose steps are orderly and whose output, on the page of
    * its own terminal, never backs over the left edge of a lower row. */
  lemma {:induction false} RunsExactly(m: Machine, es: seq<Event>, pages: seq<Page>, first: nat)
    requires Showing(m, pages, first)
    ensures AllEnabled(m, es) <==> AllFitPages(m, es, pages, first)
    decreases |es|
  {
    if es == [] {
    } else {
      EnabledExactly(m, es[0], pages, first);
      if Enabled(m, es[0]) {
        StepShowing(m, es[0], pages, first);
        hide Step, Enabled, Orderly, FitsPages, Showing, PagesAfter;
        RunsExactly(Step(m, es[0]), es[1..], PagesAfter(m, es[0], pages), first);
      }
    }
  }

  // ----- up to terminal_read -----

  ghost function KeysIn(es: seq<Local>): seq<Key> {
    if es == [] then [] else (if es[0].Pressed? then [es[0].key] else []) + KeysIn(es[1..])
  }

  lemma {:induction false} LineOfRun(p: Private, es: seq<Local>)
    requires AllPossible(p, es) && Shaped(p.line) && p.line.nchars <= LAST
    requires forall i :: 0 <= i < |es| ==> !es[i].Taken?
    ensures PrivateRun(p, es).line == HandleAll(p.line, KeysIn(es))
    decreases |es|
  {
    if es == [] {
    } else {
      var q := PrivateStep(p, es[0]);
      if es[0].Pressed? {
        assert KeysIn(es)[1..] == KeysIn(es[1..]);
        KeyBelow(p.line, es[0].key);
      } else {
        assert KeysIn(es) == KeysIn(es[1..]);
      }
      LineOfRun(q, es[1..]);
    }
  }

  lemma {:induction false} HandleAllSnoc(l: Line, keys: seq<Key>, key: Key)
    requires Shaped(l) && l.nchars <= LINE
    ensures HandleAll(l, keys + [key]) == KeyStep(HandleAll(l, keys), key)
    decreases |keys|
  {
    if keys == [] {
      assert keys + [key] == [key] && [key][1..] == [];
    } else {
      assert (keys + [key])[0] == keys[0] && (keys + [key])[1..] == keys[1..] + [key];
      HandleAllSnoc(KeyStep(l, keys[0]), keys[1..], key);
    }
  }

  lemma SharedLine(m: Machine, es: seq<Event>, t: nat)
    requires AllEnabled(m, es) && t < NUM_TERMINALS
    requires var share := Shares(m, es, t); forall i :: 0 <= i < |share| ==> !share[i].Taken?
    ensures Run(m, es).terms[t].line == HandleAll(m.terms[t].line, KeysIn(Shares(m, es, t)))
  {
    RunIsolated(m, es, t);
    LineOfRun(PrivateOf(m, t), Shares(m, es, t));
  }

  lemma LineStarts(m: Machine, es: seq<Event>, t: nat)
    requires AllEnabled(m, es) && t < NUM_TERMINALS
    ensures t < |m.terms| && Shaped(m.terms[t].line) && m.terms[t].line.nchars <= LINE
    ensures m.terms[t].line.nchars == 0 ==> Holds(m.terms[t].line, [])
  {}

  lemma EnterEnds(l: Line)
    requires Shaped(l) && l.nchars <= LINE
    ensures KeyStep(l, Enter) == EndLine(l) && EndLine(l).enter
  {}

  lemma ReadEnabled(m: Machine, nbytes: nat)
    requires Good(m) && m.terms[m.scheduled].line.enter
    ensures Enabled(m, Read(nbytes))
  {}

  /** Whatever the other terminals did meanwhile and whatever this one printed, when the keys pressed on terminal t
    * since its last read end in Enter, its reader is awake and gets the first min(nbytes, length + 1) bytes of that
    * line and its newline. */
  lemma SharedReadDelivers(m: Machine, es: seq<Event>, t: nat, keys: seq<Key>, nbytes: nat)
    requires AllEnabled(m, es) && t < NUM_TERMINALS && nbytes > 0
    requires m.terms[t].line.nchars == 0 && KeysFit([], keys)
    requires var share := Shares(m, es, t);
      KeysIn(share) == keys + [Enter] && forall i :: 0 <= i < |share| ==> !share[i].Taken?
    ensures var text := Expand(TokensOf([], keys)) + [NEWLINE];
      var (after, bytes, r) := ReadLine(Run(m, es).terms[t].line, nbytes);
      r == Min(nbytes, |text|) && bytes == text[..r]
    ensures var n := Run(m, es); n.terms[t].line.enter && (n.scheduled == t ==> Enabled(n, Read(nbytes)))
  {
    hide *;
    LineStarts(m, es, t);
    var start := m.terms[t].line;
    SharedLine(m, es, t);
    HandleAllSnoc(start, keys, Enter);
    HandledHold(start, [], keys);
    HeldDelivers(HandleAll(start, keys), TokensOf([], keys), nbytes);
    EnterEnds(HandleAll(start, keys));
    if Run(m, es).scheduled == t { ReadEnabled(Run(m, es), nbytes); }
  }
}
