/** The terminals of student-distrib/keyboard.c in place, proved to take the steps of TerminalModel. */
module Keyboard {
  import opened Basics
  import opened Bytes
  import opened Console
  import opened ConsolePage
  import opened LineDiscipline
  import opened TerminalModel
  import opened VideoMemory
  import TerminalLaws
  import TerminalRuns

  lemma {:induction false} FullTabs(l: Line, i: nat, n: nat)
    requires Shaped(l) && i <= n && (i == n || TypeTab(l, i).nchars > LAST)
    ensures TypeTab(l, n) == TypeTab(l, i)
  {
    if i >= n {
    } else {
      FullTabs(l, i, n - 1);
    }
  }

  class Terminal {
    const lineBuffer: array<byte>
    const tabBuffer: array<byte>
    var nchars: nat
    var screenX: int
    var screenY: int
    var enterFlag: bool

    constructor ()
      ensures fresh(lineBuffer) && fresh(tabBuffer) && lineBuffer != tabBuffer
      ensures lineBuffer.Length == tabBuffer.Length == LINE
      ensures nchars == 0 && screenX == 0 && screenY == 0 && !enterFlag
    {
      lineBuffer := new byte[LINE](i => 0);
      tabBuffer := new byte[LINE](i => 0);
      nchars, screenX, screenY, enterFlag := 0, 0, 0, false;
    }

    ghost predicate Valid()
      reads this
    {
      lineBuffer.Length == tabBuffer.Length == LINE && lineBuffer != tabBuffer
    }

    function LineOf(): Line
      reads this, lineBuffer, tabBuffer
    {
      Line(lineBuffer[..], tabBuffer[..], nchars, enterFlag)
    }

    function Value(): Term
      reads this, lineBuffer, tabBuffer
    {
      Term(LineOf(), screenX, screenY)
    }

    // The buffer part of terminal_putc.
    method StoreChar(c: byte) returns (echo: bool)
      requires Valid()
      modifies this`nchars, lineBuffer, tabBuffer
      ensures LineOf() == TypeChar(old(LineOf()), c)
      ensures echo <==> old(nchars) <= LAST
    {
      echo := true;
      if nchars == LAST {
        lineBuffer[nchars] := NEWLINE;
        tabBuffer[nchars] := NEWLINE;
      } else if nchars < LAST {
        lineBuffer[nchars] := c;
        tabBuffer[nchars] := c;
        nchars := nchars + 1;
      } else {
        echo := false;
      }
    }

    // The loop of terminal_tab.
    method StoreTab()
      requires Valid()
      modifies this`nchars, lineBuffer, tabBuffer
      ensures LineOf() == TypeTab(old(LineOf()), 4)
    {
      ghost var start := LineOf();
      var i, n := 0, nchars;
      while i < 4
        invariant 0 <= i <= 4 && n == nchars
        invariant LineOf() == TypeTab(start, i)
      {
        assert TypeTab(start, i + 1) == (
          var k := TypeTab(start, i);
          if k.nchars == LAST then Store(k, LAST, NEWLINE, NEWLINE)
          else if k.nchars < LAST then Store(k, k.nchars, SPACE, TAB).(nchars := k.nchars + 1)
          else k);
        if n == LAST {
          lineBuffer[n] := NEWLINE;
          tabBuffer[n] := NEWLINE;
        } else if n < LAST {
          lineBuffer[n] := SPACE;
          tabBuffer[n] := TAB;
          nchars := nchars + 1;
          n := n + 1;
        } else {
          break;
        }
        i := i + 1;
      }
      FullTabs(start, i, 4);
    }

    // The buffer part of terminal_backspace: how many backspaces to echo.
    method Unstore() returns (echoes: nat)
      requires Valid() && nchars <= LINE
      modifies this`nchars
      ensures LineOf() == Erase(old(LineOf()))
      ensures Echo(old(LineOf()), Backspace) == seq(echoes, i => BACKSPACE)
    {
      echoes := 0;
      if nchars > 0 {
        if tabBuffer[nchars - 1] == TAB {
          if nchars >= 4 { nchars := nchars - 4; } else { nchars := 0; }
          echoes := 4;
        } else {
          nchars := nchars - 1;
          echoes := 1;
        }
      }
    }

    // The buffer part of terminal_new_line.
    method StoreEnter()
      requires Valid()
      modifies this`nchars, this`enterFlag, lineBuffer, tabBuffer
      ensures LineOf() == EndLine(old(LineOf()))
    {
      if nchars >= LINE {
        lineBuffer[LAST] := NEWLINE;
        tabBuffer[LAST] := NEWLINE;
      } else {
        lineBuffer[nchars] := NEWLINE;
        tabBuffer[nchars] := NEWLINE;
      }
      enterFlag := true;
      nchars := 0;
    }

    method TakeCell(i: nat) returns (c: byte)
      requires Valid() && i < LINE
      modifies lineBuffer, tabBuffer
      ensures c == old(LineOf()).buffer[i] && LineOf() == Store(old(LineOf()), i, SPACE, SPACE)
    {
      c := lineBuffer[i];
      lineBuffer[i] := SPACE;
      tabBuffer[i] := SPACE;
    }

    // terminal_read from the wake-up on.
    method TakeLine(nbytes: nat) returns (bytes: seq<byte>, r: nat)
      requires Valid()
      modifies this`nchars, this`enterFlag, lineBuffer, tabBuffer
      ensures (LineOf(), bytes, r) == ReadLine(old(LineOf()), nbytes)
    {
      bytes, r := [], nbytes;
      if nbytes == 0 {
        return;
      }
      enterFlag := false;
      ghost var start := LineOf();
      var i: nat := 0;
      assert Blanked(start, 0) == start;
      hide Take, Blanked;
      while i < nbytes && i < LINE
        invariant i <= nbytes && i <= LINE && r == nbytes
        invariant LineOf() == Blanked(start, i) && bytes == start.buffer[..i]
        invariant forall k :: 0 <= k < i ==> start.buffer[k] != NEWLINE
      {
        TakeEnds(start, nbytes, i);
        BlankedNext(start, i);
        var c := TakeCell(i);
        assert start.buffer[..i + 1] == start.buffer[..i] + [c];
        bytes := bytes + [c];
        if c == NEWLINE {
          r := i + 1;
          nchars := 0;
          return;
        }
        i := i + 1;
      }
      TakeEnds(start, nbytes, i);
      nchars := 0;
    }
  }

  function WithLine(m: Machine, t: nat, line: Line): Machine
    requires t < |m.terms|
  {
    m.(terms := m.terms[t := m.terms[t].(line := line)])
  }

  function SwappedPages(m: Machine, next: nat): Machine
    requires |m.frames| == FRAMES && m.displayed < NUM_TERMINALS && next < NUM_TERMINALS
  {
    var saved := m.frames[m.displayed + 1 := m.frames[0]];
    m.(frames := saved[0 := saved[next + 1]])
  }

  lemma SwitchSteps(m: Machine, next: nat)
    requires Good(m) && m.page == 0 && next < NUM_TERMINALS
    ensures 0 <= m.terms[next].y * COLS + m.terms[next].x < 0x1_0000
    ensures next == m.displayed ==> SwitchTo(m, next) == m
    ensures next != m.displayed ==>
      SwitchTo(m, next) ==
      Latch(SwappedPages(SaveCursor(m, m.displayed).(x := m.terms[next].x, y := m.terms[next].y), next)).(displayed :=
        next)
  {}

  // One branch of keyboard_handler, on the mapped page.
  ghost function Acted(m: Machine, action: Action): Machine
    requires Good(m) && (action.ShowTerminal? ==> action.t < NUM_TERMINALS)
    requires action.Press? ==> Safe(Seen(m), Echo(m.terms[m.displayed].line, action.key))
  {
    match action
    case Press(key) => HandleKey(m, key)
    case ShowTerminal(t) => SwitchTo(m, t)
    case _ => m
  }

  lemma HandledCode(m: Machine, code: byte)
    requires Enabled(m, Scancode(code)) && !Modifier(code, m.flags).0
    ensures m.displayed < NUM_TERMINALS && m.scheduled < NUM_TERMINALS
    ensures !Decode(code, m.flags).SetFlags? && !Decode(code, m.flags).ClearScreen?
  {}

  lemma ActedShows(m: Machine, code: byte)
    requires Good(m) && code < 64
    requires var action := Decode(code, m.flags);
      && !action.SetFlags? && !action.ClearScreen?
      && (action.Press? ==> Safe(Seen(m), Echo(m.terms[m.displayed].line, action.key)))
    ensures Acted(m, Decode(code, m.flags)).displayed ==
      if m.flags.alt && 0x3B <= code <= 0x3D then code - 0x3B else m.displayed
  {
    TerminalLaws.Decoded(code, m.flags);
    hide Safe, Feed, KeyStep, Echo, Decode, Codes;
  }

  lemma ModifierFlags(scancode: byte, f: Flags)
    ensures !Modifier(scancode, f).0 ==> Modifier(scancode, f).1 == f
    ensures Modifier(scancode, f).0 ==> Decode(scancode, f) == SetFlags(Modifier(scancode, f).1)
  {}

  // What the end of keyboard_handler relies on.
  ghost predicate Placed(m: Machine) {
    |m.terms| == NUM_TERMINALS && m.scheduled < NUM_TERMINALS && 0 <= m.y * COLS + m.x < 0x1_0000
  }

  lemma ActsSafely(m: Machine, code: byte)
    requires Enabled(m, Scancode(code)) && !Dropped(m, code) && code < 64
    ensures var shown, action := MapTo(m, m.displayed), Decode(code, m.flags);
      action.Press? ==> Safe(Seen(shown), Echo(m.terms[m.displayed].line, action.key))
  {
    hide Safe;
    SeenIsLogical(m, m.displayed);
    assert Safe(Logical(m, m.displayed), Output(m, Scancode(code), m.displayed));
  }

  lemma ActedOn(m: Machine, code: byte)
    requires Enabled(m, Scancode(code))
    ensures var action := Decode(code, m.flags);
      if action.SetFlags? then Step(m, Scancode(code)) == m.(flags := action.flags)
      else if Dropped(m, code) || code >= 64 then Step(m, Scancode(code)) == m
      else
        var shown := MapTo(m, m.displayed);
        && Good(shown)
        && (action.Press? ==> Safe(Seen(shown), Echo(m.terms[m.displayed].line, action.key)))
        && Placed(Acted(shown, action))
        && Step(m, Scancode(code)) == MapTo(Latch(Acted(shown, action)), m.scheduled)
  {
    hide Safe, Feed, KeyStep, Echo;
    SeenIsLogical(m, m.displayed);
    if !Dropped(m, code) && code < 64 {
      ActsSafely(m, code);
      assert forall t :: 0 <= t < NUM_TERMINALS ==> GoodTerm(m.terms[t]);
    }
  }

  lemma SafeInRange(s: Screen, text: seq<byte>)
    requires Safe(s, text)
    ensures InRange(s)
  {}

  lemma SameNotice(m: Machine, k: Machine, text: seq<byte>)
    requires m.maxProc == k.maxProc
    ensures Notice(m, text) == Notice(k, text)
  {}

  lemma SafeNotice(m: Machine, text: seq<byte>)
    requires Enabled(m, Write(text))
    ensures Safe(Logical(m, m.scheduled), Notice(m, text))
  {}

  class Keyboard {
    const video: Video
    const terminals: seq<Terminal>
    var displayed: nat
    var scheduled: nat
    var shift: bool
    var ctrl: bool
    var caps: bool
    var alt: bool
    var maxProc: bool

    static ghost predicate Apart(t: Terminal, a: array<byte>) { t.lineBuffer != a && t.tabBuffer != a }

    // Three terminals that share nothing but the video memory.
    ghost predicate Layout()
      reads this, video, terminals
    {
      && |terminals| == NUM_TERMINALS && video.Valid()
      && (forall t :: 0 <= t < NUM_TERMINALS ==> terminals[t].Valid() && Apart(terminals[t], video.mem))
      && (forall t, u :: 0 <= t < u < NUM_TERMINALS ==>
            terminals[t] != terminals[u]
            && Apart(terminals[t], terminals[u].lineBuffer) && Apart(terminals[t], terminals[u].tabBuffer))
    }

    ghost function State(): Machine
      requires Layout()
      reads this, video, video.mem, terminals, set t | t in terminals :: t.lineBuffer,
        set t | t in terminals :: t.tabBuffer
    {
      Machine([video.Frame(0), video.Frame(1), video.Frame(2), video.Frame(3)],
              video.page, video.screenX, video.screenY, video.cursor,
              [terminals[0].Value(), terminals[1].Value(), terminals[2].Value()],
              displayed, scheduled, Flags(shift, ctrl, caps, alt), maxProc)
    }

    ghost predicate Valid()
      reads this, video, video.mem, terminals, set t | t in terminals :: t.lineBuffer,
        set t | t in terminals :: t.tabBuffer
    {
      Layout() && Good(State())
    }

    // Whether the line takes no more keys of this kind.
    predicate Full(scancode: byte)
      requires Layout() && displayed < NUM_TERMINALS
      reads this, video, terminals
    {
      var plain := Codes(scancode).0;
      terminals[displayed].nchars >= LAST && plain != CODE_ENTER && plain != CODE_BACKSPACE &&
        !(ctrl && plain == 108) && !alt
    }

    lemma FullIsDropped(scancode: byte)
      requires Layout() && displayed < NUM_TERMINALS
      ensures Full(scancode) == Dropped(State(), scancode)
    {}

    static ghost predicate Untouched(t: Terminal)
      reads t
    {
      t.screenX == 0 && t.screenY == 0 && t.nchars == 0 && !t.enterFlag
    }

    lemma StartsValid()
      requires Layout() && video.cursor == 0 && displayed < NUM_TERMINALS && scheduled < NUM_TERMINALS
      requires forall t :: 0 <= t < NUM_TERMINALS ==> Untouched(terminals[t])
      ensures Valid()
    {}

    // terminals_init
    constructor (video: Video)
      requires video.Valid() && video.page == 0 && video.cursor == 0
      ensures Valid() && this.video == video && displayed == scheduled == 0
      ensures !shift && !ctrl && !caps && !alt && !maxProc
      ensures forall t :: 0 <= t < NUM_TERMINALS ==> Untouched(terminals[t]) && fresh(terminals[t])
    {
      var t0 := new Terminal();
      var t1 := new Terminal();
      var t2 := new Terminal();
      terminals := [t0, t1, t2];
      this.video := video;
      displayed, scheduled, shift, ctrl, caps, alt, maxProc := 0, 0, false, false, false, false, false;
      new;
      StartsValid();
    }

    method SwitchVmemPaging(t: nat)
      requires Layout() && t < NUM_TERMINALS
      modifies video`screenX, video`screenY, video`page
      ensures Layout() && State() == MapTo(old(State()), t)
    {
      video.screenX, video.screenY := terminals[t].screenX, terminals[t].screenY;
      if displayed == t {
        video.page := 0;
      } else {
        video.page := t + 1;
      }
    }

    // putc of each byte in turn
    method Print(text: seq<byte>)
      requires Layout() && Safe(Seen(State()), text)
      modifies video`screenX, video`screenY, video.mem
      ensures Layout() && State() == TerminalModel.Put(old(State()), text)
    {
      video.Puts(text);
      hide Safe, Feed;
      assert State().frames == old(State()).frames[video.page := video.Frame(video.page)];
    }

    method SaveXY(t: nat)
      requires Layout() && t < NUM_TERMINALS
      modifies terminals[t]
      ensures Layout() && State() == SaveCursor(old(State()), t)
    {
      terminals[t].screenX, terminals[t].screenY := video.screenX, video.screenY;
    }

    method UpdateCursor()
      requires Layout() && 0 <= video.screenY * COLS + video.screenX < 0x1_0000
      modifies video`cursor
      ensures Layout() && State() == Latch(old(State()))
    {
      video.UpdateCursor();
    }

    // How every key handler ends: the echo, then both copies of the cursor.
    method EchoKey(text: seq<byte>)
      requires Layout() && displayed < NUM_TERMINALS && Safe(Seen(State()), text)
      modifies video`screenX, video`screenY, video`cursor, video.mem, terminals[displayed]
      ensures Layout() && State() == Latch(SaveCursor(TerminalModel.Put(old(State()), text), displayed))
    {
      hide Safe, Feed;
      Print(text);
      SaveXY(displayed);
      UpdateCursor();
    }

    // A handler that has only edited terminal d's line.
    twostate lemma LineEdited(d: nat)
      requires old(Layout()) && d < NUM_TERMINALS
      requires unchanged(this) && unchanged(video) && unchanged(video.mem)
      requires forall t :: 0 <= t < NUM_TERMINALS && t != d ==>
        unchanged(terminals[t]) && unchanged(terminals[t].lineBuffer) && unchanged(terminals[t].tabBuffer)
      requires terminals[d].screenX == old(terminals[d].screenX) && terminals[d].screenY == old(terminals[d].screenY)
      ensures Layout() && State() == WithLine(old(State()), d, terminals[d].LineOf())
    {}

    method TerminalPutc(c: byte)
      requires Valid() && Safe(Seen(State()), Echo(terminals[displayed].LineOf(), Char(c)))
      modifies video`screenX, video`screenY, video`cursor, video.mem
      modifies terminals[displayed], terminals[displayed].lineBuffer, terminals[displayed].tabBuffer
      ensures Layout() && State() == HandleKey(old(State()), Char(c))
    {
      hide Safe, Feed, TypeChar;
      ghost var before := State();
      assert before.terms[displayed].line == terminals[displayed].LineOf();
      var echo := terminals[displayed].StoreChar(c);
      LineEdited(displayed);
      if echo { EchoKey([c]); }
    }

    method TerminalTab()
      requires Valid() && Safe(Seen(State()), Echo(terminals[displayed].LineOf(), Tab))
      modifies video`screenX, video`screenY, video`cursor, video.mem
      modifies terminals[displayed], terminals[displayed].lineBuffer, terminals[displayed].tabBuffer
      ensures Layout() && State() == HandleKey(old(State()), Tab)
    {
      hide Safe, Feed, TypeTab;
      ghost var before := State();
      assert before.terms[displayed].line == terminals[displayed].LineOf();
      terminals[displayed].StoreTab();
      LineEdited(displayed);
      EchoKey([TAB]);
    }

    method TerminalBackspace()
      requires Valid() && Safe(Seen(State()), Echo(terminals[displayed].LineOf(), Backspace))
      modifies video`screenX, video`screenY, video`cursor, video.mem
      modifies terminals[displayed]
      ensures Layout() && State() == HandleKey(old(State()), Backspace)
    {
      hide Safe, Feed, Erase, Echo;
      ghost var before := State();
      assert before.terms[displayed].line == terminals[displayed].LineOf();
      var echoes := terminals[displayed].Unstore();
      LineEdited(displayed);
      EchoKey(seq(echoes, i => BACKSPACE));
    }

    method TerminalNewLine()
      requires Valid() && Safe(Seen(State()), Echo(terminals[displayed].LineOf(), Enter))
      modifies video`screenX, video`screenY, video`cursor, video.mem
      modifies terminals[displayed], terminals[displayed].lineBuffer, terminals[displayed].tabBuffer
      ensures Layout() && State() == HandleKey(old(State()), Enter)
    {
      hide Safe, Feed, EndLine;
      ghost var before := State();
      assert before.terms[displayed].line == terminals[displayed].LineOf();
      terminals[displayed].StoreEnter();
      LineEdited(displayed);
      EchoKey([NEWLINE]);
    }

    method SetScreenXY(x: int, y: int)
      requires Layout()
      modifies video`screenX, video`screenY
      ensures Layout() && State() == old(State()).(x := x, y := y)
    {
      video.screenX, video.screenY := x, y;
    }

    method CopyPage(dest: nat, src: nat)
      requires Layout() && dest < FRAMES && src < FRAMES && dest != src
      modifies video.mem
      ensures Layout() && State() == old(State()).(frames := old(State()).frames[dest := old(State()).frames[src]])
    {
      video.CopyFrame(dest, src);
      assert State().frames == old(State()).frames[dest := old(State()).frames[src]];
    }

    // The displayed screen goes to its backing page and the next terminal's comes from its own.
    method SwapPages(next: nat)
      requires Layout() && displayed < NUM_TERMINALS && next < NUM_TERMINALS
      modifies video.mem
      ensures Layout() && State() == SwappedPages(old(State()), next)
    {
      CopyPage(displayed + 1, 0);
      CopyPage(0, next + 1);
    }

    method SetDisplayed(t: nat)
      requires Layout()
      modifies this`displayed
      ensures Layout() && State() == old(State()).(displayed := t)
      ensures displayed == t
    {
      displayed := t;
    }

    // The caller has mapped the displayed page.
    method SwitchTerminal(next: nat)
      requires Valid() && next < NUM_TERMINALS && video.page == 0
      modifies this`displayed, video`screenX, video`screenY, video`cursor, video.mem, terminals[displayed]
      ensures Layout() && State() == SwitchTo(old(State()), next)
    {
      ghost var before := State();
      SwitchSteps(before, next);
      assert before.terms[next].x == terminals[next].screenX && before.terms[next].y == terminals[next].screenY;
      hide Good, SwitchTo, SaveCursor, SwappedPages, Latch;
      if next != displayed {
        SaveXY(displayed);
        SetScreenXY(terminals[next].screenX, terminals[next].screenY);
        SwapPages(next);
        UpdateCursor();
        SetDisplayed(next);
      }
    }

    // The switch at the top of keyboard_handler.
    method ModifierKey(scancode: byte) returns (modifier: bool)
      requires Layout()
      modifies this`shift, this`ctrl, this`caps, this`alt
      ensures Layout() && modifier == Modifier(scancode, old(State().flags)).0
      ensures State() == old(State()).(flags := Modifier(scancode, old(State().flags)).1)
    {
      hide Safe, Feed;
      modifier := true;
      if scancode == 0x3A { caps := !caps; }
      else if scancode == 0xBA {}
      else if scancode == 0x2A || scancode == 0x36 { shift := true; }
      else if scancode == 0xAA || scancode == 0xB6 { shift := false; }
      else if scancode == 0x1D { ctrl := true; }
      else if scancode == 0x9D { ctrl := false; }
      else if scancode == 0x38 { alt := true; }
      else if scancode == 0xB8 { alt := false; }
      else { modifier := false; }
    }

    // The branches of keyboard_handler, with the displayed page mapped.
    method Dispatch(scancode: byte)
      requires Valid() && video.page == 0 && scancode < 64
      requires var action := Decode(scancode, State().flags);
        && !action.SetFlags? && !action.ClearScreen?
        && (action.Press? ==> Safe(Seen(State()), Echo(terminals[displayed].LineOf(), action.key)))
      modifies this`displayed, video`screenX, video`screenY, video`cursor, video.mem
      modifies terminals[displayed], terminals[displayed].lineBuffer, terminals[displayed].tabBuffer
      ensures Layout() && State() == Acted(old(State()), Decode(scancode, old(State().flags)))
      ensures displayed == if old(alt) && 0x3B <= scancode <= 0x3D then scancode - 0x3B else old(displayed)
    {
      ghost var action := Decode(scancode, State().flags);
      assert displayed < NUM_TERMINALS && State().terms[displayed].line == terminals[displayed].LineOf();
      hide Safe, Feed, KeyStep, Echo, HandleKey, SwitchTo, Good;
      ActedShows(State(), scancode);
      var (plain, shifted) := Codes(scancode);
      if plain == CODE_ENTER {
        TerminalNewLine();
      } else if plain == CODE_BACKSPACE {
        TerminalBackspace();
      } else if plain == CODE_TAB {
        TerminalTab();
      } else if alt {
        if plain == 9 { SwitchTerminal(0); }
        else if plain == 10 { SwitchTerminal(1); }
        else if plain == 11 { SwitchTerminal(2); }
      } else if 97 <= plain <= 122 {
        if caps != shift { TerminalPutc(shifted); } else { TerminalPutc(plain); }
      } else {
        if shift { TerminalPutc(shifted); } else { TerminalPutc(plain); }
      }
    }

    // The end of keyboard_handler.
    method MapBack()
      requires Layout() && Placed(State())
      modifies video`page, video`screenX, video`screenY, video`cursor
      ensures Layout() && State() == MapTo(Latch(old(State())), scheduled)
    {
      UpdateCursor();
      SwitchVmemPaging(scheduled);
    }

    // The branches between the two mappings.
    method Act(scancode: byte)
      requires Valid() && Enabled(State(), Scancode(scancode))
      requires scancode < 64 && !Modifier(scancode, State().flags).0 && !Dropped(State(), scancode)
      modifies this`displayed, video`page, video`screenX, video`screenY, video`cursor, video.mem
      modifies terminals[displayed], terminals[displayed].lineBuffer, terminals[displayed].tabBuffer
      ensures Layout() && State() == Step(old(State()), Scancode(scancode))
    {
      ghost var before := State();
      HandledCode(before, scancode);
      assert before.displayed == displayed && before.scheduled == scheduled;
      hide Safe, Feed, KeyStep, Echo, Acted, Good, Dropped, Output, Notice, Presses, Enabled, KeyboardStep, Decode;
      hide Modifier, Codes, SwitchTo, HandleKey, ReadLine;
      ActedOn(before, scancode);
      SwitchVmemPaging(displayed);
      ghost var shown := State();
      assert shown.flags == before.flags && shown.terms == before.terms && shown.scheduled == before.scheduled;
      hide MapTo, Latch, Step;
      Dispatch(scancode);
      MapBack();
    }

    // keyboard_handler on the scancode read from the port
    method Handle(scancode: byte)
      requires Valid() && Enabled(State(), Scancode(scancode))
      modifies this, video, video.mem
      modifies terminals[displayed], terminals[displayed].lineBuffer, terminals[displayed].tabBuffer
      ensures Layout() && State() == Step(old(State()), Scancode(scancode))
      ensures displayed == if old(alt) && 0x3B <= scancode <= 0x3D then scancode - 0x3B else old(displayed)
      ensures State().flags == TerminalLaws.FlagsAfter(old(State()).flags, scancode)
    {
      ghost var before := State();
      assert displayed < NUM_TERMINALS;
      assert Good(before);
      TerminalLaws.PanelKey(before, scancode);
      hide Safe, Feed, Output, Notice, Presses, MapTo, Acted, Good, Enabled, KeyboardStep, Dropped, Full;
      ActedOn(before, scancode);
      var modifier := ModifierKey(scancode);
      if !modifier {
        ModifierFlags(scancode, before.flags);
        assert State() == before;
        FullIsDropped(scancode);
        if !Full(scancode) && scancode < 64 { Act(scancode); }
      }
    }

    // syscalls.c schedule, as far as the terminals go
    method Tick()
      requires Valid()
      modifies this`scheduled, video`screenX, video`screenY, video`page
      ensures Layout() && State() == Step(old(State()), Event.Tick)
    {
      hide Safe, Feed;
      scheduled := (scheduled + 1) % NUM_TERMINALS;
      SwitchVmemPaging(scheduled);
    }

    // The middle of terminal_write.
    method PrintOutput(text: seq<byte>)
      requires Layout() && Safe(Seen(State()), Notice(State(), text))
      modifies this`maxProc, video`screenX, video`screenY, video.mem
      ensures Layout() && State() == TerminalModel.Put(old(State()), Notice(old(State()), text)).(maxProc := false)
      ensures !old(maxProc) ==>
        Safe(Seen(old(State())), text) && Seen(State()) == Feed(Seen(old(State())), text)
      ensures old(maxProc) ==>
        var printed := TerminalLaws.LIMIT_NOTICE + text;
        Safe(Seen(old(State())), printed) && Seen(State()) == Feed(Seen(old(State())), printed)
    {
      hide Safe, Feed;
      ghost var seen := Seen(State());
      SafeInRange(seen, Notice(State(), text));
      FeedAppend(seen, if maxProc then MAX_PROC_TEXT else [], text);
      assert [] + text == text;
      if maxProc {
        Print(MAX_PROC_TEXT);
        maxProc := false;
      }
      Print(text);
    }

    method TerminalWrite(text: seq<byte>)
      requires Valid() && Enabled(State(), Write(text))
      modifies this`maxProc, video`screenX, video`screenY, video`page, video`cursor, video.mem, terminals[scheduled]
      ensures Layout() && State() == Step(old(State()), Write(text)) && Good(State()) && !maxProc
      ensures !old(maxProc) ==>
        var screen := Logical(old(State()), scheduled);
        Safe(screen, text) && Logical(State(), scheduled) == Feed(screen, text)
      ensures old(maxProc) ==>
        var screen, printed := Logical(old(State()), scheduled), TerminalLaws.LIMIT_NOTICE + text;
        Safe(screen, printed) && Logical(State(), scheduled) == Feed(screen, printed)
    {
      hide Safe, Feed, Notice, Output;
      ghost var before := State();
      SeenIsLogical(before, scheduled);
      SafeNotice(before, text);
      SwitchVmemPaging(scheduled);
      assert Notice(State(), text) == Notice(before, text) by { SameNotice(State(), before, text); }
      PrintOutput(text);
      if scheduled == displayed { UpdateCursor(); }
      SaveXY(scheduled);
      SwitchVmemPaging(displayed);
      TerminalLaws.WritePrints(before, text);
    }

    method TerminalRead(nbytes: nat) returns (bytes: seq<byte>, r: nat)
      requires Valid() && Enabled(State(), Read(nbytes))
      modifies terminals[scheduled], terminals[scheduled].lineBuffer, terminals[scheduled].tabBuffer
      ensures Layout() && State() == Step(old(State()), Read(nbytes))
      ensures (terminals[scheduled].LineOf(), bytes, r) == ReadLine(old(terminals[scheduled].LineOf()), nbytes)
    {
      hide Safe, Feed, ReadLine;
      bytes, r := terminals[scheduled].TakeLine(nbytes);
      LineEdited(scheduled);
    }

    method SetMaxProcFlag()
      requires Layout()
      modifies this`maxProc
      ensures Layout() && State() == old(State()).(maxProc := true)
    {
      maxProc := true;
    }

    // Whatever happens next.
    method Do(e: Event)
      requires Valid() && Enabled(State(), e)
      modifies this, video, video.mem, terminals, set t | t in terminals :: t.lineBuffer,
        set t | t in terminals :: t.tabBuffer
      ensures Valid() && State() == Step(old(State()), e)
    {
      assert displayed < NUM_TERMINALS && scheduled < NUM_TERMINALS;
      ghost var before := State();
      TerminalRuns.StepIsolated(before, e, 0);
      hide Safe, Feed, Good, KeyboardStep, WriteStep, ReadStep;
      match e
      case Scancode(code) => Handle(code);
      case Write(text) => TerminalWrite(text);
      case Read(nbytes) => var bytes, r := TerminalRead(nbytes);
      case Tick => Tick();
      case Remap => SwitchVmemPaging(scheduled);
      case MaxProcs => SetMaxProcFlag();
    }

    // Whatever happens next, for as long as it goes on.
    method Run(events: seq<Event>)
      requires Valid() && TerminalRuns.AllEnabled(State(), events)
      modifies this, video, video.mem, terminals, set t | t in terminals :: t.lineBuffer,
        set t | t in terminals :: t.tabBuffer
      ensures Valid() && State() == TerminalRuns.Run(old(State()), events)
    {
      hide Good, Enabled, Step;
      var i := 0;
      assert events[0..] == events;
      while i < |events|
        invariant 0 <= i <= |events| && Valid()
        invariant TerminalRuns.AllEnabled(State(), events[i..])
        invariant TerminalRuns.Run(State(), events[i..]) == TerminalRuns.Run(old(State()), events)
      {
        assert events[i..][0] == events[i] && events[i..][1..] == events[i + 1..];
        Do(events[i]);
        i := i + 1;
      }
    }
  }

  /** The boot sequence, as far as the terminals go: the display page is cleared and the backing pages are not.
    * Terminal 0 then shows the empty page; the others show theirs from the 26th row on. */
  method Boot(mem: array<byte>) returns (k: Keyboard)
    requires mem.Length == FRAMES * FRAME
    modifies mem
    ensures fresh(k) && k.Valid()
    ensures TerminalLaws.PanelOf(k.State()) == TerminalLaws.Panel(0, 0, Flags(false, false, false, false), false)
    ensures Shows(Logical(k.State(), 0), EmptyPage())
    ensures TerminalRuns.Showing(k.State(), [EmptyPage(), EmptyPage(), EmptyPage()], ROWS)
    ensures forall t :: 0 < t < NUM_TERMINALS ==>
      Logical(k.State(), t).frame == old(mem[(t + 1) * FRAME..(t + 1) * FRAME + FRAME])
  {
    var video := new Video(mem);
    ClearShows(video.Frame(0));
    video.Clear();
    UnclearedShows(video.Frame(0));
    UnclearedShows(video.Frame(2));
    UnclearedShows(video.Frame(3));
    hide Shows, ShowsFrom, Cleared, CharAt, AttrAt, EmptyPage;
    k := new Keyboard(video);
  }
}
