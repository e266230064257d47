/** What the terminals' keys and writes do, said in scancodes, flags and bytes. */
module TerminalLaws {
  import opened Basics
  import opened Bytes
  import opened Console
  import opened LineDiscipline
  import opened TerminalModel
  import opened TerminalRuns

  // ----- terminal_write -----

  const LIMIT_NOTICE: seq<byte> :=
    [77, 65, 88, 32, 80, 82, 79, 67, 69, 83, 83, 69, 83, 32, 82, 69, 65, 67, 72, 69, 68, 10]

  /** A write prints exactly its text on the scheduled terminal's own screen, after the notice if that is due, and
    * leaves no notice due. */
  lemma WritePrints(m: Machine, text: seq<byte>)
    requires Enabled(m, Write(text))
    ensures var n, s := Step(m, Write(text)), m.scheduled;
      && Good(n) && !n.maxProc && n.scheduled == s
      && (!m.maxProc ==> Safe(Logical(m, s), text) && Logical(n, s) == Feed(Logical(m, s), text))
      && (m.maxProc ==>
            Safe(Logical(m, s), LIMIT_NOTICE + text) && Logical(n, s) == Feed(Logical(m, s), LIMIT_NOTICE + text))
  {
    ScreenAfter(m, Write(text), m.scheduled);
    assert [] + text == text;
  }

  // Between two writes the notice is shown if, and only if, the limit was met.
  lemma NoticeRaised(m: Machine)
    requires Enabled(m, MaxProcs)
    ensures Step(m, MaxProcs).maxProc && Good(Step(m, MaxProcs)) && Step(m, MaxProcs).scheduled == m.scheduled
    ensures forall t :: 0 <= t < NUM_TERMINALS ==> Logical(Step(m, MaxProcs), t) == Logical(m, t)
  {}

  lemma FirstStep(m: Machine, e: Event, rest: seq<Event>)
    requires AllEnabled(m, [e] + rest)
    ensures Enabled(m, e) && AllEnabled(Step(m, e), rest) && Run(m, [e] + rest) == Run(Step(m, e), rest)
  {
    hide Step, Enabled, Good;
    assert ([e] + rest)[1..] == rest;
  }

  /** When the limit has been met, the notice is shown once: before the text of the next write, and not again before
    * the one after it. */
  lemma NoticeShownOnce(m: Machine, first: seq<byte>, second: seq<byte>)
    requires AllEnabled(m, [MaxProcs, Write(first), Write(second)])
    ensures var n, s := Run(m, [MaxProcs, Write(first), Write(second)]), m.scheduled;
      && !n.maxProc && s < NUM_TERMINALS
      && Safe(Logical(m, s), LIMIT_NOTICE + first + second)
      && Logical(n, s) == Feed(Logical(m, s), LIMIT_NOTICE + first + second)
  {
    assert [MaxProcs, Write(first), Write(second)] == [MaxProcs] + ([Write(first)] + ([Write(second)] + []));
    FirstStep(m, MaxProcs, [Write(first)] + ([Write(second)] + []));
    var due := Step(m, MaxProcs);
    FirstStep(due, Write(first), [Write(second)] + []);
    FirstStep(Step(due, Write(first)), Write(second), []);
    NoticeRaised(m);
    assert m.scheduled < NUM_TERMINALS && InRange(Logical(m, m.scheduled));
    hide Safe, Feed, Logical, Step, Run, AllEnabled, Enabled, Good;
    WritePrints(due, first);
    WritePrints(Step(due, Write(first)), second);
    FeedAppend(Logical(m, m.scheduled), LIMIT_NOTICE + first, second);
  }

  // ----- keyboard_handler: flags -----

  predicate IsModifier(code: byte) { code in {0x3A, 0xBA, 0x2A, 0x36, 0xAA, 0xB6, 0x1D, 0x9D, 0x38, 0xB8} }

  /** Which scancodes change a flag, and how; they change nothing else, and no other event changes a flag. */
  lemma FlagKeys(m: Machine, code: byte)
    requires Good(m)
    ensures IsModifier(code) ==> Enabled(m, Scancode(code))
    ensures code == 0x3A ==> Step(m, Scancode(code)) == m.(flags := m.flags.(caps := !m.flags.caps))
    ensures code == 0xBA ==> Step(m, Scancode(code)) == m
    ensures code == 0x2A || code == 0x36 ==> Step(m, Scancode(code)) == m.(flags := m.flags.(shift := true))
    ensures code == 0xAA || code == 0xB6 ==> Step(m, Scancode(code)) == m.(flags := m.flags.(shift := false))
    ensures code == 0x1D ==> Step(m, Scancode(code)) == m.(flags := m.flags.(ctrl := true))
    ensures code == 0x9D ==> Step(m, Scancode(code)) == m.(flags := m.flags.(ctrl := false))
    ensures code == 0x38 ==> Step(m, Scancode(code)) == m.(flags := m.flags.(alt := true))
    ensures code == 0xB8 ==> Step(m, Scancode(code)) == m.(flags := m.flags.(alt := false))
  {
    hide HandleKey, SwitchTo;
    if IsModifier(code) {
      assert forall t :: 0 <= t < NUM_TERMINALS ==> Output(m, Scancode(code), t) == [];
      assert Enabled(m, Scancode(code));
    }
  }

  // ----- keyboard_handler: character keys -----

  // What is printed on the keys, in scancode order from the left of each row; function keys and unused codes type
  // control bytes.
  function KeyCap(code: byte, upper: bool): char {
    if 0x02 <= code <= 0x0D then (if upper then "!@#$%^&*()_+" else "1234567890-=")[code - 0x02]
    else if 0x10 <= code <= 0x1B then (if upper then "QWERTYUIOP{}" else "qwertyuiop[]")[code - 0x10]
    else if 0x1E <= code <= 0x29 then (if upper then "ASDFGHJKL:\"~" else "asdfghjkl;'`")[code - 0x1E]
    else if 0x2B <= code <= 0x35 then (if upper then "|ZXCVBNM<>?" else "\\zxcvbnm,./")[code - 0x2B]
    else if code == 0x39 then ' '
    else if 0x3B <= code <= 0x3D then (code - 0x32) as char
    else 0 as char
  }

  predicate IsLetter(code: byte) {
    0x10 <= code <= 0x19 || 0x1E <= code <= 0x26 || 0x2C <= code <= 0x32
  }

  // Every code of the table but Backspace, Tab, Enter and the modifiers.
  predicate Types(code: byte) {
    code < 64 && code !in {0x0E, 0x0F, 0x1C, 0x1D, 0x2A, 0x36, 0x38, 0x3A}
  }

  lemma DigitKeys(code: byte)
    requires 0x02 <= code <= 0x0D
    ensures Codes(code).0 as char == KeyCap(code, false) && Codes(code).1 as char == KeyCap(code, true)
    ensures 33 <= Codes(code).0 <= 61
  {
    assert Codes(code) == DIGIT_ROW[code];
  }

  lemma TopKeys(code: byte)
    requires 0x10 <= code <= 0x1B
    ensures Codes(code).0 as char == KeyCap(code, false) && Codes(code).1 as char == KeyCap(code, true)
    ensures 91 <= Codes(code).0 <= 122 && (97 <= Codes(code).0 <==> code <= 0x19)
  {
    assert Codes(code) == TOP_ROW[code - 0x10];
  }

  lemma HomeKeys(code: byte)
    requires 0x1E <= code <= 0x29
    ensures Codes(code).0 as char == KeyCap(code, false) && Codes(code).1 as char == KeyCap(code, true)
    ensures 39 <= Codes(code).0 <= 122 && (97 <= Codes(code).0 <==> code <= 0x26)
  {
    assert Codes(code) == HOME_ROW[code - 0x1E];
  }

  lemma BottomKeys(code: byte)
    requires 0x2B <= code <= 0x35
    ensures Codes(code).0 as char == KeyCap(code, false) && Codes(code).1 as char == KeyCap(code, true)
    ensures 44 <= Codes(code).0 <= 122 && (97 <= Codes(code).0 <==> 0x2C <= code <= 0x32)
  {
    assert code > 0x2B ==> Codes(code) == BOTTOM_ROW[code - 0x2C];
  }

  lemma OtherKeys(code: byte)
    requires Types(code) && (code < 0x02 || code > 0x35)
    ensures Codes(code).0 as char == Codes(code).1 as char == KeyCap(code, false) == KeyCap(code, true)
    ensures Codes(code).0 in {0, 9, 10, 11, 32}
  {
    assert code >= 0x2C ==> Codes(code) == BOTTOM_ROW[code - 0x2C];
    assert code < 0x02 ==> Codes(code) == DIGIT_ROW[code];
  }

  lemma KeyCodes(code: byte)
    requires Types(code)
    ensures Codes(code).0 as char == KeyCap(code, false) && Codes(code).1 as char == KeyCap(code, true)
    ensures 97 <= Codes(code).0 <= 122 <==> IsLetter(code)
    ensures Codes(code).0 !in {CODE_ENTER, CODE_BACKSPACE, CODE_TAB}
    ensures Codes(code).0 == 108 <==> code == 0x26
    ensures Codes(code).0 in {9, 10, 11} <==> code in {0x3B, 0x3C, 0x3D}
  {
    if 0x02 <= code <= 0x0D { DigitKeys(code); }
    else if 0x10 <= code <= 0x1B { TopKeys(code); }
    else if 0x1E <= code <= 0x29 { HomeKeys(code); }
    else if 0x2B <= code <= 0x35 { BottomKeys(code); }
    else { OtherKeys(code); }
  }

  lemma CodesOf()
    ensures Codes(0x0E) == (8, 8) && Codes(0x0F) == (2, 2) && Codes(0x1C) == (16, 16)
    ensures CODE_BACKSPACE == 8 && CODE_TAB == 2 && CODE_ENTER == 16
  {
    assert Codes(0x0E) == DIGIT_ROW[0x0E] && Codes(0x0F) == DIGIT_ROW[0x0F] && Codes(0x1C) == TOP_ROW[0x1C - 0x10];
  }

  // What a code that is no modifier decodes to.
  lemma Decoded(code: byte, f: Flags)
    ensures Types(code) && f.alt && !(f.ctrl && code == 0x26) ==>
      Decode(code, f) == if code in {0x3B, 0x3C, 0x3D} then ShowTerminal(code - 0x3B) else Nothing
    ensures Types(code) && !f.alt && !(f.ctrl && code == 0x26) ==>
      && Decode(code, f).Press? && Decode(code, f).key.Char?
      && Decode(code, f).key.c as char == KeyCap(code, if IsLetter(code) then f.caps != f.shift else f.shift)
    ensures Types(code) && f.ctrl && code == 0x26 ==> Decode(code, f) == ClearScreen
    ensures Decode(0x0E, f) == Press(Backspace) && Decode(0x0F, f) == Press(Tab) && Decode(0x1C, f) == Press(Enter)
    ensures code >= 64 ==> Decode(code, f).SetFlags? || Decode(code, f) == Nothing
    ensures code < 64 && !Types(code) && code !in {0x0E, 0x0F, 0x1C} ==> Decode(code, f).SetFlags?
  {
    CodesOf();
    if Types(code) { KeyCodes(code); }
    hide Codes, KeyCap, IsLetter;
  }

  // ----- keyboard_handler: which terminal is shown -----

  /** Alt with F1, F2 and F3 shows terminals 0, 1 and 2, also on a full line; nothing else changes which one is
    * shown. */
  lemma AltShows(m: Machine, e: Event)
    requires Enabled(m, e)
    ensures m.flags.alt && e == Scancode(0x3B) ==> Step(m, e).displayed == 0
    ensures m.flags.alt && e == Scancode(0x3C) ==> Step(m, e).displayed == 1
    ensures m.flags.alt && e == Scancode(0x3D) ==> Step(m, e).displayed == 2
    ensures !(m.flags.alt && e.Scancode? && 0x3B <= e.code <= 0x3D) ==> Step(m, e).displayed == m.displayed
  {
    if e.Scancode? {
      Decoded(e.code, m.flags);
      var d := m.displayed;
      assert Safe(Logical(m, d), Output(m, e, d));
      DecodeAgrees(m, e.code);
      var action := Decode(e.code, m.flags);
      hide Safe, Feed, KeyStep, Echo, Decode, PrivateStep, Codes, KeyCap;
      if action.Press? && Presses(m, e) {
        KeyIsolated(m, action.key);
      } else if action.ShowTerminal? {
        SwitchIsolated(m, action.t);
      }
    }
  }

  // ----- keyboard_handler: what each key does to the terminal shown -----

  // Only the displayed terminal has changed: its line, and its screen by the echo.
  ghost predicate Changes(m: Machine, n: Machine, line: Line, echo: seq<byte>)
    requires Good(m)
  {
    var d := m.displayed;
    && Good(n) && n.displayed == d && n.scheduled == m.scheduled && n.flags == m.flags && n.maxProc == m.maxProc
    && Safe(Logical(m, d), echo) && Logical(n, d) == Feed(Logical(m, d), echo) && n.terms[d].line == line
    && (forall t :: 0 <= t < NUM_TERMINALS && t != d ==> PrivateOf(n, t) == PrivateOf(m, t))
  }

  lemma KeyTaken(m: Machine, code: byte)
    requires Enabled(m, Scancode(code)) && Decode(code, m.flags).Press?
    requires !Dropped(m, code)
    ensures var d, key := m.displayed, Decode(code, m.flags).key;
      && Shaped(m.terms[d].line) && m.terms[d].line.nchars <= LAST
      && Changes(m, Step(m, Scancode(code)), KeyStep(m.terms[d].line, key), Echo(m.terms[d].line, key))
  {
    var d, key := m.displayed, Decode(code, m.flags).key;
    DecodeAgrees(m, code);
    assert Safe(Logical(m, d), Output(m, Scancode(code), d));
    KeyboardIsolated(m, code);
    KeyIsolated(m, key);
    hide Safe, Feed, KeyStep, Echo, Decode, Logical;
    assert PrivateOf(Step(m, Scancode(code)), d) == PrivateStep(PrivateOf(m, d), Pressed(key));
  }

  lemma DroppedExactly(m: Machine, code: byte)
    requires Good(m)
    ensures Dropped(m, code) <==>
      m.terms[m.displayed].line.nchars >= 127 && !m.flags.alt && code !in {0x0E, 0x1C} &&
        !(m.flags.ctrl && code == 0x26)
  {
    CodesOf();
    if Types(code) { KeyCodes(code); }
    hide KeyCap, IsLetter;
  }

  /** A full line drops every key but Enter and Backspace, unless Alt is down. */
  lemma FullLineDrops(m: Machine, code: byte)
    requires Enabled(m, Scancode(code)) && m.terms[m.displayed].line.nchars >= 127 && !m.flags.alt
    requires Types(code) || code == 0x0F || code >= 64
    ensures Step(m, Scancode(code)).terms == m.terms && Step(m, Scancode(code)).frames == m.frames
    ensures code < 64 ==> Step(m, Scancode(code)) == m
  {
    DroppedExactly(m, code);
    Decoded(code, m.flags);
    hide Codes, KeyCap, Decode, Dropped;
  }

  /** A character key stores and echoes what is printed on it: a letter's capital if caps lock differs from shift, any
    * other key's upper character if shift is down. */
  lemma CharacterTyped(m: Machine, code: byte)
    requires Enabled(m, Scancode(code)) && Types(code) && !m.flags.alt && m.terms[m.displayed].line.nchars < 127
    ensures var line, n := m.terms[m.displayed].line, Step(m, Scancode(code));
      && Good(n) && |line.buffer| == |line.tabs| == 128
      && var c := n.terms[m.displayed].line.buffer[line.nchars];
      && c as char == KeyCap(code, if IsLetter(code) then m.flags.caps != m.flags.shift else m.flags.shift)
      && Changes(m, n, Line(line.buffer[line.nchars := c], line.tabs[line.nchars := c], line.nchars + 1, line.enter),
        [c])
  {
    DroppedExactly(m, code);
    Decoded(code, m.flags);
    hide Codes, KeyCap, Decode, Dropped, Safe, Feed, Step, Logical, Changes, IsLetter;
    KeyTaken(m, code);
  }

  /** Enter ends the line where it stands, wakes its reader and echoes a newline, whatever the flags. */
  lemma EnterPressed(m: Machine)
    requires Enabled(m, Scancode(0x1C))
    ensures var line := m.terms[m.displayed].line;
      && |line.buffer| == |line.tabs| == 128 && line.nchars <= 127
      && Changes(m, Step(m, Scancode(0x1C)),
           Line(line.buffer[line.nchars := 10], line.tabs[line.nchars := 10], 0, true), [10])
  {
    DroppedExactly(m, 0x1C);
    Decoded(0x1C, m.flags);
    hide Codes, KeyCap, Decode, Dropped, Safe, Feed, Step, Logical, Changes, IsLetter;
    KeyTaken(m, 0x1C);
  }

  /** Backspace takes back one character, or up to four cells that end in a tab, with as many backspaces echoed: none on
    * an empty line. The buffers keep what they hold. */
  lemma BackspacePressed(m: Machine)
    requires Enabled(m, Scancode(0x0E))
    ensures var line := m.terms[m.displayed].line;
      && |line.tabs| == 128 && line.nchars <= 127
      && var (left, echo) :=
           if line.nchars == 0 then (0, [])
           else if line.tabs[line.nchars - 1] == 9 then (if line.nchars < 4 then 0 else line.nchars - 4, [8, 8, 8, 8])
           else (line.nchars - 1, [8]);
         Changes(m, Step(m, Scancode(0x0E)), line.(nchars := left), echo)
  {
    DroppedExactly(m, 0x0E);
    Decoded(0x0E, m.flags);
    hide Codes, KeyCap, Decode, Dropped, Safe, Feed, Step, Logical, Changes, IsLetter;
    KeyTaken(m, 0x0E);
    var line := m.terms[m.displayed].line;
    assert line.(nchars := line.nchars) == line;
  }

  /** Tab stores up to four spaces, marked as a tab, ends at character 127 with a newline in the last cell if it runs
    * out of room, and echoes one tab. */
  lemma TabPressed(m: Machine)
    requires Enabled(m, Scancode(0x0F)) && (m.flags.alt || m.terms[m.displayed].line.nchars < 127)
    ensures var line, n := m.terms[m.displayed].line, Step(m, Scancode(0x0F));
      && Good(n)
      && var after := n.terms[m.displayed].line;
      && Changes(m, n, after, [9])
      && after.nchars == Min(line.nchars + 4, 127) && after.enter == line.enter
      && |line.buffer| == |after.buffer| == |line.tabs| == |after.tabs| == 128
      && (forall i :: 0 <= i < 128 ==>
            after.buffer[i] ==
              if line.nchars <= i < after.nchars then 32
              else if i == 127 && line.nchars > 123 then 10 else line.buffer[i])
      && (forall i :: 0 <= i < 128 ==>
            after.tabs[i] ==
              if line.nchars <= i < after.nchars then 9
              else if i == 127 && line.nchars > 123 then 10 else line.tabs[i])
  {
    DroppedExactly(m, 0x0F);
    Decoded(0x0F, m.flags);
    hide Codes, KeyCap, Decode, Dropped, Safe, Feed, Step, Logical, Changes, IsLetter, TypeTab;
    KeyTaken(m, 0x0F);
    TabStores(m.terms[m.displayed].line, 4);
  }

  /** With Alt down a key that types, and a code past the table at any time, changes no terminal's screen or line. */
  lemma KeyIgnored(m: Machine, code: byte)
    requires Enabled(m, Scancode(code)) && ((Types(code) && m.flags.alt) || code >= 64)
    ensures var n := Step(m, Scancode(code));
      Good(n) && forall t :: 0 <= t < NUM_TERMINALS ==> PrivateOf(n, t) == PrivateOf(m, t)
  {
    Decoded(code, m.flags);
    KeyboardIsolated(m, code);
    hide Codes, KeyCap, Decode, Dropped, Safe, Feed, Step, Logical, Changes, IsLetter;
  }

  // ----- flags, displayed and scheduled terminal over whole runs -----

  // What does not depend on any screen or line.
  datatype Panel = Panel(displayed: nat, scheduled: nat, flags: Flags, noticeDue: bool)

  function PanelOf(m: Machine): Panel { Panel(m.displayed, m.scheduled, m.flags, m.maxProc) }

  function FlagsAfter(f: Flags, code: byte): Flags {
    if code == 0x3A then f.(caps := !f.caps)
    else if code == 0x2A || code == 0x36 then f.(shift := true)
    else if code == 0xAA || code == 0xB6 then f.(shift := false)
    else if code == 0x1D || code == 0x9D then f.(ctrl := code == 0x1D)
    else if code == 0x38 || code == 0xB8 then f.(alt := code == 0x38)
    else f
  }

  function PanelStep(p: Panel, e: Event): Panel {
    match e
    case Scancode(code) =>
      p.(flags := FlagsAfter(p.flags, code),
         displayed := if p.flags.alt && 0x3B <= code <= 0x3D then code - 0x3B else p.displayed)
    case Write(_) => p.(noticeDue := false)
    case MaxProcs => p.(noticeDue := true)
    case Tick => p.(scheduled := if p.scheduled == 2 then 0 else p.scheduled + 1)
    case _ => p
  }

  function PanelRun(p: Panel, es: seq<Event>): Panel
    decreases |es|
  {
    if es == [] then p else PanelRun(PanelStep(p, es[0]), es[1..])
  }

  // A key that is no modifier changes no flag, and nobody's turn.
  lemma PlainKey(m: Machine, code: byte)
    requires Enabled(m, Scancode(code)) && !IsModifier(code)
    ensures var n := Step(m, Scancode(code));
      n.flags == m.flags && n.scheduled == m.scheduled && n.maxProc == m.maxProc
  {
    DecodeAgrees(m, code);
    var d, action := m.displayed, Decode(code, m.flags);
    assert !action.SetFlags?;
    hide Codes, Safe, Feed, KeyStep, Echo, Decode;
    if action.Press? && !Dropped(m, code) {
      KeyTaken(m, code);
    } else if action.ShowTerminal? {
      SwitchIsolated(m, action.t);
    }
  }

  lemma PanelKey(m: Machine, code: byte)
    requires Enabled(m, Scancode(code))
    ensures PanelOf(Step(m, Scancode(code))) == PanelStep(PanelOf(m), Scancode(code))
  {
    AltShows(m, Scancode(code));
    hide KeyboardStep, Enabled, Good;
    if IsModifier(code) {
      FlagKeys(m, code);
    } else {
      PlainKey(m, code);
    }
  }

  lemma PanelAfter(m: Machine, e: Event)
    requires Enabled(m, e)
    ensures Good(Step(m, e)) && PanelOf(Step(m, e)) == PanelStep(PanelOf(m), e)
  {
    StepIsolated(m, e, 0);
    if e.Scancode? {
      PanelKey(m, e.code);
    }
    hide Safe, Feed, KeyboardStep, ReadLine;
  }

  /** Over every run the flags, the terminal shown, the terminal scheduled and whether a notice is due are what the
    * scancodes, ticks and writes alone make them. */
  lemma {:induction false} RunPanel(m: Machine, es: seq<Event>)
    requires AllEnabled(m, es)
    ensures PanelOf(Run(m, es)) == PanelRun(PanelOf(m), es)
    decreases |es|
  {
    if es == [] {
    } else {
      PanelAfter(m, es[0]);
      hide Step, Enabled, Good, PanelStep;
      RunPanel(Step(m, es[0]), es[1..]);
    }
  }

  /** After a tick or a remapping the video address shows the scheduled terminal's own screen; after a write, the
    * displayed terminal's. */
  lemma MappedAfter(m: Machine, e: Event)
    requires Enabled(m, e)
    ensures var n := Step(m, e);
      && Good(n)
      && (e.Tick? || e.Remap? ==> Seen(n) == Logical(n, n.scheduled))
      && (e.Write? ==> Seen(n) == Logical(n, n.displayed))
  {
    StepIsolated(m, e, 0);
    hide Safe, Feed;
  }

  lemma MappedTo(m: Machine, t: nat)
    requires Good(m) && t < NUM_TERMINALS
    ensures Good(MapTo(m, t)) && MapTo(m, t).scheduled == m.scheduled
    ensures Seen(MapTo(m, t)) == Logical(MapTo(m, t), t)
  {}

  // What the end of keyboard_handler starts from.
  lemma HandledWell(m: Machine, code: byte)
    requires Enabled(m, Scancode(code)) && code < 64 && !IsModifier(code) && !Dropped(m, code)
    ensures exists k :: Good(k) && k.scheduled == m.scheduled && Step(m, Scancode(code)) == MapTo(k, m.scheduled)
  {
    var d, action := m.displayed, Decode(code, m.flags);
    DecodeAgrees(m, code);
    assert !action.SetFlags? && Safe(Logical(m, d), Output(m, Scancode(code), d));
    MapChangesNothing(m, d);
    hide Safe, Feed, Decode, Dropped, KeyStep, Echo, PrivateStep, Good;
    var k := MapTo(m, d);
    if action.Press? {
      KeyIsolated(m, action.key);
      k := HandleKey(k, action.key);
    } else if action.ShowTerminal? {
      SwitchIsolated(m, action.t);
      k := SwitchTo(k, action.t);
    }
    LatchIdle(k);
  }

  /** So it does after a key that is handled at all. */
  lemma MappedAfterKey(m: Machine, code: byte)
    requires Enabled(m, Scancode(code)) && code < 64 && !IsModifier(code) && !Dropped(m, code)
    ensures var n := Step(m, Scancode(code)); Good(n) && Seen(n) == Logical(n, n.scheduled)
  {
    HandledWell(m, code);
    assert m.scheduled < NUM_TERMINALS;
    hide Step, Good, Seen, Logical, MapTo;
    var k :| Good(k) && k.scheduled == m.scheduled && Step(m, Scancode(code)) == MapTo(k, m.scheduled);
    MappedTo(k, m.scheduled);
  }
}
