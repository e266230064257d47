/** The three terminals of student-distrib/keyboard.c on values: one console, one pair of cursor variables and one
  * mapped video page shared by all of them. */
module TerminalModel {
  import opened Basics
  import opened Bytes
  import opened Console
  import opened LineDiscipline

  // A terminal_t: its edited line and its saved cursor.
  datatype Term = Term(line: Line, x: int, y: int)

  datatype Flags = Flags(shift: bool, ctrl: bool, caps: bool, alt: bool)

  datatype Machine = Machine(
    frames: seq<seq<byte>>, // physical pages
    page: nat,              // the one mapped at the video address
    x: int, y: int,         // screen_x, screen_y
    cursor: int,            // the hardware cursor
    terms: seq<Term>,
    displayed: nat,
    scheduled: nat,
    flags: Flags,
    maxProc: bool)

  ghost predicate GoodTerm(t: Term) {
    Shaped(t.line) && t.line.nchars <= LAST && 0 <= t.x < COLS && 0 <= t.y < ROWS
  }

  ghost predicate Good(m: Machine) {
    && |m.frames| == FRAMES && (forall i :: 0 <= i < FRAMES ==> |m.frames[i]| == FRAME)
    && m.page < FRAMES
    && |m.terms| == NUM_TERMINALS && m.displayed < NUM_TERMINALS && m.scheduled < NUM_TERMINALS
    && (forall t :: 0 <= t < NUM_TERMINALS ==> GoodTerm(m.terms[t]))
    && m.cursor == m.terms[m.displayed].y * COLS + m.terms[m.displayed].x
  }

  // ----- pieces of the handlers -----

  // switch_vmem_paging
  function MapTo(m: Machine, t: nat): Machine
    requires t < |m.terms|
  {
    m.(x := m.terms[t].x, y := m.terms[t].y, page := if m.displayed == t then 0 else t + 1)
  }

  // What putc sees.
  function Seen(m: Machine): Screen
    requires m.page < |m.frames|
  {
    Screen(m.frames[m.page], m.x, m.y)
  }

  function Put(m: Machine, text: seq<byte>): Machine
    requires m.page < |m.frames| && Safe(Seen(m), text)
  {
    var s := Feed(Seen(m), text);
    m.(frames := m.frames[m.page := s.frame], x := s.x, y := s.y)
  }

  // get_screen_x_y into a terminal
  function SaveCursor(m: Machine, t: nat): Machine
    requires t < |m.terms|
  {
    m.(terms := m.terms[t := m.terms[t].(x := m.x, y := m.y)])
  }

  // update_cursor
  function Latch(m: Machine): Machine { m.(cursor := m.y * COLS + m.x) }

  // ----- decoding a scancode -----

  datatype Action = SetFlags(flags: Flags) | Press(key: Key) | ShowTerminal(t: nat) | ClearScreen | Nothing

  const CODE_BACKSPACE := 0x8
  const CODE_ENTER := 0x10
  const CODE_TAB := 0x2

  // scan_codes, row by row: the character without and with shift
  const DIGIT_ROW: seq<(byte, byte)> := [
    (0, 0), (0, 0), (49, 33), (50, 64), (51, 35), (52, 36), (53, 37), (54, 94), (55, 38), (56, 42), (57, 40), (48, 41),
    (45, 95), (61, 43), (8, 8), (2, 2)]
  const TOP_ROW: seq<(byte, byte)> := [
    (113, 81), (119, 87), (101, 69), (114, 82), (116, 84), (121, 89), (117, 85), (105, 73), (111, 79), (112, 80),
    (91, 123), (93, 125), (16, 16), (4, 4)]
  const HOME_ROW: seq<(byte, byte)> := [
    (97, 65), (115, 83), (100, 68), (102, 70), (103, 71), (104, 72), (106, 74), (107, 75), (108, 76),
    (59, 58), (39, 34), (96, 126), (5, 5), (92, 124)]
  const BOTTOM_ROW: seq<(byte, byte)> := [
    (122, 90), (120, 88), (99, 67), (118, 86), (98, 66), (110, 78), (109, 77),
    (44, 60), (46, 62), (47, 63), (6, 6), (0, 0), (0, 0), (32, 32), (7, 7), (9, 9), (10, 10), (11, 11), (0, 0), (0, 0)]
  const SCANCODES := DIGIT_ROW + TOP_ROW + HOME_ROW + BOTTOM_ROW

  function Codes(scancode: byte): (byte, byte) {
    if scancode as int < |SCANCODES| then SCANCODES[scancode] else (0, 0)
  }

  // The modifier keys at the top of keyboard_handler.
  function Modifier(scancode: byte, f: Flags): (r: (bool, Flags)) {
    if scancode == 0x3A then (true, f.(caps := !f.caps))
    else if scancode == 0xBA then (true, f)
    else if scancode == 0x2A || scancode == 0x36 then (true, f.(shift := true))
    else if scancode == 0xAA || scancode == 0xB6 then (true, f.(shift := false))
    else if scancode == 0x1D then (true, f.(ctrl := true))
    else if scancode == 0x9D then (true, f.(ctrl := false))
    else if scancode == 0x38 then (true, f.(alt := true))
    else if scancode == 0xB8 then (true, f.(alt := false))
    else (false, f)
  }

  function Decode(scancode: byte, f: Flags): Action {
    var (plain, shifted) := Codes(scancode);
    if Modifier(scancode, f).0 then SetFlags(Modifier(scancode, f).1)
    else if scancode >= 64 then Nothing
    else if plain == CODE_ENTER then Press(Enter)
    else if plain == CODE_BACKSPACE then Press(Backspace)
    else if plain == CODE_TAB then Press(Tab)
    else if f.ctrl && plain == 108 then ClearScreen
    else if f.alt then
      if plain == 9 then ShowTerminal(0)
      else if plain == 10 then ShowTerminal(1)
      else if plain == 11 then ShowTerminal(2)
      else Nothing
    else if 97 <= plain <= 122 then Press(Char(if f.caps != f.shift then shifted else plain))
    else Press(Char(if f.shift then shifted else plain))
  }

  // ----- the steps -----

  // A key handler, with the video address mapped to the displayed terminal.
  function HandleKey(m: Machine, key: Key): Machine
    requires Good(m) && Safe(Seen(m), Echo(m.terms[m.displayed].line, key))
  {
    var d := m.displayed;
    var line := m.terms[d].line;
    Latch(SaveCursor(Put(m.(terms := m.terms[d := m.terms[d].(line := KeyStep(line, key))]), Echo(line, key)), d))
  }

  // switch_terminal; the copy from the video address goes through the mapping
  function SwitchTo(m: Machine, next: nat): Machine
    requires Good(m) && next < NUM_TERMINALS
  {
    var d := m.displayed;
    if next == d then m
    else
      var frames := m.frames[d + 1 := m.frames[m.page]];
      Latch(SaveCursor(m, d).(x := m.terms[next].x, y := m.terms[next].y,
                              frames := frames[m.page := frames[next + 1]])).(displayed := next)
  }

  datatype Event =
    | Scancode(code: byte)       // a keyboard interrupt
    | Write(text: seq<byte>)     // terminal_write by the scheduled program
    | Read(nbytes: nat)          // terminal_read by the scheduled program, once its line has been entered
    | Tick                       // the timer hands the processor to the next terminal
    | Remap                      // halt and vidmap map the scheduled terminal's page again
    | MaxProcs                   // execute found no free process

  const MAX_PROC_TEXT: seq<byte> :=
    [77, 65, 88, 32, 80, 82, 79, 67, 69, 83, 83, 69, 83, 32, 82, 69, 65, 67, 72, 69, 68,
      10] // "MAX PROCESSES REACHED\n"

  // The scheduled program's output, after the notice that is due.
  function Notice(m: Machine, text: seq<byte>): seq<byte> {
    (if m.maxProc then MAX_PROC_TEXT else []) + text
  }

  // The key this event presses on the displayed terminal, if any.
  predicate Presses(m: Machine, e: Event)
    requires m.displayed < |m.terms|
  {
    e.Scancode? && Decode(e.code, m.flags).Press? &&
    !Blocked(m.terms[m.displayed].line, Decode(e.code, m.flags).key, m.flags.alt)
  }

  function KeyOf(m: Machine, e: Event): Key
    requires m.displayed < |m.terms| && Presses(m, e)
  {
    Decode(e.code, m.flags).key
  }

  // What the event prints on terminal t.
  function Output(m: Machine, e: Event, t: nat): seq<byte>
    requires Good(m)
  {
    if e.Write? && t == m.scheduled then Notice(m, e.text)
    else if Presses(m, e) && t == m.displayed then Echo(m.terms[t].line, KeyOf(m, e))
    else []
  }

  // Terminal t's screen: the display page if it is displayed, else its backing page.
  function Logical(m: Machine, t: nat): Screen
    requires Good(m) && t < NUM_TERMINALS
  {
    Screen(m.frames[if t == m.displayed then 0 else t + 1], m.terms[t].x, m.terms[t].y)
  }

  // Ctrl-L is not a step, a read waits for its line, and nothing steps back over the left edge.
  ghost predicate Enabled(m: Machine, e: Event) {
    && Good(m)
    && !(e.Scancode? && Decode(e.code, m.flags).ClearScreen?)
    && (e.Read? ==> m.terms[m.scheduled].line.enter)
    && (forall t :: 0 <= t < NUM_TERMINALS ==> Safe(Logical(m, t), Output(m, e, t)))
  }

  // Whether the handler drops the scancode before it touches any terminal.
  predicate Dropped(m: Machine, code: byte)
    requires m.displayed < |m.terms|
  {
    var plain := Codes(code).0;
    m.terms[m.displayed].line.nchars >= LAST && plain != CODE_ENTER && plain != CODE_BACKSPACE
    && !(m.flags.ctrl && plain == 108) && !m.flags.alt
  }

  // Mapped to terminal t, putc sees terminal t's own screen.
  lemma SeenIsLogical(m: Machine, t: nat)
    requires Good(m) && t < NUM_TERMINALS
    ensures Good(MapTo(m, t)) && Seen(MapTo(m, t)) == Logical(m, t)
  {}

  ghost function KeyboardStep(m: Machine, code: byte): Machine
    requires Enabled(m, Scancode(code))
  {
    var action := Decode(code, m.flags);
    if action.SetFlags? then m.(flags := action.flags)
    else if Dropped(m, code) || code >= 64 then m
    else
      var shown := MapTo(m, m.displayed);
      SeenIsLogical(m, m.displayed);
      assert Safe(Logical(m, m.displayed), Output(m, Scancode(code), m.displayed));
      var done := match action
        case Press(key) => HandleKey(shown, key)
        case ShowTerminal(t) => SwitchTo(shown, t)
        case _ => shown;
      MapTo(Latch(done), m.scheduled)
  }

  ghost function WriteStep(m: Machine, text: seq<byte>): Machine
    requires Enabled(m, Write(text))
  {
    var s := m.scheduled;
    SeenIsLogical(m, s);
    assert Safe(Logical(m, s), Output(m, Write(text), s));
    var written := Put(MapTo(m, s), Notice(m, text)).(maxProc := false);
    var latched := if s == m.displayed then Latch(written) else written;
    MapTo(SaveCursor(latched, s), m.displayed)
  }

  ghost function ReadStep(m: Machine, nbytes: nat): Machine
    requires Enabled(m, Read(nbytes))
  {
    m.(terms := m.terms[m.scheduled := m.terms[m.scheduled].(line := ReadLine(m.terms[m.scheduled].line, nbytes).0)])
  }

  ghost function Step(m: Machine, e: Event): Machine
    requires Enabled(m, e)
  {
    match e
    case Scancode(code) => KeyboardStep(m, code)
    case Write(text) => WriteStep(m, text)
    case Read(nbytes) => ReadStep(m, nbytes)
    case Tick =>
      var next := (m.scheduled + 1) % NUM_TERMINALS;
      MapTo(m.(scheduled := next), next)
    case Remap => MapTo(m, m.scheduled)
    case MaxProcs => m.(maxProc := true)
  }
}
