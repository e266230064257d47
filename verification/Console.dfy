/** The text console of student-distrib/lib.c on values: what one `putc` does to a 4 KB video page and the cursor. */
module Console {
  import opened Bytes

  const COLS := 80
  const ROWS := 25
  const ATTRIB: byte := 7
  const FRAME := 4096 // bytes of one page
  const CELLS := 2000 // ROWS * COLS; two bytes each
  const FRAMES := 4   // the display page at 0xB8000, then one backing page per terminal

  datatype Screen = Screen(frame: seq<byte>, x: int, y: int)

  ghost predicate InRange(s: Screen) {
    |s.frame| == FRAME && 0 <= s.x < COLS && 0 <= s.y < ROWS
  }

  // Byte offset of a cell's character; its attribute is the next byte.
  function Offset(x: int, y: int): int { 2 * (COLS * y + x) }

  function WithCell(frame: seq<byte>, at: int, c: byte): (after: seq<byte>)
    requires |frame| == FRAME && 0 <= at < FRAME - 1
    ensures |after| == FRAME
  {
    frame[at := c][at + 1 := ATTRIB]
  }

  // Byte k after a scroll: the row below moves up, the bottom row is blank, bytes past the cells stay.
  function ScrolledByte(frame: seq<byte>, k: int): byte
    requires |frame| == FRAME && 0 <= k < FRAME
  {
    if k >= 2 * CELLS then frame[k]
    else if k % 2 == 1 then ATTRIB
    else if k < 2 * (CELLS - COLS) then frame[k + 2 * COLS]
    else SPACE
  }

  function Scrolled(frame: seq<byte>): (after: seq<byte>)
    requires |frame| == FRAME
    ensures |after| == FRAME && forall k :: 0 <= k < FRAME ==> after[k] == ScrolledByte(frame, k)
  {
    seq(FRAME, k requires 0 <= k < FRAME => ScrolledByte(frame, k))
  }

  // Writes one cell and moves on, wrapping at the right edge and scrolling at the bottom.
  function PutCell(s: Screen, c: byte): (t: Screen)
    requires InRange(s)
    ensures InRange(t)
  {
    var frame := WithCell(s.frame, Offset(s.x, s.y), c);
    if s.x + 1 == COLS then
      if s.y == ROWS - 1 then Screen(Scrolled(frame), 0, s.y) else Screen(frame, 0, s.y + 1)
    else Screen(frame, s.x + 1, s.y)
  }

  function NewLine(s: Screen): (t: Screen)
    requires InRange(s)
    ensures InRange(t)
  {
    if s.y == ROWS - 1 then Screen(Scrolled(s.frame), 0, s.y) else Screen(s.frame, 0, s.y + 1)
  }

  // At column 0 of a lower row this leaves the cursor in column 80 of the row above.
  function BackSpace(s: Screen): (t: Screen)
    requires InRange(s)
  {
    var x := if s.x > 0 then s.x - 1 else if s.y != 0 then COLS else 0;
    var y := if s.x == 0 && s.y != 0 then s.y - 1 else s.y;
    Screen(WithCell(s.frame, Offset(x, y), SPACE), x, y)
  }

  function PutByte(s: Screen, c: byte): (t: Screen)
    requires InRange(s)
  {
    if c == NEWLINE || c == RETURN then NewLine(s)
    else if c == BACKSPACE then BackSpace(s)
    else if c == TAB then PutCell(PutCell(PutCell(PutCell(s, SPACE), SPACE), SPACE), SPACE)
    else PutCell(s, c)
  }

  ghost predicate StepsBackOverEdge(s: Screen, c: byte) {
    c == BACKSPACE && s.x == 0 && s.y > 0
  }

  /** One byte keeps the cursor on the screen exactly when it is not a backspace at column 0 of a lower row; every
    * cell it writes is inside the page either way. */
  lemma CursorStaysInRange(s: Screen, c: byte)
    requires InRange(s)
    ensures InRange(PutByte(s, c)) <==> !StepsBackOverEdge(s, c)
    ensures |PutByte(s, c).frame| == FRAME
  {}

  // No byte of the text is a backspace at column 0 of a lower row.
  ghost predicate NeverStepsBack(s: Screen, text: seq<byte>)
    requires InRange(s)
    decreases |text|
  {
    text == [] || (!StepsBackOverEdge(s, text[0]) && NeverStepsBack(PutByte(s, text[0]), text[1..]))
  }

  // The text can be printed from here on.
  ghost predicate Safe(s: Screen, text: seq<byte>) {
    InRange(s) && NeverStepsBack(s, text)
  }

  function Feed(s: Screen, text: seq<byte>): (t: Screen)
    requires Safe(s, text)
    ensures InRange(t)
    decreases |text|
  {
    if text == [] then s else Feed(PutByte(s, text[0]), text[1..])
  }

  lemma SafeNext(s: Screen, text: seq<byte>)
    requires text != []
    ensures Safe(s, text) <==> InRange(s) && !StepsBackOverEdge(s, text[0]) && Safe(PutByte(s, text[0]), text[1..])
    ensures Safe(s, text) ==> Feed(s, text) == Feed(PutByte(s, text[0]), text[1..])
  {}

  lemma {:induction false} FeedAppend(s: Screen, a: seq<byte>, b: seq<byte>)
    requires InRange(s)
    ensures Safe(s, a + b) <==> Safe(s, a) && Safe(Feed(s, a), b)
    ensures Safe(s, a + b) ==> Feed(s, a + b) == Feed(Feed(s, a), b)
    decreases |a|
  {
    if a == [] {
      assert a + b == b;
    } else {
      assert (a + b)[0] == a[0] && (a + b)[1..] == a[1..] + b;
      if InRange(PutByte(s, a[0])) { FeedAppend(PutByte(s, a[0]), a[1..], b); }
    }
  }

  function Cleared(frame: seq<byte>): (after: seq<byte>)
    requires |frame| == FRAME
    ensures |after| == FRAME
  {
    seq(FRAME, k requires 0 <= k < FRAME => if k >= 2 * CELLS then frame[k] else if k % 2 == 1 then ATTRIB else SPACE)
  }

  // ----- cells -----

  function CharAt(frame: seq<byte>, r: int, c: int): byte
    requires |frame| == FRAME && 0 <= r < ROWS && 0 <= c < COLS
  {
    frame[Offset(c, r)]
  }

  function AttrAt(frame: seq<byte>, r: int, c: int): byte
    requires |frame| == FRAME && 0 <= r < ROWS && 0 <= c < COLS
  {
    frame[Offset(c, r) + 1]
  }

  lemma CellWritten(frame: seq<byte>, x: int, y: int, ch: byte, r: int, c: int)
    requires |frame| == FRAME && 0 <= x < COLS && 0 <= y < ROWS && 0 <= r < ROWS && 0 <= c < COLS
    ensures var after := WithCell(frame, Offset(x, y), ch);
      && CharAt(after, r, c) == (if r == y && c == x then ch else CharAt(frame, r, c))
      && AttrAt(after, r, c) == (if r == y && c == x then ATTRIB else AttrAt(frame, r, c))
  {}

  lemma CellScrolled(frame: seq<byte>, r: int, c: int)
    requires |frame| == FRAME && 0 <= r < ROWS && 0 <= c < COLS
    ensures CharAt(Scrolled(frame), r, c) == if r < ROWS - 1 then CharAt(frame, r + 1, c) else SPACE
    ensures AttrAt(Scrolled(frame), r, c) == ATTRIB
  {}
}
