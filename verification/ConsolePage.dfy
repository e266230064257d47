/** The console as the last 25 rows of an unbounded page. */
module ConsolePage {
  import opened Basics
  import opened Bytes
  import opened Console

  // All rows ever started, each 80 wide; the cursor is in the last one.
  datatype Page = Page(rows: seq<seq<byte>>, col: nat)

  ghost predicate ValidPage(p: Page) {
    p.rows != [] && p.col < COLS && forall r :: 0 <= r < |p.rows| ==> |p.rows[r]| == COLS
  }

  function BlankRow(): (row: seq<byte>)
    ensures |row| == COLS && forall c :: 0 <= c < COLS ==> row[c] == SPACE
  {
    seq(COLS, i => SPACE)
  }

  function EmptyPage(): Page { Page([BlankRow()], 0) }

  function SetAt(row: seq<byte>, col: nat, c: byte): seq<byte>
    requires col < |row|
  {
    row[col := c]
  }

  function SetCell(p: Page, col: nat, c: byte): (rows: seq<seq<byte>>)
    requires ValidPage(p) && col < COLS
    ensures |rows| == |p.rows| && forall r :: 0 <= r < |rows| ==> |rows[r]| == COLS
  {
    p.rows[|p.rows| - 1 := SetAt(p.rows[|p.rows| - 1], col, c)]
  }

  function PageCell(p: Page, c: byte): (q: Page)
    requires ValidPage(p)
    ensures ValidPage(q)
  {
    var rows := SetCell(p, p.col, c);
    if p.col + 1 == COLS then Page(rows + [BlankRow()], 0) else Page(rows, p.col + 1)
  }

  // A newline starts a row, a tab is four spaces, a backspace blanks the cell before the cursor.
  function PagePut(p: Page, c: byte): (q: Page)
    requires ValidPage(p)
    ensures ValidPage(q)
  {
    if c == NEWLINE || c == RETURN then Page(p.rows + [BlankRow()], 0)
    else if c == BACKSPACE then
      var col := if p.col > 0 then p.col - 1 else 0;
      Page(SetCell(p, col, SPACE), col)
    else if c == TAB then PageCell(PageCell(PageCell(PageCell(p, SPACE), SPACE), SPACE), SPACE)
    else PageCell(p, c)
  }

  function PageFeed(p: Page, text: seq<byte>): (q: Page)
    requires ValidPage(p)
    ensures ValidPage(q)
    decreases |text|
  {
    if text == [] then p else PageFeed(PagePut(p, text[0]), text[1..])
  }

  // The page's row that is on screen row r: the last 25 are.
  function PageRow(p: Page, r: nat): nat {
    if |p.rows| <= ROWS then r else |p.rows| - ROWS + r
  }

  // The character the screen must show at (r, c), blank below the page's end.
  function ViewCell(p: Page, r: nat, c: nat): byte
    requires ValidPage(p) && r < ROWS && c < COLS
  {
    if PageRow(p, r) < |p.rows| then p.rows[PageRow(p, r)][c] else SPACE
  }

  // The cursor is the page's, and so are the page's rows from `first` on. On a screen that was not cleared the rows
  // before the 26th may still show what was there.
  ghost predicate ShowsFrom(s: Screen, p: Page, first: nat) {
    && InRange(s) && ValidPage(p)
    && s.x == p.col
    && s.y == Min(|p.rows|, ROWS) - 1
    && (forall r, c :: 0 <= r < ROWS && 0 <= c < COLS && PageRow(p, r) >= first ==>
          CharAt(s.frame, r, c) == ViewCell(p, r, c) && AttrAt(s.frame, r, c) == ATTRIB)
  }

  ghost predicate Shows(s: Screen, p: Page) {
    ShowsFrom(s, p, 0)
  }

  lemma CellShows(s: Screen, p: Page, first: nat, x: nat, ch: byte)
    requires ShowsFrom(s, p, first) && x < COLS
    ensures ShowsFrom(Screen(WithCell(s.frame, Offset(x, s.y), ch), x, s.y), Page(SetCell(p, x, ch), x), first)
  {
    var t, q := Screen(WithCell(s.frame, Offset(x, s.y), ch), x, s.y), Page(SetCell(p, x, ch), x);
    forall r, c | 0 <= r < ROWS && 0 <= c < COLS && PageRow(q, r) >= first
      ensures CharAt(t.frame, r, c) == ViewCell(q, r, c) && AttrAt(t.frame, r, c) == ATTRIB
    {
      CellWritten(s.frame, x, s.y, ch, r, c);
      assert CharAt(s.frame, r, c) == ViewCell(p, r, c);
    }
  }

  lemma NewRowShows(s: Screen, p: Page, first: nat)
    requires ShowsFrom(s, p, first)
    ensures ShowsFrom(NewLine(s), Page(p.rows + [BlankRow()], 0), first)
  {
    var t, q := NewLine(s), Page(p.rows + [BlankRow()], 0);
    forall r, c | 0 <= r < ROWS && 0 <= c < COLS && PageRow(q, r) >= first
      ensures CharAt(t.frame, r, c) == ViewCell(q, r, c) && AttrAt(t.frame, r, c) == ATTRIB
    {
      CellScrolled(s.frame, r, c);
      if |p.rows| < ROWS {
        assert CharAt(s.frame, r, c) == ViewCell(p, r, c);
      } else if r < ROWS - 1 {
        assert CharAt(s.frame, r + 1, c) == ViewCell(p, r + 1, c);
      }
    }
  }

  lemma MovedShows(s: Screen, p: Page, first: nat, x: nat)
    requires ShowsFrom(s, p, first) && x < COLS
    ensures ShowsFrom(Screen(s.frame, x, s.y), Page(p.rows, x), first)
  {}

  lemma PutCellShows(s: Screen, p: Page, first: nat, ch: byte)
    requires ShowsFrom(s, p, first)
    ensures ShowsFrom(PutCell(s, ch), PageCell(p, ch), first)
  {
    CellShows(s, p, first, s.x, ch);
    var t, q := Screen(WithCell(s.frame, Offset(s.x, s.y), ch), s.x, s.y), Page(SetCell(p, s.x, ch), s.x);
    if s.x + 1 == COLS {
      NewRowShows(t, q, first);
    } else {
      MovedShows(t, q, first, s.x + 1);
    }
  }

  lemma ShowsMeans(s: Screen, p: Page, first: nat)
    requires ShowsFrom(s, p, first)
    ensures InRange(s) && ValidPage(p) && s.x == p.col
    ensures s.y > 0 <==> |p.rows| > 1
  {}

  /** One byte on the screen is the same byte on the page, unless it is a backspace over the left edge. */
  lemma PutShows(s: Screen, p: Page, first: nat, c: byte)
    requires ShowsFrom(s, p, first) && !StepsBackOverEdge(s, c)
    ensures ShowsFrom(PutByte(s, c), PagePut(p, c), first)
  {
    ShowsMeans(s, p, first);
    hide ShowsFrom, ViewCell, PutCell, PageCell;
    if c == NEWLINE || c == RETURN {
      NewRowShows(s, p, first);
    } else if c == BACKSPACE {
      CellShows(s, p, first, if s.x > 0 then s.x - 1 else 0, SPACE);
    } else if c == TAB {
      PutCellShows(s, p, first, SPACE);
      var s1, p1 := PutCell(s, SPACE), PageCell(p, SPACE);
      PutCellShows(s1, p1, first, SPACE);
      var s2, p2 := PutCell(s1, SPACE), PageCell(p1, SPACE);
      PutCellShows(s2, p2, first, SPACE);
      PutCellShows(PutCell(s2, SPACE), PageCell(p2, SPACE), first, SPACE);
    } else {
      PutCellShows(s, p, first, c);
    }
  }

  // The text alone: no backspace of it comes at the very start of a row that follows another.
  ghost predicate NeverOverEdge(p: Page, text: seq<byte>)
    requires ValidPage(p)
  {
    forall k :: 0 <= k < |text| && text[k] == BACKSPACE ==>
      var before := PageFeed(p, text[..k]);
      before.col > 0 || |before.rows| == 1
  }

  lemma NeverOverEdgeNext(p: Page, text: seq<byte>)
    requires ValidPage(p) && text != []
    ensures NeverOverEdge(p, text) <==>
      !(text[0] == BACKSPACE && p.col == 0 && |p.rows| > 1) && NeverOverEdge(PagePut(p, text[0]), text[1..])
  {
    var q, rest := PagePut(p, text[0]), text[1..];
    forall k | 0 <= k < |rest| ensures PageFeed(q, rest[..k]) == PageFeed(p, text[..k + 1]) {
      assert text[..k + 1][0] == text[0] && text[..k + 1][1..] == rest[..k];
    }
    assert PageFeed(p, text[..0]) == p;
    if NeverOverEdge(p, text) {
      forall k | 0 <= k < |rest| && rest[k] == BACKSPACE
        ensures PageFeed(q, rest[..k]).col > 0 || |PageFeed(q, rest[..k]).rows| == 1
      {
        assert text[k + 1] == BACKSPACE;
      }
    }
    if NeverOverEdge(q, rest) && !(text[0] == BACKSPACE && p.col == 0 && |p.rows| > 1) {
      forall k | 0 <= k < |text| && text[k] == BACKSPACE
        ensures PageFeed(p, text[..k]).col > 0 || |PageFeed(p, text[..k]).rows| == 1
      {
        if k > 0 { assert rest[k - 1] == BACKSPACE; }
      }
    }
  }

  /** A text keeps the cursor on the screen, and can be printed at all, if and only if the text alone never backs
    * over the left edge of a lower row of the page it lays out. */
  lemma {:induction false} SafeExactly(s: Screen, p: Page, first: nat, text: seq<byte>)
    requires ShowsFrom(s, p, first)
    ensures Safe(s, text) <==> NeverOverEdge(p, text)
    decreases |text|
  {
    ShowsMeans(s, p, first);
    if text == [] {
    } else {
      SafeNext(s, text);
      NeverOverEdgeNext(p, text);
      hide Safe, NeverOverEdge, ShowsFrom, PutByte, PagePut;
      if !StepsBackOverEdge(s, text[0]) {
        PutShows(s, p, first, text[0]);
        SafeExactly(PutByte(s, text[0]), PagePut(p, text[0]), first, text[1..]);
      }
    }
  }

  lemma {:induction false} FeedShows(s: Screen, p: Page, first: nat, text: seq<byte>)
    requires ShowsFrom(s, p, first) && Safe(s, text)
    ensures ShowsFrom(Feed(s, text), PageFeed(p, text), first)
    decreases |text|
  {
    ShowsMeans(s, p, first);
    if text == [] {
    } else {
      SafeNext(s, text);
      hide ShowsFrom, PutByte, PagePut, Safe;
      PutShows(s, p, first, text[0]);
      FeedShows(PutByte(s, text[0]), PagePut(p, text[0]), first, text[1..]);
    }
  }

  /** For every byte stream that never backs over the left edge of the page it lays out, the cursor stays on the
    * screen and ends where the page does, and the 25 by 80 screen is the page's last 25 rows with every attribute
    * the console's: all of them after a clear, and from row `first` on when the screen showed them from there. */
  lemma ConsoleRefinesPage(s: Screen, p: Page, first: nat, text: seq<byte>)
    requires ShowsFrom(s, p, first) && NeverOverEdge(p, text)
    ensures Safe(s, text) && InRange(Feed(s, text))
    ensures ShowsFrom(Feed(s, text), PageFeed(p, text), first)
  {
    SafeExactly(s, p, first, text);
    FeedShows(s, p, first, text);
  }

  /** A cleared screen shows the empty page. */
  lemma ClearShows(frame: seq<byte>)
    requires |frame| == FRAME
    ensures Shows(Screen(Cleared(frame), 0, 0), EmptyPage())
  {}

  /** A page nobody cleared shows the empty page if and only if all its cells are blank already; but from the 26th
    * row on what is laid out on it is shown, whatever it held. */
  lemma UnclearedShows(frame: seq<byte>)
    requires |frame| == FRAME
    ensures Shows(Screen(frame, 0, 0), EmptyPage()) <==>
      forall r, c :: 0 <= r < ROWS && 0 <= c < COLS ==> CharAt(frame, r, c) == SPACE && AttrAt(frame, r, c) == ATTRIB
    ensures ShowsFrom(Screen(frame, 0, 0), EmptyPage(), ROWS)
  {}

  /** Once 25 rows have scrolled off, an uncleared screen shows its page like any other. */
  lemma ScrolledClean(s: Screen, p: Page)
    requires ShowsFrom(s, p, ROWS) && |p.rows| >= 2 * ROWS
    ensures Shows(s, p)
  {}

  // ----- what the page lays out -----

  lemma {:induction false} PageFeedAppend(p: Page, a: seq<byte>, b: seq<byte>)
    requires ValidPage(p)
    ensures PageFeed(p, a + b) == PageFeed(PageFeed(p, a), b)
    decreases |a|
  {
    if a == [] {
      assert a + b == b;
    } else {
      assert (a + b)[0] == a[0] && (a + b)[1..] == a[1..] + b;
      PageFeedAppend(PagePut(p, a[0]), a[1..], b);
    }
  }

  predicate Ordinary(c: byte) { c != NEWLINE && c != RETURN && c != BACKSPACE && c != TAB }

  // Character k of the text at row k / 80 and column k % 80, blanks after it.
  ghost predicate LaidOut(p: Page, text: seq<byte>) {
    && ValidPage(p)
    && COLS * (|p.rows| - 1) + p.col == |text|
    && (forall r, c :: 0 <= r < |p.rows| && 0 <= c < COLS ==>
          p.rows[r][c] == if COLS * r + c < |text| then text[COLS * r + c] else SPACE)
  }

  lemma CellLaidOut(p: Page, text: seq<byte>, ch: byte)
    requires LaidOut(p, text)
    ensures LaidOut(PageCell(p, ch), text + [ch])
  {}

  /** Ordinary characters are laid out by wrapping at 80 columns. */
  lemma {:induction false} OrdinaryTextWraps(text: seq<byte>)
    requires forall k :: 0 <= k < |text| ==> Ordinary(text[k])
    ensures LaidOut(PageFeed(EmptyPage(), text), text)
  {
    if text == [] {
    } else {
      var n := |text| - 1;
      OrdinaryTextWraps(text[..n]);
      var p := PageFeed(EmptyPage(), text[..n]);
      assert text == text[..n] + [text[n]];
      PageFeedAppend(EmptyPage(), text[..n], [text[n]]);
      assert PageFeed(p, [text[n]]) == PagePut(p, text[n]) by { assert [text[n]][1..] == []; }
      CellLaidOut(p, text[..n], text[n]);
    }
  }

  lemma SetBelow(above: seq<seq<byte>>, p: Page, col: nat, c: byte)
    requires ValidPage(p) && ValidPage(Page(above + p.rows, p.col)) && col < COLS
    ensures SetCell(Page(above + p.rows, p.col), col, c) == above + SetCell(p, col, c)
  {}

  lemma CellBelow(above: seq<seq<byte>>, p: Page, c: byte)
    requires ValidPage(p) && ValidPage(Page(above + p.rows, p.col))
    ensures var q := PageCell(p, c);
      ValidPage(Page(above + q.rows, q.col)) && PageCell(Page(above + p.rows, p.col), c) == Page(above + q.rows, q.col)
  {
    SetBelow(above, p, p.col, c);
    var rows := SetCell(p, p.col, c);
    assert (above + rows) + [BlankRow()] == above + (rows + [BlankRow()]);
    assert forall r :: 0 <= r < |above| ==> above[r] == (above + p.rows)[r];
  }

  lemma PutBelow(above: seq<seq<byte>>, p: Page, c: byte)
    requires ValidPage(p) && ValidPage(Page(above + p.rows, p.col))
    ensures var q := PagePut(p, c);
      ValidPage(Page(above + q.rows, q.col)) && PagePut(Page(above + p.rows, p.col), c) == Page(above + q.rows, q.col)
  {
    hide PageCell;
    if c == NEWLINE || c == RETURN {
      assert (above + p.rows) + [BlankRow()] == above + (p.rows + [BlankRow()]);
    } else if c == BACKSPACE {
      SetBelow(above, p, if p.col > 0 then p.col - 1 else 0, SPACE);
    } else if c == TAB {
      CellBelow(above, p, SPACE);
      var p1 := PageCell(p, SPACE);
      CellBelow(above, p1, SPACE);
      var p2 := PageCell(p1, SPACE);
      CellBelow(above, p2, SPACE);
      CellBelow(above, PageCell(p2, SPACE), SPACE);
    } else {
      CellBelow(above, p, c);
    }
  }

  lemma {:induction false} RowsAbove(above: seq<seq<byte>>, p: Page, text: seq<byte>)
    requires ValidPage(p) && ValidPage(Page(above + p.rows, p.col))
    ensures PageFeed(Page(above + p.rows, p.col), text) == Page(above + PageFeed(p, text).rows, PageFeed(p, text).col)
    decreases |text|
  {
    if text == [] {
    } else {
      PutBelow(above, p, text[0]);
      RowsAbove(above, PagePut(p, text[0]), text[1..]);
    }
  }

  /** A newline ends the rows of what came before and lays out the rest as on an empty page. */
  lemma NewLineLaysOutApart(a: seq<byte>, b: seq<byte>)
    ensures PageFeed(EmptyPage(), a + [NEWLINE] + b)
         == Page(PageFeed(EmptyPage(), a).rows + PageFeed(EmptyPage(), b).rows, PageFeed(EmptyPage(), b).col)
  {
    var p := PageFeed(EmptyPage(), a);
    PageFeedAppend(EmptyPage(), a, [NEWLINE]);
    PageFeedAppend(EmptyPage(), a + [NEWLINE], b);
    assert PageFeed(p, [NEWLINE]) == PagePut(p, NEWLINE) by { assert [NEWLINE][1..] == []; }
    RowsAbove(p.rows, EmptyPage(), b);
  }
}
