/** What the user sees while editing: the echo of each key keeps the screen row in step with the line buffer. */
module LineEcho {
  import opened Bytes
  import opened Console
  import opened LineDiscipline

  // The row from column x0 on shows the line's characters and then blanks, with the cursor after the last character.
  ghost predicate RowShows(s: Screen, l: Line, x0: nat) {
    && InRange(s) && Shaped(l) && l.nchars <= LAST
    && s.x == x0 + l.nchars < COLS
    && (forall c :: x0 <= c < COLS ==> CharAt(s.frame, s.y, c) == if c < s.x then l.buffer[c - x0] else SPACE)
  }

  // Echoed characters that take one cell.
  predicate Visible(c: byte) { c != NEWLINE && c != RETURN && c != TAB && c != BACKSPACE }

  // One cell written in the row: what the row shows afterwards.
  lemma RowCell(s: Screen, c: byte)
    requires InRange(s) && s.x + 1 < COLS
    ensures var t := PutCell(s, c);
      && t.x == s.x + 1 && t.y == s.y
      && forall k :: 0 <= k < COLS ==> CharAt(t.frame, t.y, k) == if k == s.x then c else CharAt(s.frame, s.y, k)
  {}

  lemma RowBack(s: Screen)
    requires InRange(s) && s.x > 0
    ensures var t := PutByte(s, BACKSPACE);
      && InRange(t) && t.x == s.x - 1 && t.y == s.y
      && forall k :: 0 <= k < COLS ==> CharAt(t.frame, t.y, k) == if k == s.x - 1 then SPACE
        else CharAt(s.frame, s.y, k)
  {}

  lemma FeedOne(s: Screen, c: byte)
    requires InRange(s) && InRange(PutByte(s, c))
    ensures Safe(s, [c]) && Feed(s, [c]) == PutByte(s, c)
  {}

  lemma {:induction false} BackOver(s: Screen, n: nat, text: seq<byte>)
    requires InRange(s) && n <= s.x && text == seq(n, i => BACKSPACE)
    ensures Safe(s, text)
    ensures var t := Feed(s, text);
      && t.x == s.x - n && t.y == s.y
      && forall k :: 0 <= k < COLS ==> CharAt(t.frame, t.y, k) == if s.x - n <= k < s.x then SPACE
        else CharAt(s.frame, s.y, k)
    decreases n
  {
    if n == 0 {
    } else {
      RowBack(s);
      hide PutByte;
      assert text[1..] == seq(n - 1, i => BACKSPACE);
      BackOver(PutByte(s, BACKSPACE), n - 1, text[1..]);
    }
  }

  lemma FourCells(s: Screen)
    requires InRange(s) && s.x + 4 < COLS
    ensures var t := PutByte(s, TAB);
      && InRange(t) && t.x == s.x + 4 && t.y == s.y
      && forall k :: 0 <= k < COLS ==> CharAt(t.frame, t.y, k) == if s.x <= k < s.x + 4 then SPACE
        else CharAt(s.frame, s.y, k)
  {}

  lemma EchoChar(s: Screen, l: Line, x0: nat, c: byte)
    requires RowShows(s, l, x0) && Visible(c) && l.nchars < LAST && s.x + 1 < COLS
    ensures Safe(s, [c]) && RowShows(Feed(s, [c]), TypeChar(l, c), x0)
  {
    RowCell(s, c);
    FeedOne(s, c);
    hide PutCell;
  }

  lemma EchoTab(s: Screen, l: Line, x0: nat)
    requires RowShows(s, l, x0) && l.nchars <= LAST - 4 && s.x + 4 < COLS
    ensures Safe(s, [TAB]) && RowShows(Feed(s, [TAB]), TypeTab(l, 4), x0)
  {
    FourCells(s);
    FeedOne(s, TAB);
    TabTyped(l);
    hide PutByte, TypeTab;
  }

  lemma EchoErase(s: Screen, l: Line, x0: nat, text: seq<byte>)
    requires RowShows(s, l, x0) && l.nchars > 0 && text == Echo(l, Backspace)
    requires l.tabs[l.nchars - 1] == TAB ==> l.nchars >= 4
    ensures Safe(s, text) && RowShows(Feed(s, text), Erase(l), x0)
  {
    var n := if l.tabs[l.nchars - 1] == TAB then 4 else 1;
    assert text == seq(n, i => BACKSPACE);
    BackOver(s, n, text);
  }

  /** The echo agrees with the buffer: while the edited line stays on one screen row, after every key the cursor
    * column is the start column plus nchars and the row shows exactly the buffer and then blanks. */
  lemma EchoAgrees(s: Screen, l: Line, tokens: seq<Token>, x0: nat, key: Key)
    requires RowShows(s, l, x0) && Holds(l, tokens)
    requires !key.Enter? && (key.Char? ==> Visible(key.c))
    requires FullTab(l, key) && x0 + Press(l, key).nchars < COLS
    ensures Safe(s, Echo(l, key)) && RowShows(Feed(s, Echo(l, key)), Press(l, key), x0)
    ensures Feed(s, Echo(l, key)).y == s.y
  {
    match key
    case Char(c) => EchoChar(s, l, x0, c); RowCell(s, c); FeedOne(s, c);
    case Tab => TabTyped(l); EchoTab(s, l, x0); FourCells(s); FeedOne(s, TAB);
    case Backspace =>
      if l.nchars > 0 {
        assert tokens != [];
        EraseHolds(l, tokens);
        EchoErase(s, l, x0, Echo(l, key));
        BackOver(s, |Echo(l, key)|, Echo(l, key));
      }
  }

  // Every key is one the row has room for.
  ghost predicate StaysOnRow(l: Line, x0: nat, keys: seq<Key>)
    requires Shaped(l) && l.nchars <= LINE
    decreases |keys|
  {
    keys == [] ||
    (!keys[0].Enter? && (keys[0].Char? ==> Visible(keys[0].c)) && FullTab(l, keys[0]) &&
     x0 + Press(l, keys[0]).nchars < COLS && StaysOnRow(Press(l, keys[0]), x0, keys[1..]))
  }

  function EchoAll(l: Line, keys: seq<Key>): seq<byte>
    requires Shaped(l) && l.nchars <= LINE
    decreases |keys|
  {
    if keys == [] then [] else Echo(l, keys[0]) + EchoAll(Press(l, keys[0]), keys[1..])
  }

  lemma RowInRange(s: Screen, l: Line, x0: nat)
    requires RowShows(s, l, x0)
    ensures InRange(s)
  {}

  /** The same for a whole edit: however characters, tabs and backspaces follow each other. */
  lemma {:induction false} EditingShows(s: Screen, l: Line, tokens: seq<Token>, x0: nat, keys: seq<Key>)
    requires RowShows(s, l, x0) && Holds(l, tokens) && StaysOnRow(l, x0, keys)
    ensures Safe(s, EchoAll(l, keys))
    ensures RowShows(Feed(s, EchoAll(l, keys)), PressAll(l, keys), x0) && Feed(s, EchoAll(l, keys)).y == s.y
    decreases |keys|
  {
    if keys != [] {
      EchoAgrees(s, l, tokens, x0, keys[0]);
      PressHolds(l, tokens, keys[0]);
      var t, k := Feed(s, Echo(l, keys[0])), Press(l, keys[0]);
      hide RowShows, Holds, Press, Echo, Feed, Safe;
      EditingShows(t, k, TokenStep(tokens, keys[0]), x0, keys[1..]);
      RowInRange(s, l, x0);
      FeedAppend(s, Echo(l, keys[0]), EchoAll(k, keys[1..]));
    } else {
      RowInRange(s, l, x0);
    }
  }
}
