/** The edited line of a terminal in student-distrib/keyboard.c: what each key does to line_buffer, tab_buffer and
  * nchars, what it echoes, and what terminal_read takes out again. */
module LineDiscipline {
  import opened Basics
  import opened Bytes

  const LINE := 128
  const LAST := 127

  datatype Line = Line(buffer: seq<byte>, tabs: seq<byte>, nchars: nat, enter: bool)
  datatype Key = Char(c: byte) | Tab | Backspace | Enter

  ghost predicate Shaped(l: Line) { |l.buffer| == |l.tabs| == LINE }

  function Store(l: Line, at: nat, c: byte, mark: byte): (k: Line)
    requires Shaped(l) && at < LINE
    ensures Shaped(k)
  {
    l.(buffer := l.buffer[at := c], tabs := l.tabs[at := mark])
  }

  // ----- the four handlers -----

  // terminal_putc
  function TypeChar(l: Line, c: byte): (k: Line)
    requires Shaped(l)
    ensures Shaped(k)
  {
    if l.nchars == LAST then Store(l, LAST, NEWLINE, NEWLINE)
    else if l.nchars < LAST then Store(l, l.nchars, c, c).(nchars := l.nchars + 1)
    else l
  }

  // n turns of the loop of terminal_tab
  function TypeTab(l: Line, n: nat): (k: Line)
    requires Shaped(l)
    ensures Shaped(k) && (l.nchars <= LINE ==> k.nchars <= LINE)
  {
    if n == 0 then l
    else
      var k := TypeTab(l, n - 1);
      if k.nchars == LAST then Store(k, LAST, NEWLINE, NEWLINE)
      else if k.nchars < LAST then Store(k, k.nchars, SPACE, TAB).(nchars := k.nchars + 1)
      else k
  }

  // terminal_backspace
  function Erase(l: Line): (k: Line)
    requires Shaped(l) && l.nchars <= LINE
    ensures Shaped(k)
  {
    if l.nchars == 0 then l
    else if l.tabs[l.nchars - 1] == TAB then l.(nchars := if l.nchars >= 4 then l.nchars - 4 else 0)
    else l.(nchars := l.nchars - 1)
  }

  // terminal_new_line
  function EndLine(l: Line): (k: Line)
    requires Shaped(l)
    ensures Shaped(k)
  {
    Store(l, if l.nchars >= LINE then LAST else l.nchars, NEWLINE, NEWLINE).(enter := true, nchars := 0)
  }

  function KeyStep(l: Line, key: Key): (k: Line)
    requires Shaped(l) && l.nchars <= LINE
    ensures Shaped(k) && k.nchars <= LINE
  {
    match key
    case Char(c) => TypeChar(l, c)
    case Tab => TypeTab(l, 4)
    case Backspace => Erase(l)
    case Enter => EndLine(l)
  }

  // The bytes the handler gives to putc.
  function Echo(l: Line, key: Key): seq<byte>
    requires Shaped(l) && l.nchars <= LINE
  {
    match key
    case Char(c) => if l.nchars <= LAST then [c] else []
    case Tab => [TAB]
    case Backspace =>
      if l.nchars == 0 then []
      else if l.tabs[l.nchars - 1] == TAB then [BACKSPACE, BACKSPACE, BACKSPACE, BACKSPACE]
      else [BACKSPACE]
    case Enter => [NEWLINE]
  }

  // keyboard_handler drops the key before any handler runs.
  predicate Blocked(l: Line, key: Key, alt: bool) {
    l.nchars >= LAST && (key.Char? || key.Tab?) && !alt
  }

  // terminal_read once enter_flag is set: copies at most nbytes and 128 bytes, blanking what it takes, up to a newline.
  function Take(l: Line, nbytes: nat, i: nat): (r: (Line, seq<byte>))
    requires Shaped(l) && i <= LINE
    ensures Shaped(r.0)
    decreases LINE - i
  {
    if i >= nbytes || i >= LINE then (l, [])
    else
      var c := l.buffer[i];
      var k := Store(l, i, SPACE, SPACE);
      if c == NEWLINE then (k, [c]) else var (rest, bytes) := Take(k, nbytes, i + 1); (rest, [c] + bytes)
  }

  function ReadLine(l: Line, nbytes: nat): (r: (Line, seq<byte>, nat))
    requires Shaped(l)
    ensures Shaped(r.0)
  {
    if nbytes == 0 then (l, [], 0)
    else
      var (k, bytes) := Take(l.(enter := false), nbytes, 0);
      (k.(nchars := 0), bytes, if bytes != [] && bytes[|bytes| - 1] == NEWLINE then |bytes| else nbytes)
  }

  // The first i cells blanked, as terminal_read leaves them.
  function Blanked(l: Line, i: nat): (k: Line)
    requires Shaped(l) && i <= LINE
    ensures Shaped(k)
  {
    if i == 0 then l else Store(Blanked(l, i - 1), i - 1, SPACE, SPACE)
  }

  lemma {:induction false} BlankedRest(l: Line, i: nat)
    requires Shaped(l) && i <= LINE
    ensures forall k :: i <= k < LINE ==> Blanked(l, i).buffer[k] == l.buffer[k]
  {
    if i == 0 {
    } else {
      BlankedRest(l, i - 1);
    }
  }

  lemma PrefixGrows(s: seq<byte>, i: nat, tail: seq<byte>)
    requires i < |s|
    ensures s[..i] + ([s[i]] + tail) == s[..i + 1] + tail
  {}

  lemma BlankedNone(l: Line)
    requires Shaped(l)
    ensures Blanked(l, 0) == l
  {}

  lemma BlankedNext(l: Line, i: nat)
    requires Shaped(l) && i < LINE
    ensures Blanked(l, i + 1) == Store(Blanked(l, i), i, SPACE, SPACE)
  {}

  lemma TakeOnce(l: Line, nbytes: nat, i: nat)
    requires Shaped(l) && i < nbytes && i < LINE && l.buffer[i] != NEWLINE
    ensures var on := Take(Store(l, i, SPACE, SPACE), nbytes, i + 1);
      Take(l, nbytes, i).0 == on.0 && Take(l, nbytes, i).1 == [l.buffer[i]] + on.1
  {}

  // After i turns without a newline the loop has taken the first i bytes and goes on behind them.
  lemma {:induction false} TakeTurns(l: Line, nbytes: nat, i: nat)
    requires Shaped(l) && i <= nbytes && i <= LINE && forall k :: 0 <= k < i ==> l.buffer[k] != NEWLINE
    ensures Take(l, nbytes, 0).0 == Take(Blanked(l, i), nbytes, i).0
    ensures Take(l, nbytes, 0).1 == l.buffer[..i] + Take(Blanked(l, i), nbytes, i).1
  {
    hide Take, Blanked;
    if i == 0 {
      BlankedNone(l);
      assert l.buffer[..0] + Take(l, nbytes, 0).1 == Take(l, nbytes, 0).1;
    } else {
      TakeTurns(l, nbytes, i - 1);
      BlankedRest(l, i - 1);
      TakeOnce(Blanked(l, i - 1), nbytes, i - 1);
      BlankedNext(l, i - 1);
      PrefixGrows(l.buffer, i - 1, Take(Blanked(l, i), nbytes, i).1);
    }
  }

  // The loop ends at the first newline, or with the request or the buffer used up.
  lemma TakeEnds(l: Line, nbytes: nat, i: nat)
    requires Shaped(l) && i <= nbytes && i <= LINE && forall k :: 0 <= k < i ==> l.buffer[k] != NEWLINE
    ensures i < nbytes && i < LINE ==> Blanked(l, i).buffer[i] == l.buffer[i]
    ensures i < nbytes && i < LINE && l.buffer[i] == NEWLINE ==>
      Take(l, nbytes, 0) == (Blanked(l, i + 1), l.buffer[..i + 1])
    ensures i == nbytes || i == LINE ==> Take(l, nbytes, 0) == (Blanked(l, i), l.buffer[..i])
  {
    TakeTurns(l, nbytes, i);
    BlankedRest(l, i);
    var rest := Take(Blanked(l, i), nbytes, i);
    if i == nbytes || i == LINE {
      assert l.buffer[..i] + [] == l.buffer[..i];
    } else if l.buffer[i] == NEWLINE {
      assert rest == (Blanked(l, i + 1), [NEWLINE]);
      assert l.buffer[..i] + [NEWLINE] == l.buffer[..i + 1];
    }
  }

  // ----- the line as a stack of typed tokens -----

  datatype Token = Glyph(c: byte) | TabStop

  function Cells(t: Token): seq<byte> {
    match t case Glyph(c) => [c] case TabStop => [SPACE, SPACE, SPACE, SPACE]
  }

  function Marks(t: Token): seq<byte> {
    match t case Glyph(c) => [c] case TabStop => [TAB, TAB, TAB, TAB]
  }

  function Expand(tokens: seq<Token>): seq<byte> {
    if tokens == [] then [] else Expand(tokens[..|tokens| - 1]) + Cells(tokens[|tokens| - 1])
  }

  function ExpandMarks(tokens: seq<Token>): (marks: seq<byte>)
    ensures |marks| == |Expand(tokens)|
  {
    if tokens == [] then [] else ExpandMarks(tokens[..|tokens| - 1]) + Marks(tokens[|tokens| - 1])
  }

  function TokenStep(tokens: seq<Token>, key: Key): seq<Token> {
    match key
    case Char(c) => if |Expand(tokens)| >= LAST then tokens else tokens + [Glyph(c)]
    case Tab => if |Expand(tokens)| >= LAST then tokens else tokens + [TabStop]
    case Backspace => if tokens == [] then [] else tokens[..|tokens| - 1]
    case Enter => []
  }

  // Characters a typed line may hold.
  predicate Typed(c: byte) { c != NEWLINE && c != TAB && c != BACKSPACE }

  // The buffers up to nchars spell out the tokens; what lies beyond is anything.
  ghost predicate Holds(l: Line, tokens: seq<Token>) {
    && Shaped(l)
    && l.nchars == |Expand(tokens)| <= LAST
    && l.buffer[..l.nchars] == Expand(tokens)
    && l.tabs[..l.nchars] == ExpandMarks(tokens)
    && (forall i :: 0 <= i < |tokens| && tokens[i].Glyph? ==> Typed(tokens[i].c))
  }

  // A tab is pressed with room for its four cells, or is dropped by a full line.
  predicate FullTab(l: Line, key: Key) {
    key.Tab? ==> l.nchars <= LAST - 4 || l.nchars >= LAST
  }

  function Press(l: Line, key: Key): (k: Line)
    requires Shaped(l) && l.nchars <= LINE
    ensures Shaped(k) && k.nchars <= LINE
  {
    if Blocked(l, key, false) then l else KeyStep(l, key)
  }

  lemma ExpandPush(tokens: seq<Token>, t: Token)
    ensures Expand(tokens + [t]) == Expand(tokens) + Cells(t)
    ensures ExpandMarks(tokens + [t]) == ExpandMarks(tokens) + Marks(t)
  {}

  lemma FourWritten(s: seq<byte>, n: nat, c: byte)
    requires n + 4 <= |s|
    ensures s[n := c][n + 1 := c][n + 2 := c][n + 3 := c] == s[..n] + [c, c, c, c] + s[n + 4..]
  {}

  lemma TabTyped(l: Line)
    requires Shaped(l) && l.nchars <= LAST - 4
    ensures var k := TypeTab(l, 4);
      && k.nchars == l.nchars + 4 && k.enter == l.enter
      && k.buffer == l.buffer[..l.nchars] + Cells(TabStop) + l.buffer[l.nchars + 4..]
      && k.tabs == l.tabs[..l.nchars] + Marks(TabStop) + l.tabs[l.nchars + 4..]
  {
    var n := l.nchars;
    FourWritten(l.buffer, n, SPACE);
    FourWritten(l.tabs, n, TAB);
    var k1 := Store(l, n, SPACE, TAB).(nchars := n + 1);
    var k2 := Store(k1, n + 1, SPACE, TAB).(nchars := n + 2);
    var k3 := Store(k2, n + 2, SPACE, TAB).(nchars := n + 3);
    var k4 := Store(k3, n + 3, SPACE, TAB).(nchars := n + 4);
    assert TypeTab(l, 0) == l && TypeTab(l, 1) == k1;
    assert TypeTab(l, 2) == k2 && TypeTab(l, 3) == k3;
    assert TypeTab(l, 4) == k4;
  }

  lemma PrefixParts(s: seq<byte>, m: nat, a: seq<byte>, b: seq<byte>)
    requires m <= |s| && s[..m] == a + b && b != []
    ensures s[..|a|] == a && m == |a| + |b| && s[m - 1] == b[|b| - 1]
  {}

  lemma CharHolds(l: Line, tokens: seq<Token>, c: byte)
    requires Holds(l, tokens) && Typed(c) && l.nchars < LAST
    ensures Holds(TypeChar(l, c), tokens + [Glyph(c)])
  {}

  lemma TabHolds(l: Line, tokens: seq<Token>)
    requires Holds(l, tokens) && l.nchars <= LAST - 4
    ensures Holds(TypeTab(l, 4), tokens + [TabStop])
  {
    ExpandPush(tokens, TabStop);
    TabTyped(l);
    hide Expand, ExpandMarks, TypeTab;
    var k := TypeTab(l, 4);
    assert k.buffer[..k.nchars] == l.buffer[..l.nchars] + Cells(TabStop);
    assert k.tabs[..k.nchars] == l.tabs[..l.nchars] + Marks(TabStop);
  }

  lemma EraseHolds(l: Line, tokens: seq<Token>)
    requires Holds(l, tokens) && tokens != []
    ensures Holds(Erase(l), tokens[..|tokens| - 1])
    ensures l.tabs[l.nchars - 1] == TAB <==> tokens[|tokens| - 1].TabStop?
    ensures tokens[|tokens| - 1].TabStop? ==> l.nchars >= 4
  {
    var t, rest := tokens[|tokens| - 1], tokens[..|tokens| - 1];
    PrefixParts(l.buffer, l.nchars, Expand(rest), Cells(t));
    PrefixParts(l.tabs, l.nchars, ExpandMarks(rest), Marks(t));
    hide Expand, ExpandMarks;
    assert tokens[|tokens| - 1].Glyph? ==> Typed(t.c);
  }

  // A tab leaves what stands before it alone, and on a full line does not move on.
  lemma {:induction false} TabKeepsFront(l: Line, n: nat)
    requires Shaped(l) && l.nchars <= LAST
    ensures var k := TypeTab(l, n);
      && l.nchars <= k.nchars <= LAST && (l.nchars == LAST ==> k.nchars == LAST)
      && k.buffer[..l.nchars] == l.buffer[..l.nchars] && k.tabs[..l.nchars] == l.tabs[..l.nchars]
  {
    if n == 0 {
    } else {
      TabKeepsFront(l, n - 1);
    }
  }

  lemma EnterHolds(l: Line)
    requires Shaped(l) && l.nchars <= LAST
    ensures Holds(EndLine(l), [])
  {}

  /** The handlers refine the token stack: each key pushes one token, pops one token, or ends the line. The branches
    * for a line beyond 127 and for a tab with fewer than four cells before it are not reached. */
  lemma KeyHolds(l: Line, tokens: seq<Token>, key: Key)
    requires Holds(l, tokens) && FullTab(l, key) && (key.Char? ==> Typed(key.c))
    ensures Holds(KeyStep(l, key), TokenStep(tokens, key))
    ensures key.Backspace? && l.nchars > 0 && l.tabs[l.nchars - 1] == TAB ==> l.nchars >= 4
  {
    hide ExpandMarks, TypeTab;
    match key
    case Char(c) => if l.nchars < LAST { CharHolds(l, tokens, c); }
    case Tab => if l.nchars < LAST { TabHolds(l, tokens); } else { TabKeepsFront(l, 4); }
    case Backspace => if tokens != [] { EraseHolds(l, tokens); }
    case Enter => EnterHolds(l);
  }

  /** So does keyboard_handler, which drops a character or a tab on a full line before any handler runs. */
  lemma PressHolds(l: Line, tokens: seq<Token>, key: Key)
    requires Holds(l, tokens) && FullTab(l, key) && (key.Char? ==> Typed(key.c))
    ensures Holds(Press(l, key), TokenStep(tokens, key))
    ensures key.Backspace? && l.nchars > 0 && l.tabs[l.nchars - 1] == TAB ==> l.nchars >= 4
  {
    hide KeyStep;
    KeyHolds(l, tokens, key);
  }

  // ----- whole lines -----

  // The keys alone: characters are ordinary, and tabs have room for their four cells or find the line full.
  ghost predicate KeysFit(tokens: seq<Token>, keys: seq<Key>)
    decreases |keys|
  {
    keys == [] ||
    ((keys[0].Char? ==> Typed(keys[0].c)) &&
     (keys[0].Tab? ==> |Expand(tokens)| <= LAST - 4 || |Expand(tokens)| >= LAST) &&
     KeysFit(TokenStep(tokens, keys[0]), keys[1..]))
  }

  function PressAll(l: Line, keys: seq<Key>): (k: Line)
    requires Shaped(l) && l.nchars <= LINE
    ensures Shaped(k) && k.nchars <= LINE
    decreases |keys|
  {
    if keys == [] then l else PressAll(Press(l, keys[0]), keys[1..])
  }

  // The same for keys that have all reached their handlers.
  function HandleAll(l: Line, keys: seq<Key>): (k: Line)
    requires Shaped(l) && l.nchars <= LINE
    ensures Shaped(k) && k.nchars <= LINE
    decreases |keys|
  {
    if keys == [] then l else HandleAll(KeyStep(l, keys[0]), keys[1..])
  }

  function TokensOf(tokens: seq<Token>, keys: seq<Key>): seq<Token>
    decreases |keys|
  {
    if keys == [] then tokens else TokensOf(TokenStep(tokens, keys[0]), keys[1..])
  }

  /** Any sequence of keys leaves the buffers spelling out the token stack it builds, whether full lines drop keys at
    * the keyboard or at the handlers. */
  lemma {:induction false} KeysHold(l: Line, tokens: seq<Token>, keys: seq<Key>)
    requires Holds(l, tokens) && KeysFit(tokens, keys)
    ensures Holds(PressAll(l, keys), TokensOf(tokens, keys))
    decreases |keys|
  {
    if keys == [] {
    } else {
      PressHolds(l, tokens, keys[0]);
      KeysHold(Press(l, keys[0]), TokenStep(tokens, keys[0]), keys[1..]);
    }
  }

  lemma {:induction false} HandledHold(l: Line, tokens: seq<Token>, keys: seq<Key>)
    requires Holds(l, tokens) && KeysFit(tokens, keys)
    ensures Holds(HandleAll(l, keys), TokensOf(tokens, keys))
    decreases |keys|
  {
    if keys == [] {
    } else {
      KeyHolds(l, tokens, keys[0]);
      HandledHold(KeyStep(l, keys[0]), TokenStep(tokens, keys[0]), keys[1..]);
    }
  }

  lemma {:induction false} ExpandTyped(tokens: seq<Token>)
    requires forall i :: 0 <= i < |tokens| && tokens[i].Glyph? ==> Typed(tokens[i].c)
    ensures NEWLINE !in Expand(tokens)
  {
    if tokens == [] {
    } else {
      ExpandTyped(tokens[..|tokens| - 1]);
    }
  }

  lemma {:induction false} TakeLine(l: Line, nbytes: nat, i: nat, n: nat)
    requires Shaped(l) && i <= n < LINE && l.buffer[n] == NEWLINE && NEWLINE !in l.buffer[i..n]
    ensures Take(l, nbytes, i).1 == if i < nbytes then l.buffer[i..Min(nbytes, n + 1)] else []
    decreases n - i
  {
    if i == n || i >= nbytes {
    } else {
      var k := Store(l, i, SPACE, SPACE);
      assert k.buffer[i + 1..] == l.buffer[i + 1..];
      assert l.buffer[i] == l.buffer[i..n][0];
      assert k.buffer[i + 1..n] == l.buffer[i..n][1..];
      TakeLine(k, nbytes, i + 1, n);
      if i + 1 < nbytes { assert k.buffer[i + 1..Min(nbytes, n + 1)] == l.buffer[i + 1..Min(nbytes, n + 1)]; }
    }
  }

  lemma {:induction false} TakeKeeps(l: Line, nbytes: nat, i: nat)
    requires Shaped(l) && i <= LINE
    ensures Take(l, nbytes, i).0.enter == l.enter && Take(l, nbytes, i).0.nchars == l.nchars
    decreases LINE - i
  {
    if i >= nbytes || i >= LINE {
    } else {
      TakeKeeps(Store(l, i, SPACE, SPACE), nbytes, i + 1);
    }
  }

  lemma ReadEnded(l: Line, text: seq<byte>, nbytes: nat)
    requires Shaped(l) && |text| < LINE && NEWLINE !in text && l.buffer[..|text| + 1] == text + [NEWLINE] && nbytes > 0
    ensures var (after, bytes, r) := ReadLine(l, nbytes);
      && r == Min(nbytes, |text| + 1) && bytes == (text + [NEWLINE])[..r]
      && after.nchars == 0 && !after.enter
  {
    var n, k := |text|, l.(enter := false);
    assert k.buffer[0..n] == (text + [NEWLINE])[..n] == text;
    assert k.buffer[n] == (text + [NEWLINE])[n];
    TakeLine(k, nbytes, 0, n);
    TakeKeeps(k, nbytes, 0);
    var m := Min(nbytes, n + 1);
    assert k.buffer[0..m] == k.buffer[..n + 1][..m];
    hide Take;
    assert m < n + 1 ==> (text + [NEWLINE])[m - 1] == text[m - 1];
  }

  lemma HeldDelivers(l: Line, tokens: seq<Token>, nbytes: nat)
    requires Holds(l, tokens) && nbytes > 0
    ensures var text := Expand(tokens) + [NEWLINE];
      var (after, bytes, r) := ReadLine(EndLine(l), nbytes);
      && r == Min(nbytes, |text|) && bytes == text[..r]
      && after.nchars == 0 && !after.enter
  {
    ExpandTyped(tokens);
    hide Expand, ExpandMarks, ReadLine;
    assert EndLine(l).buffer[..l.nchars + 1] == l.buffer[..l.nchars] + [NEWLINE];
    ReadEnded(EndLine(l), Expand(tokens), nbytes);
  }

  /** terminal_read delivers the edited line: whatever the buffers held before, if Enter ends the line and no key
    * comes before the reader wakes, it returns the first min(nbytes, length + 1) bytes of the line and its newline. */
  lemma ReadDelivers(start: Line, keys: seq<Key>, nbytes: nat)
    requires Shaped(start) && start.nchars == 0 && KeysFit([], keys) && nbytes > 0
    ensures var text := Expand(TokensOf([], keys)) + [NEWLINE];
      var (after, bytes, r) := ReadLine(Press(PressAll(start, keys), Enter), nbytes);
      && r == Min(nbytes, |text|) && bytes == text[..r]
      && after.nchars == 0 && !after.enter
  {
    KeysHold(start, [], keys);
    hide Holds, ReadLine, PressAll, TokensOf, EndLine;
    HeldDelivers(PressAll(start, keys), TokensOf([], keys), nbytes);
  }

  lemma ShortTab(l: Line)
    requires Shaped(l) && LAST - 4 < l.nchars < LAST
    ensures TypeTab(l, 4).nchars == LAST && TypeTab(l, 4).tabs[LAST - 1] == TAB
  {
    assert TypeTab(l, 0) == l;
    var k1 := TypeTab(l, 1);
    var k2 := TypeTab(l, 2);
    var k3 := TypeTab(l, 3);
    assert k1.nchars == l.nchars + 1 && k1.tabs[l.nchars] == TAB;
    if l.nchars == LAST - 1 {
      assert k2.nchars == k3.nchars == LAST && k2.tabs[LAST - 1] == TAB && k3.tabs[LAST - 1] == TAB;
    } else {
      assert k2.nchars == l.nchars + 2 && k2.tabs[l.nchars + 1] == TAB;
      assert k3.nchars == LAST && k3.tabs[LAST - 1] == TAB;
    }
  }

  /** A tab that is not dropped can be taken back by one backspace if and only if it had room for all four cells; one
    * that had not leaves the line at 123 characters. What stands before the tab is not touched either way. */
  lemma TabTakenBack(l: Line)
    requires Shaped(l) && l.nchars < LAST
    ensures var k := Erase(TypeTab(l, 4));
      && k.nchars == Min(l.nchars, LAST - 4)
      && k.buffer[..l.nchars] == l.buffer[..l.nchars] && k.tabs[..l.nchars] == l.tabs[..l.nchars]
      && (k.nchars == l.nchars <==> l.nchars <= LAST - 4)
  {
    TabKeepsFront(l, 4);
    if l.nchars <= LAST - 4 {
      TabTyped(l);
      var k := TypeTab(l, 4);
      assert k.tabs[k.nchars - 1] == TAB;
    } else {
      ShortTab(l);
    }
  }

  /** What a tab stores, room or no room: spaces marked as tab cells up to character 127, and a newline in the last cell
    * once it has nowhere else to go. */
  lemma {:induction false} TabStores(l: Line, n: nat)
    requires Shaped(l) && l.nchars <= LAST
    ensures var k := TypeTab(l, n);
      && k.nchars == Min(l.nchars + n, 127) && k.enter == l.enter
      && (forall i :: 0 <= i < 128 ==>
            k.buffer[i] ==
              if l.nchars <= i < k.nchars then 32 else if i == 127 < l.nchars + n then 10 else l.buffer[i])
      && (forall i :: 0 <= i < 128 ==>
            k.tabs[i] ==
              if l.nchars <= i < k.nchars then 9 else if i == 127 < l.nchars + n then 10 else l.tabs[i])
  {
    if n == 0 {
    } else {
      TabStores(l, n - 1);
    }
  }
}
