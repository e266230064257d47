/** `add_frames` of fish/fish.c: two text frames merged character by character into blinking cells. */
module FrameFiles {
  import opened Basics
  import opened Bytes
  import opened Descriptors
  import opened FileSystem
  import Console
  import opened TextLines
  import opened UserCalls

  const OFFSET := 40
  const LENGTH := 15

  // The argument of one RTC_ADD; the location field is an unsigned short.
  datatype Add = Add(location: nat, onChar: byte, offChar: byte, onLength: nat, offLength: nat)

  // ----- the ragged zip -----

  function CharAt(line: seq<byte>, col: nat): byte {
    if col < |line| then line[col] else SPACE
  }

  function LineAt(lines: seq<seq<byte>>, row: nat): seq<byte> {
    if row < |lines| then lines[row] else []
  }

  function Cell(row: nat, col: nat, on: byte, off: byte): seq<Add> {
    if on == SPACE && off == SPACE then []
    else [Add((row * Console.COLS + col + OFFSET) % 0x1_0000, on, off, LENGTH, LENGTH)]
  }

  // The cells of one row up to column `cols`, the shorter line padded with spaces.
  function RowCells(row: nat, a: seq<byte>, b: seq<byte>, cols: nat): seq<Add> {
    if cols == 0 then []
    else RowCells(row, a, b, cols - 1) + Cell(row, cols - 1, CharAt(a, cols - 1), CharAt(b, cols - 1))
  }

  function Row(a: seq<seq<byte>>, b: seq<seq<byte>>, row: nat): seq<Add> {
    RowCells(row, LineAt(a, row), LineAt(b, row), Max(|LineAt(a, row)|, |LineAt(b, row)|))
  }

  // The cells of the first `rows` rows, the shorter file padded with empty lines.
  function Rows(a: seq<seq<byte>>, b: seq<seq<byte>>, rows: nat): seq<Add> {
    if rows == 0 then [] else Rows(a, b, rows - 1) + Row(a, b, rows - 1)
  }

  function RaggedZip(f: seq<byte>, g: seq<byte>): seq<Add> {
    Rows(Lines(f), Lines(g), Max(|Lines(f)|, |Lines(g)|))
  }

  ghost predicate VisibleAt(a: seq<byte>, b: seq<byte>, col: nat) {
    CharAt(a, col) != SPACE || CharAt(b, col) != SPACE
  }

  function AddAt(a: seq<seq<byte>>, b: seq<seq<byte>>, row: nat, col: nat): Add {
    Add((row * Console.COLS + col + OFFSET) % 0x1_0000, CharAt(LineAt(a, row), col), CharAt(LineAt(b, row), col),
      LENGTH, LENGTH)
  }

  lemma CellAdds(a: seq<seq<byte>>, b: seq<seq<byte>>, row: nat, col: nat, x: Add)
    ensures x in Cell(row, col, CharAt(LineAt(a, row), col), CharAt(LineAt(b, row), col)) <==>
      VisibleAt(LineAt(a, row), LineAt(b, row), col) && x == AddAt(a, b, row, col)
  {}

  lemma {:induction false} RowAddsExactly(a: seq<seq<byte>>, b: seq<seq<byte>>, row: nat, cols: nat, x: Add)
    ensures x in RowCells(row, LineAt(a, row), LineAt(b, row), cols) <==>
            exists col: nat :: col < cols && VisibleAt(LineAt(a, row), LineAt(b, row), col) &&
              x == AddAt(a, b, row, col)
  {
    hide Cell, VisibleAt, AddAt, CharAt, LineAt;
    if cols == 0 {
    } else {
      RowAddsExactly(a, b, row, cols - 1, x);
      CellAdds(a, b, row, cols - 1, x);
    }
  }

  // x is the add of some visible place in that row.
  ghost predicate BelongsTo(a: seq<seq<byte>>, b: seq<seq<byte>>, row: nat, x: Add) {
    exists col: nat :: VisibleAt(LineAt(a, row), LineAt(b, row), col) && x == AddAt(a, b, row, col)
  }

  lemma RowExactly(a: seq<seq<byte>>, b: seq<seq<byte>>, row: nat, x: Add)
    ensures x in Row(a, b, row) <==> BelongsTo(a, b, row, x)
  {
    RowAddsExactly(a, b, row, Max(|LineAt(a, row)|, |LineAt(b, row)|), x);
    if BelongsTo(a, b, row, x) {
      var col: nat :| VisibleAt(LineAt(a, row), LineAt(b, row), col) && x == AddAt(a, b, row, col);
      assert col < Max(|LineAt(a, row)|, |LineAt(b, row)|);
    }
  }

  /** The adds issued are those of the places, in any row and column, where either text shows something, and no
    * others. */
  lemma {:induction false} AddsExactly(a: seq<seq<byte>>, b: seq<seq<byte>>, rows: nat, x: Add)
    ensures x in Rows(a, b, rows) <==> exists row: nat :: row < rows && BelongsTo(a, b, row, x)
  {
    hide BelongsTo, Row;
    if rows == 0 {
    } else {
      AddsExactly(a, b, rows - 1, x);
      RowExactly(a, b, rows - 1, x);
    }
  }

  // ----- each place exactly once, in order -----

  datatype Place = Place(row: nat, col: nat)

  predicate Precedes(p: Place, q: Place) { p.row < q.row || (p.row == q.row && p.col < q.col) }

  ghost predicate InOrder(places: seq<Place>) {
    forall i, j :: 0 <= i < j < |places| ==> Precedes(places[i], places[j])
  }

  // The character of a text at a place: a space past the end of its line and below its last line.
  function Shown(lines: seq<seq<byte>>, p: Place): byte {
    if p.row < |lines| && p.col < |lines[p.row]| then lines[p.row][p.col] else 32
  }

  predicate Visible(a: seq<seq<byte>>, b: seq<seq<byte>>, p: Place) { Shown(a, p) != 32 || Shown(b, p) != 32 }

  // Add i is that of place i.
  ghost predicate AddsOf(a: seq<seq<byte>>, b: seq<seq<byte>>, places: seq<Place>, adds: seq<Add>) {
    && |adds| == |places|
    && (forall i :: 0 <= i < |adds| ==>
          adds[i] == Add((places[i].row * 80 + places[i].col + 40) % 65536,
                         Shown(a, places[i]), Shown(b, places[i]), 15, 15))
  }

  // One add for each visible place and no other, row by row and from left to right.
  ghost predicate OncePerPlace(a: seq<seq<byte>>, b: seq<seq<byte>>, places: seq<Place>, adds: seq<Add>) {
    && InOrder(places) && AddsOf(a, b, places, adds)
    && (forall p :: p in places <==> Visible(a, b, p))
  }

  // The same up to a column of a row.
  ghost predicate OnceUpTo(a: seq<seq<byte>>, b: seq<seq<byte>>, row: nat, col: nat, places: seq<Place>, adds: seq<Add>)
  {
    && InOrder(places) && AddsOf(a, b, places, adds)
    && (forall p :: p in places <==> Visible(a, b, p) && Precedes(p, Place(row, col)))
  }

  lemma NextPlace(row: nat, col: nat, q: Place)
    ensures Precedes(q, Place(row, col + 1)) <==> Precedes(q, Place(row, col)) || q == Place(row, col)
  {}

  lemma PlaceAppended(a: seq<seq<byte>>, b: seq<seq<byte>>, places: seq<Place>, adds: seq<Add>, p: Place, x: Add)
    requires InOrder(places) && AddsOf(a, b, places, adds) && forall q :: q in places ==> Precedes(q, p)
    requires x == Add((p.row * 80 + p.col + 40) % 65536, Shown(a, p), Shown(b, p), 15, 15)
    ensures InOrder(places + [p]) && AddsOf(a, b, places + [p], adds + [x])
  {
    var more := places + [p];
    forall i, j | 0 <= i < j < |more| ensures Precedes(more[i], more[j]) {
      if j == |places| { assert places[i] in places; }
    }
  }

  lemma CellOf(a: seq<seq<byte>>, b: seq<seq<byte>>, row: nat, col: nat)
    ensures var p := Place(row, col);
      Cell(row, col, CharAt(LineAt(a, row), col), CharAt(LineAt(b, row), col)) ==
        if Visible(a, b, p) then [Add((p.row * 80 + p.col + 40) % 65536, Shown(a, p), Shown(b, p), 15, 15)] else []
  {}

  lemma OneMore(a: seq<seq<byte>>, b: seq<seq<byte>>, row: nat, col: nat, places: seq<Place>, adds: seq<Add>)
    returns (more: seq<Place>)
    requires OnceUpTo(a, b, row, col, places, adds)
    ensures OnceUpTo(a, b, row, col + 1, more,
                     adds + Cell(row, col, CharAt(LineAt(a, row), col), CharAt(LineAt(b, row), col)))
  {
    var p := Place(row, col);
    CellOf(a, b, row, col);
    more := if Visible(a, b, p) then places + [p] else places;
    var cell := Cell(row, col, CharAt(LineAt(a, row), col), CharAt(LineAt(b, row), col));
    hide AddsOf, InOrder, Cell, CharAt, LineAt, Visible, Shown, Precedes;
    if Visible(a, b, p) { PlaceAppended(a, b, places, adds, p, cell[0]); } else { assert adds + [] == adds; }
    forall q ensures q in more <==> Visible(a, b, q) && Precedes(q, Place(row, col + 1)) { NextPlace(row, col, q); }
  }

  lemma {:induction false} RowOnce(a: seq<seq<byte>>, b: seq<seq<byte>>, row: nat, cols: nat,
                                   places: seq<Place>, adds: seq<Add>) returns (more: seq<Place>)
    requires OnceUpTo(a, b, row, 0, places, adds)
    ensures OnceUpTo(a, b, row, cols, more, adds + RowCells(row, LineAt(a, row), LineAt(b, row), cols))
  {
    if cols == 0 {
      more := places;
      assert adds + [] == adds;
    } else {
      var some := RowOnce(a, b, row, cols - 1, places, adds);
      hide OnceUpTo, Cell;
      var before := RowCells(row, LineAt(a, row), LineAt(b, row), cols - 1);
      more := OneMore(a, b, row, cols - 1, some, adds + before);
      var cell := Cell(row, cols - 1, CharAt(LineAt(a, row), cols - 1), CharAt(LineAt(b, row), cols - 1));
      assert adds + (before + cell) == adds + before + cell;
    }
  }

  // Past the end of both lines there is nothing to show.
  lemma RowDone(a: seq<seq<byte>>, b: seq<seq<byte>>, row: nat, cols: nat, places: seq<Place>, adds: seq<Add>)
    requires OnceUpTo(a, b, row, cols, places, adds) && |LineAt(a, row)| <= cols && |LineAt(b, row)| <= cols
    ensures OnceUpTo(a, b, row + 1, 0, places, adds)
  {
    forall p ensures p in places <==> Visible(a, b, p) && Precedes(p, Place(row + 1, 0)) {
      assert p.row == row && p.col >= cols ==> !Visible(a, b, p);
    }
  }

  lemma {:induction false} RowsOnce(a: seq<seq<byte>>, b: seq<seq<byte>>, rows: nat) returns (places: seq<Place>)
    ensures OnceUpTo(a, b, rows, 0, places, Rows(a, b, rows))
  {
    if rows == 0 {
      places := [];
    } else {
      var row := rows - 1;
      var before := RowsOnce(a, b, row);
      hide OnceUpTo;
      var cols := Max(|LineAt(a, row)|, |LineAt(b, row)|);
      places := RowOnce(a, b, row, cols, before, Rows(a, b, row));
      RowDone(a, b, row, cols, places, Rows(a, b, row) + Row(a, b, row));
    }
  }

  /** The zip has exactly one add for each place where either text shows something other than a space, and they come in
    * order of row and column: there is a strictly increasing list of those places whose i-th place is that of the i-th
    * add. */
  lemma ZipOncePerPlace(f: seq<byte>, g: seq<byte>)
    ensures exists places :: OncePerPlace(Lines(f), Lines(g), places, RaggedZip(f, g))
  {
    var a, b := Lines(f), Lines(g);
    var rows := Max(|a|, |b|);
    var places := RowsOnce(a, b, rows);
    hide Rows, Lines;
    forall p ensures p in places <==> Visible(a, b, p) { assert p.row >= rows ==> !Visible(a, b, p); }
    assert OncePerPlace(a, b, places, RaggedZip(f, g));
  }

  ghost predicate Finished(lines: seq<seq<byte>>, row: nat, eof: bool, rest: seq<byte>) {
    if eof then rest == [] && row + 1 >= |lines| else row + 1 < |lines| && Lines(rest) == lines[row + 1..]
  }

  // ----- where a reader stands -----

  // Before the character of (row, col) is read: `c` is a newline once the reader is past its line's end.
  ghost predicate StandsAt(lines: seq<seq<byte>>, row: nat, col: nat, c: byte, eof: bool, rest: seq<byte>) {
    if c != NEWLINE then
      !eof && row < |lines| && col <= |lines[row]| && Lines(rest) == [lines[row][col..]] + lines[row + 1..]
    else
      Finished(lines, row, eof, rest) && col >= |LineAt(lines, row)|
  }

  // After it: c is that character, or a newline past the line's end.
  ghost predicate HasRead(lines: seq<seq<byte>>, row: nat, col: nat, c: byte, eof: bool, rest: seq<byte>) {
    if col < |LineAt(lines, row)| then
      !eof && c == lines[row][col] != NEWLINE && Lines(rest) == [lines[row][col + 1..]] + lines[row + 1..]
    else
      c == NEWLINE && Finished(lines, row, eof, rest)
  }

  // At the start of a row.
  ghost predicate RowStart(lines: seq<seq<byte>>, row: nat, c: byte, eof: bool, rest: seq<byte>) {
    && StandsAt(lines, row, 0, c, eof, rest)
    && (c == NEWLINE <==> eof)
    && (eof <==> row >= |lines|)
  }

  // What a reader can still do: read its bytes and meet the end of its file.
  function Left(rest: seq<byte>, eof: bool): nat { |rest| + if eof then 0 else 1 }

  lemma FirstChar(rest: seq<byte>)
    requires rest != []
    ensures rest[0] == NEWLINE ==> Lines(rest) == [[]] + Lines(rest[1..])
    ensures rest[0] != NEWLINE ==>
      Lines(rest[1..])[0] == Lines(rest)[0][1..] && Lines(rest)[0] != [] && Lines(rest)[0][0] == rest[0]
    ensures rest[0] != NEWLINE ==> Lines(rest)[1..] == Lines(rest[1..])[1..]
  {}

  lemma ReaderAdvances(lines: seq<seq<byte>>, row: nat, col: nat, c: byte, rest: seq<byte>)
    requires StandsAt(lines, row, col, c, false, rest) && c != NEWLINE
    ensures rest == [] ==> HasRead(lines, row, col, NEWLINE, true, rest)
    ensures rest != [] ==> HasRead(lines, row, col, rest[0], false, rest[1..])
  {
    var line := lines[row][col..];
    assert Lines(rest)[0] == line && Lines(rest)[1..] == lines[row + 1..];
    if rest == [] {
      assert Lines(rest) == [[]];
    } else {
      FirstChar(rest);
      if rest[0] == NEWLINE {
        assert ([[]] + Lines(rest[1..]))[1..] == Lines(rest[1..]);
      } else {
        assert lines[row][col + 1..] == line[1..];
        assert Lines(rest[1..]) == [line[1..]] + lines[row + 1..];
      }
    }
  }

  method NextChar(file: OpenFile, c: byte, eof: bool, ghost lines: seq<seq<byte>>, ghost row: nat, ghost col: nat)
    returns (d: byte, e: bool)
    requires file.Backed() && (c != NEWLINE ==> file.Valid()) && StandsAt(lines, row, col, c, eof, file.Rest())
    modifies file.table.fds
    ensures file.Backed() && (!e ==> old(file.Valid()) ==> file.Valid())
    ensures Kept(old(file.table.fds[..]), file.table.fds[..], file.fd, file.fd) &&
      HasRead(lines, row, col, d, e, file.Rest())
    ensures d != NEWLINE ==> !e && |file.Rest()| < |old(file.Rest())|
    ensures c != NEWLINE ==> Left(file.Rest(), e) < Left(old(file.Rest()), eof)
    ensures c == NEWLINE ==> d == c && e == eof && file.Rest() == old(file.Rest())
  {
    hide Lines;
    d, e := c, eof;
    if c != NEWLINE {
      ghost var rest := file.Rest();
      ReaderAdvances(lines, row, col, c, rest);
      var buf := new byte[1];
      var numBytes := file.Read(buf, 0, 1);
      if numBytes == 0 {
        d, e := NEWLINE, true;
      } else {
        assert buf[..][0] == rest[0];
        d := buf[0];
      }
    }
  }

  lemma FirstRow(rest: seq<byte>)
    ensures RowStart(Lines(rest), 0, 48, false, rest)
  {}

  lemma StartOfRow(lines: seq<seq<byte>>, row: nat, c: byte, eof: bool, rest: seq<byte>)
    requires RowStart(lines, row, c, eof, rest)
    ensures StandsAt(lines, row, 0, c, eof, rest) && (c == NEWLINE <==> eof) && (eof <==> row >= |lines|)
  {}

  lemma NextRow(lines: seq<seq<byte>>, row: nat, eof: bool, rest: seq<byte>)
    requires Finished(lines, row, eof, rest)
    ensures RowStart(lines, row + 1, if eof then NEWLINE else 48, eof, rest)
  {}

  // The test and the call in the middle of the loop.
  method AddCell(c0: byte, c1: byte, row: nat, col: nat, before: seq<Add>) returns (adds: seq<Add>)
    ensures adds == before + Cell(row, col, if c0 == NEWLINE then SPACE else c0, if c1 == NEWLINE then SPACE else c1)
  {
    adds := before;
    if (c0 != SPACE && c0 != NEWLINE) || (c1 != SPACE && c1 != NEWLINE) {
      var on := if c0 == NEWLINE then SPACE else c0;
      var off := if c1 == NEWLINE then SPACE else c1;
      adds := adds + [Add((row * Console.COLS + col + OFFSET) % 0x1_0000, on, off, LENGTH, LENGTH)];
    }
  }

  lemma RowSteps(row: nat, a: seq<byte>, b: seq<byte>, cols: nat)
    ensures RowCells(row, a, b, 0) == []
    ensures RowCells(row, a, b, cols + 1) ==
      RowCells(row, a, b, cols) + Cell(row, cols, CharAt(a, cols), CharAt(b, cols))
  {}

  lemma RowIs(a: seq<seq<byte>>, b: seq<seq<byte>>, row: nat, col: nat)
    requires |LineAt(a, row)| <= col && |LineAt(b, row)| <= col && (col <= |LineAt(a, row)| || col <= |LineAt(b, row)|)
    ensures Row(a, b, row) == RowCells(row, LineAt(a, row), LineAt(b, row), col)
  {}

  // A reader before and after one character.
  ghost predicate Before(file: OpenFile, lines: seq<seq<byte>>, row: nat, col: nat, c: byte, eof: bool)
    reads file.table, file.table.fds
  {
    file.Backed() && (!eof ==> file.Valid()) && (c != NEWLINE ==> !eof) &&
      StandsAt(lines, row, col, c, eof, file.Rest())
  }

  ghost predicate Behind(file: OpenFile, lines: seq<seq<byte>>, row: nat, col: nat, c: byte, eof: bool)
    reads file.table, file.table.fds
  {
    file.Backed() && (!eof ==> file.Valid()) && (c != NEWLINE ==> !eof) && HasRead(lines, row, col, c, eof, file.Rest())
  }

  // What the reader can still do is less than at the start of the row, unless it has not had to read.
  ghost predicate Progress(left: nat, start: nat, c: byte, e: bool) {
    left < start || (left == start && (c == NEWLINE ==> e))
  }

  lemma ProgressStarts(left: nat, c: byte, e: bool)
    requires c == NEWLINE ==> e
    ensures Progress(left, left, c, e)
  {}

  lemma GoOn(file: OpenFile, lines: seq<seq<byte>>, row: nat, col: nat, c: byte, eof: bool)
    requires Behind(file, lines, row, col, c, eof)
    ensures Before(file, lines, row, col + 1, c, eof)
    ensures (if c == NEWLINE then SPACE else c) == CharAt(LineAt(lines, row), col)
    ensures c == NEWLINE <==> col >= |LineAt(lines, row)|
    ensures c == NEWLINE ==> Finished(lines, row, eof, file.Rest())
    ensures file.Backed() && (!eof ==> file.Valid())
  {}

  lemma GoProgress(left: nat, start: nat, next: nat, b: byte, c: byte, e: bool)
    requires Progress(left, start, b, e) && (b != NEWLINE ==> next < left) && (b == NEWLINE ==> next == left && c == b)
    ensures Progress(next, start, c, e)
  {}

  // The two reads at the head of the inner loop.
  method NextTwo(f0: OpenFile, f1: OpenFile, b0: byte, b1: byte, e0: bool, e1: bool, ghost row: nat, ghost col: nat,
                 ghost a: seq<seq<byte>>, ghost b: seq<seq<byte>>)
    returns (c0: byte, c1: byte, eof0: bool, eof1: bool)
    requires Two(f0, f1) && Before(f0, a, row, col, b0, e0) && Before(f1, b, row, col, b1, e1)
    modifies f0.table.fds
    ensures Two(f0, f1) && Kept(old(f0.table.fds[..]), f0.table.fds[..], f0.fd, f1.fd)
    ensures Behind(f0, a, row, col, c0, eof0) && Behind(f1, b, row, col, c1, eof1)
    ensures c0 != NEWLINE || c1 != NEWLINE ==> |f0.Rest()| + |f1.Rest()| < |old(f0.Rest())| + |old(f1.Rest())|
    ensures b0 != NEWLINE ==> Left(f0.Rest(), eof0) < Left(old(f0.Rest()), e0)
    ensures b0 == NEWLINE ==> Left(f0.Rest(), eof0) == Left(old(f0.Rest()), e0) && c0 == b0
    ensures b1 != NEWLINE ==> Left(f1.Rest(), eof1) < Left(old(f1.Rest()), e1)
    ensures b1 == NEWLINE ==> Left(f1.Rest(), eof1) == Left(old(f1.Rest()), e1) && c1 == b1
  {
    hide StandsAt, HasRead, Contents, WellFormed;
    c0, eof0 := NextChar(f0, b0, e0, a, row, col);
    c1, eof1 := NextChar(f1, b1, e1, b, row, col);
  }

  // The inner loop: one row.
  method ReadRow(f0: OpenFile, f1: OpenFile, b0: byte, b1: byte, e0: bool, e1: bool, row: nat,
                 ghost a: seq<seq<byte>>, ghost b: seq<seq<byte>>)
    returns (eof0: bool, eof1: bool, cells: seq<Add>)
    requires Two(f0, f1) && Before(f0, a, row, 0, b0, e0) && Before(f1, b, row, 0, b1, e1)
    requires (b0 == NEWLINE ==> e0) && (b1 == NEWLINE ==> e1)
    modifies f0.table.fds
    ensures Two(f0, f1) && Kept(old(f0.table.fds[..]), f0.table.fds[..], f0.fd, f1.fd)
    ensures (!eof0 ==> f0.Valid()) && (!eof1 ==> f1.Valid())
    ensures cells == Row(a, b, row)
    ensures Finished(a, row, eof0, f0.Rest()) && Finished(b, row, eof1, f1.Rest())
    ensures Progress(Left(f0.Rest(), eof0), Left(old(f0.Rest()), e0), NEWLINE, e0)
    ensures Progress(Left(f1.Rest(), eof1), Left(old(f1.Rest()), e1), NEWLINE, e1)
  {
    hide *;
    var c0, c1 := b0, b1;
    eof0, eof1, cells := e0, e1, [];
    var col: nat := 0;
    ghost var left0, left1 := Left(f0.Rest(), e0), Left(f1.Rest(), e1);
    KeptSelf(f0.table.fds[..], f0.fd, f1.fd);
    ProgressStarts(left0, c0, e0);
    ProgressStarts(left1, c1, e1);
    RowSteps(row, LineAt(a, row), LineAt(b, row), 0);
    while true
      invariant Two(f0, f1) && Kept(old(f0.table.fds[..]), f0.table.fds[..], f0.fd, f1.fd)
      invariant Before(f0, a, row, col, c0, eof0) && Before(f1, b, row, col, c1, eof1)
      invariant cells == RowCells(row, LineAt(a, row), LineAt(b, row), col)
      invariant col <= |LineAt(a, row)| || col <= |LineAt(b, row)|
      invariant Progress(Left(f0.Rest(), eof0), left0, c0, e0) && Progress(Left(f1.Rest(), eof1), left1, c1, e1)
      decreases |f0.Rest()| + |f1.Rest()|
    {
      ghost var was0, was1, l0, l1 := c0, c1, Left(f0.Rest(), eof0), Left(f1.Rest(), eof1);
      ghost var fds := f0.table.fds[..];
      c0, c1, eof0, eof1 := NextTwo(f0, f1, c0, c1, eof0, eof1, row, col, a, b);
      KeptOn(old(f0.table.fds[..]), fds, f0.table.fds[..], f0.fd, f1.fd);
      GoProgress(l0, left0, Left(f0.Rest(), eof0), was0, c0, e0);
      GoProgress(l1, left1, Left(f1.Rest(), eof1), was1, c1, e1);
      GoOn(f0, a, row, col, c0, eof0);
      GoOn(f1, b, row, col, c1, eof1);
      if c0 == NEWLINE && c1 == NEWLINE {
        RowIs(a, b, row, col);
        break;
      }
      RowSteps(row, LineAt(a, row), LineAt(b, row), col);
      cells := AddCell(c0, c1, row, col, cells);
      col := col + 1;
    }
  }

  // The outer loop's body; a file that has ended is closed, after each row anew.
  method AddRow(f0: OpenFile, f1: OpenFile, b0: byte, b1: byte, e0: bool, e1: bool, row: nat,
                ghost a: seq<seq<byte>>, ghost b: seq<seq<byte>>)
    returns (c0: byte, c1: byte, eof0: bool, eof1: bool, cells: seq<Add>)
    requires Two(f0, f1) && (!e0 ==> f0.Valid()) && (!e1 ==> f1.Valid())
    requires RowStart(a, row, b0, e0, f0.Rest()) && RowStart(b, row, b1, e1, f1.Rest()) && !(e0 && e1)
    modifies f0.table.fds
    ensures Two(f0, f1) && Kept(old(f0.table.fds[..]), f0.table.fds[..], f0.fd, f1.fd)
    ensures (!eof0 <==> f0.Valid()) && (!eof1 <==> f1.Valid())
    ensures cells == Row(a, b, row)
    ensures RowStart(a, row + 1, c0, eof0, f0.Rest()) && RowStart(b, row + 1, c1, eof1, f1.Rest())
    ensures Left(f0.Rest(), eof0) + Left(f1.Rest(), eof1) < Left(old(f0.Rest()), e0) + Left(old(f1.Rest()), e1)
  {
    StartOfRow(a, row, b0, e0, f0.Rest());
    StartOfRow(b, row, b1, e1, f1.Rest());
    eof0, eof1, cells := ReadRow(f0, f1, b0, b1, e0, e1, row, a, b);
    NextRow(a, row, eof0, f0.Rest());
    NextRow(b, row, eof1, f1.Rest());
    hide RowStart, Finished;
    if eof0 {
      c0 := NEWLINE;
      f0.Close();
    } else {
      c0 := 48;
    }
    if eof1 {
      c1 := NEWLINE;
      f1.Close();
    } else {
      c1 := 48;
    }
  }

  lemma RowsSteps(a: seq<seq<byte>>, b: seq<seq<byte>>, rows: nat)
    ensures Rows(a, b, 0) == []
    ensures Rows(a, b, rows + 1) == Rows(a, b, rows) + Row(a, b, rows)
  {}

  lemma RowsAre(a: seq<seq<byte>>, b: seq<seq<byte>>, rows: nat)
    requires |a| <= rows && |b| <= rows && (rows <= |a| || rows <= |b|)
    ensures Rows(a, b, Max(|a|, |b|)) == Rows(a, b, rows)
  {}

  // The outer loop.
  method AddRows(f0: OpenFile, f1: OpenFile, b0: byte, b1: byte, ghost a: seq<seq<byte>>, ghost b: seq<seq<byte>>)
    returns (adds: seq<Add>)
    requires Two(f0, f1) && f0.Valid() && f1.Valid()
    requires RowStart(a, 0, b0, false, f0.Rest()) && RowStart(b, 0, b1, false, f1.Rest())
    modifies f0.table.fds
    ensures Two(f0, f1) && !f0.Valid() && !f1.Valid() && Kept(old(f0.table.fds[..]), f0.table.fds[..], f0.fd, f1.fd)
    ensures adds == Rows(a, b, Max(|a|, |b|))
  {
    hide *;
    KeptSelf(f0.table.fds[..], f0.fd, f1.fd);
    RowsSteps(a, b, 0);
    adds := [];
    var c0: byte, c1: byte, eof0, eof1 := b0, b1, false, false;
    var row: nat := 0;
    while !eof0 || !eof1
      invariant Two(f0, f1) && Kept(old(f0.table.fds[..]), f0.table.fds[..], f0.fd, f1.fd)
      invariant (!eof0 <==> f0.Valid()) && (!eof1 <==> f1.Valid())
      invariant RowStart(a, row, c0, eof0, f0.Rest()) && RowStart(b, row, c1, eof1, f1.Rest())
      invariant row <= |a| || row <= |b|
      invariant adds == Rows(a, b, row)
      decreases Left(f0.Rest(), eof0) + Left(f1.Rest(), eof1)
    {
      StartOfRow(a, row, c0, eof0, f0.Rest());
      StartOfRow(b, row, c1, eof1, f1.Rest());
      RowsSteps(a, b, row);
      var cells;
      ghost var fds := f0.table.fds[..];
      c0, c1, eof0, eof1, cells := AddRow(f0, f1, c0, c1, eof0, eof1, row, a, b);
      KeptOn(old(f0.table.fds[..]), fds, f0.table.fds[..], f0.fd, f1.fd);
      adds := adds + cells;
      row := row + 1;
    }
    StartOfRow(a, row, c0, eof0, f0.Rest());
    StartOfRow(b, row, c1, eof1, f1.Rest());
    RowsAre(a, b, row);
  }

  lemma ZipIsRows(f: seq<byte>, g: seq<byte>)
    ensures RaggedZip(f, g) == Rows(Lines(f), Lines(g), Max(|Lines(f)|, |Lines(g)|))
  {}

  // The second file is tried only when the first is there.
  method OpenBoth(table: Table, name0: seq<byte>, name1: seq<byte>) returns (f0: OpenFile?, f1: OpenFile?)
    requires table.Valid() && NUL in name0 && NUL in name1
    requires RegularOrMissing(table.image, name0) && RegularOrMissing(table.image, name1)
    modifies table.fds
    ensures table.Valid()
    ensures var (one, fd0) := OpenStep(table.image, old(table.fds[..]), name0);
      && (f0 == null <==> fd0 == -1)
      && (f1 == null <==> fd0 == -1 || OpenStep(table.image, one, name1).1 == -1)
    ensures f0 != null && f1 != null ==>
      && fresh(f0) && fresh(f1) && f0.table == f1.table == table && Two(f0, f1) && f0.Valid() && f1.Valid()
      && f0.Rest() == Named(table.image, name0) && f1.Rest() == Named(table.image, name1)
      && !old(table.fds[..])[f0.fd].inUse && !old(table.fds[..])[f1.fd].inUse &&
        Kept(old(table.fds[..]), table.fds[..], f0.fd, f1.fd)
  {
    f1 := null;
    f0 := OpenByName(table, name0);
    if f0 != null {
      f1 := OpenByName(table, name1);
    }
  }

  /** For any two files the merge terminates and issues, in row-major order, exactly one add for each place where
    * either text has a character other than a space, with the shorter row or file padded by spaces; both files are
    * closed again. If one of them cannot be opened the program halts and issues none. */
  method AddFrames(table: Table, name0: seq<byte>, name1: seq<byte>) returns (halted: bool, adds: seq<Add>)
    requires table.Valid() && NUL in name0 && NUL in name1
    requires RegularOrMissing(table.image, name0) && RegularOrMissing(table.image, name1)
    modifies table.fds
    ensures table.Valid()
    ensures var (one, fd0) := OpenStep(table.image, old(table.fds[..]), name0);
      halted <==> fd0 == -1 || OpenStep(table.image, one, name1).1 == -1
    ensures halted ==> adds == []
    ensures !halted ==> adds == RaggedZip(Named(table.image, name0), Named(table.image, name1))
    ensures !halted ==> exists places ::
      OncePerPlace(Lines(Named(table.image, name0)), Lines(Named(table.image, name1)), places, adds)
    ensures !halted ==> forall i :: 0 <= i < MAX_FILES ==> table.fds[i].inUse == old(table.fds[i].inUse)
  {
    hide Named, RaggedZip;
    var f0, f1 := OpenBoth(table, name0, name1);
    if f0 == null || f1 == null {
      return true, [];
    }
    ghost var a, b := Lines(f0.Rest()), Lines(f1.Rest());
    FirstRow(f0.Rest());
    FirstRow(f1.Rest());
    ZipIsRows(f0.Rest(), f1.Rest());
    ZipOncePerPlace(f0.Rest(), f1.Rest());
    adds := AddRows(f0, f1, 48, 48, a, b); // 48 is '0'
    halted := false;
  }
}
