/** Video memory and the console globals of student-distrib/lib.c: `putc`, `scroll` and `clear` in place, through
  * whatever physical page the video address is mapped to. */
module VideoMemory {
  import opened Bytes
  import opened Console
  import Memory

  // Byte k of a frame when scroll has finished the columns before i, and of column i the rows up to j - 1.
  function PartlyScrolled(frame: seq<byte>, i: int, j: int, k: int): byte
    requires |frame| == FRAME && 0 <= k < FRAME
  {
    var row, col := k / 2 / COLS, k / 2 % COLS;
    if k < 2 * CELLS && (col < i || (col == i && (row < j - 1 || j == ROWS))) then ScrolledByte(frame, k) else frame[k]
  }

  // One step down a column: the cell above takes this cell's character, and the bottom cell is blanked.
  lemma RowStep(frame: seq<byte>, i: int, j: int, k: int)
    requires |frame| == FRAME && 0 <= i < COLS && 1 <= j < ROWS && 0 <= k < FRAME
    ensures PartlyScrolled(frame, i, j, Offset(i, j)) == frame[Offset(i, j)]
    ensures PartlyScrolled(frame, i, j + 1, k) ==
      if k == Offset(i, j - 1) then frame[Offset(i, j)]
      else if k == Offset(i, j - 1) + 1 then ATTRIB
      else if j == ROWS - 1 && k == Offset(i, j) then SPACE
      else if j == ROWS - 1 && k == Offset(i, j) + 1 then ATTRIB
      else PartlyScrolled(frame, i, j, k)
  {}

  lemma ColumnEnds(frame: seq<byte>, i: int, k: int)
    requires |frame| == FRAME && 0 <= i < COLS && 0 <= k < FRAME
    ensures PartlyScrolled(frame, i, 1, k) == PartlyScrolled(frame, i, 0, k)
    ensures PartlyScrolled(frame, i, ROWS, k) == PartlyScrolled(frame, i + 1, 0, k)
  {}

  lemma ScrollEnds(frame: seq<byte>, k: int)
    requires |frame| == FRAME && 0 <= k < FRAME
    ensures PartlyScrolled(frame, 0, 0, k) == frame[k]
    ensures PartlyScrolled(frame, COLS, 0, k) == ScrolledByte(frame, k)
  {}

  ghost function Spaces(s: Screen, n: nat): (t: Screen)
    requires InRange(s)
    ensures InRange(t)
  {
    if n == 0 then s else PutCell(Spaces(s, n - 1), SPACE)
  }

  lemma FourSpaces(s: Screen)
    requires InRange(s)
    ensures Spaces(s, 4) == PutByte(s, TAB)
  {
    hide PutCell;
    assert Spaces(s, 1) == PutCell(Spaces(s, 0), SPACE);
    assert Spaces(s, 3) == PutCell(PutCell(Spaces(s, 1), SPACE), SPACE);
  }

  class Video {
    const mem: array<byte>  // the physical pages, one after the other
    var page: nat           // the frame mapped at the video address
    var screenX: int
    var screenY: int
    var cursor: int         // the position in the CRT controller

    ghost predicate Valid()
      reads this
    {
      mem.Length == FRAMES * FRAME && page < FRAMES
    }

    function Frame(i: nat): (frame: seq<byte>)
      requires mem.Length == FRAMES * FRAME && i < FRAMES
      reads this, mem
      ensures |frame| == FRAME
    {
      mem[i * FRAME..i * FRAME + FRAME]
    }

    // What is seen and written through the mapping.
    function Current(): Screen
      requires Valid()
      reads this, mem
    {
      Screen(Frame(page), screenX, screenY)
    }

    // Nothing but the mapped frame has changed.
    twostate predicate OthersKept()
      requires old(Valid()) && Valid()
      reads this, mem
    {
      && page == old(page) && cursor == old(cursor)
      && (forall i :: 0 <= i < FRAMES && i != page ==> Frame(i) == old(Frame(i)))
    }

    // Memory as it was found, with the display page mapped.
    constructor (mem: array<byte>)
      requires mem.Length == FRAMES * FRAME
      ensures Valid() && this.mem == mem && page == 0 && screenX == 0 && screenY == 0 && cursor == 0
    {
      this.mem := mem;
      page, screenX, screenY, cursor := 0, 0, 0, 0;
    }

    method PokeCell(x: int, y: int, c: byte)
      requires Valid() && 0 <= Offset(x, y) < FRAME - 1
      modifies mem
      ensures Frame(page) == WithCell(old(Frame(page)), Offset(x, y), c)
      ensures OthersKept()
    {
      mem[page * FRAME + Offset(x, y)] := c;
      mem[page * FRAME + Offset(x, y) + 1] := ATTRIB;
      forall i | 0 <= i < FRAMES && i != page ensures Frame(i) == old(Frame(i)) {}
    }

    // The body of its loop.
    method MoveUp(i: int, j: int, ghost frame: seq<byte>)
      requires Valid() && 0 <= i < COLS && 1 <= j < ROWS && |frame| == FRAME
      requires forall p :: page * FRAME <= p < page * FRAME + FRAME ==>
        mem[p] == PartlyScrolled(frame, i, j, p - page * FRAME)
      modifies mem
      ensures forall p :: page * FRAME <= p < page * FRAME + FRAME ==>
        mem[p] == PartlyScrolled(frame, i, j + 1, p - page * FRAME)
      ensures forall p :: 0 <= p < mem.Length && !(page * FRAME <= p < page * FRAME + FRAME) ==> mem[p] == old(mem[p])
    {
      var base := page * FRAME;
      hide PartlyScrolled;
      RowStep(frame, i, j, 0);
      ghost var before := mem[..];
      mem[base + Offset(i, j - 1)] := mem[base + Offset(i, j)];
      mem[base + Offset(i, j - 1) + 1] := ATTRIB;
      if j == ROWS - 1 {
        mem[base + Offset(i, j)] := SPACE;
        mem[base + Offset(i, j) + 1] := ATTRIB;
      }
      forall p | base <= p < base + FRAME ensures mem[p] == PartlyScrolled(frame, i, j + 1, p - base) {
        RowStep(frame, i, j, p - base);
        assert before[p] == PartlyScrolled(frame, i, j, p - base);
      }
    }

    // The inner loop of scroll.
    method ScrollColumn(i: int, ghost frame: seq<byte>)
      requires Valid() && 0 <= i < COLS && |frame| == FRAME
      requires forall p :: page * FRAME <= p < page * FRAME + FRAME ==>
        mem[p] == PartlyScrolled(frame, i, 0, p - page * FRAME)
      modifies mem
      ensures forall p :: page * FRAME <= p < page * FRAME + FRAME ==>
        mem[p] == PartlyScrolled(frame, i + 1, 0, p - page * FRAME)
      ensures forall p :: 0 <= p < mem.Length && !(page * FRAME <= p < page * FRAME + FRAME) ==> mem[p] == old(mem[p])
    {
      ghost var before := mem[..];
      var base := page * FRAME;
      hide PartlyScrolled;
      var j := 1;
      forall p | base <= p < base + FRAME ensures mem[p] == PartlyScrolled(frame, i, 1, p - base) {
        ColumnEnds(frame, i, p - base);
      }
      while j < ROWS
        invariant 1 <= j <= ROWS
        invariant forall p :: base <= p < base + FRAME ==> mem[p] == PartlyScrolled(frame, i, j, p - base)
        invariant forall p :: 0 <= p < mem.Length && !(base <= p < base + FRAME) ==> mem[p] == before[p]
      {
        MoveUp(i, j, frame);
        j := j + 1;
      }
      forall p | base <= p < base + FRAME ensures mem[p] == PartlyScrolled(frame, i + 1, 0, p - base) {
        ColumnEnds(frame, i, p - base);
      }
    }

    method Scroll()
      requires Valid()
      modifies mem
      ensures Frame(page) == Scrolled(old(Frame(page)))
      ensures OthersKept()
    {
      ghost var frame, before := Frame(page), mem[..];
      ghost var base := page * FRAME;
      forall p | base <= p < base + FRAME ensures mem[p] == PartlyScrolled(frame, 0, 0, p - base) {
        assert before[p] == frame[p - base];
        ScrollEnds(frame, p - base);
      }
      hide PartlyScrolled, ScrolledByte;
      var i := 0;
      while i < COLS
        invariant 0 <= i <= COLS
        invariant forall p :: base <= p < base + FRAME ==> mem[p] == PartlyScrolled(frame, i, 0, p - base)
        invariant forall p :: 0 <= p < mem.Length && !(base <= p < base + FRAME) ==> mem[p] == before[p]
      {
        ScrollColumn(i, frame);
        i := i + 1;
      }
      forall k | 0 <= k < FRAME ensures Frame(page)[k] == Scrolled(frame)[k] { ScrollEnds(frame, k); }
      forall f | 0 <= f < FRAMES && f != page ensures Frame(f) == old(Frame(f)) {}
    }

    method WriteCell(c: byte)
      requires Valid() && InRange(Current())
      modifies this`screenX, this`screenY, mem
      ensures Valid() && OthersKept() && Current() == PutCell(old(Current()), c)
    {
      PokeCell(screenX, screenY, c);
      screenX := screenX + 1;
      if screenX == COLS && screenY == ROWS - 1 {
        screenX := 0;
        Scroll();
      } else if screenX == COLS {
        screenX := 0;
        screenY := screenY + 1;
      }
    }

    // The tab loop of putc.
    method PutSpaces()
      requires Valid() && InRange(Current())
      modifies this`screenX, this`screenY, mem
      ensures Valid() && OthersKept() && Current() == PutByte(old(Current()), TAB)
    {
      ghost var start := Current();
      hide PutCell;
      var i: nat := 0;
      while i < 4
        invariant i <= 4 && Valid() && OthersKept() && InRange(Current())
        invariant Current() == Spaces(start, i)
      {
        WriteCell(SPACE);
        i := i + 1;
      }
      FourSpaces(start);
    }

    method Putc(c: byte)
      requires Valid() && InRange(Current())
      modifies this`screenX, this`screenY, mem
      ensures Valid() && OthersKept() && Current() == PutByte(old(Current()), c)
    {
      if c == NEWLINE || c == RETURN {
        if screenY == ROWS - 1 {
          Scroll();
        } else {
          screenY := screenY + 1;
        }
        screenX := 0;
      } else if c == BACKSPACE {
        if screenX > 0 {
          screenX := screenX - 1;
        } else if screenX == 0 && screenY != 0 {
          screenX := COLS;
          screenY := screenY - 1;
        }
        PokeCell(screenX, screenY, SPACE);
      } else if c == TAB {
        PutSpaces();
      } else {
        WriteCell(c);
      }
    }

    // puts, on the bytes before the terminating NUL
    method Puts(text: seq<byte>)
      requires Valid() && Safe(Current(), text)
      modifies this`screenX, this`screenY, mem
      ensures Valid() && OthersKept() && Current() == Feed(old(Current()), text)
    {
      hide PutByte;
      ghost var start := Current();
      var i: nat := 0;
      assert text[0..] == text;
      while i < |text|
        invariant i <= |text| && Valid() && OthersKept()
        invariant Safe(Current(), text[i..]) && Feed(Current(), text[i..]) == Feed(start, text)
      {
        assert text[i..][0] == text[i] && text[i..][1..] == text[i + 1..];
        SafeNext(Current(), text[i..]);
        Putc(text[i]);
        i := i + 1;
      }
    }

    // memcpy of a whole page
    method CopyFrame(dest: nat, src: nat)
      requires Valid() && dest < FRAMES && src < FRAMES && dest != src
      modifies mem
      ensures Frame(dest) == old(Frame(src))
      ensures forall i :: 0 <= i < FRAMES && i != dest ==> Frame(i) == old(Frame(i))
    {
      ghost var before := mem[..];
      Memory.Memcpy(mem, dest * FRAME, src * FRAME, FRAME);
      assert forall k :: 0 <= k < mem.Length ==>
        mem[..][k] == Memory.CopiedAt(before, dest * FRAME, src * FRAME, FRAME, k);
      forall i | 0 <= i < FRAMES ensures Frame(i) == if i == dest then old(Frame(src)) else old(Frame(i)) {
        assert forall k :: 0 <= k < FRAME ==> Frame(i)[k] == mem[..][i * FRAME + k];
      }
    }

    // The position goes out to the controller in two bytes.
    method UpdateCursor()
      modifies this`cursor
      requires 0 <= screenY * COLS + screenX < 0x1_0000
      ensures cursor == screenY * COLS + screenX
    {
      var position := screenY * COLS + screenX;
      var low, high := position % 0x100, (position / 0x100) % 0x100;
      cursor := 0x100 * high + low;
    }

    method Clear()
      requires Valid()
      modifies this`screenX, this`screenY, this`cursor, mem
      ensures Valid() && Current() == Screen(Cleared(old(Frame(page))), 0, 0) && cursor == 0
      ensures forall i :: 0 <= i < FRAMES && i != page ==> Frame(i) == old(Frame(i))
    {
      screenX, screenY := 0, 0;
      var base := page * FRAME;
      var i := 0;
      while i < CELLS
        invariant 0 <= i <= CELLS && screenX == 0 && screenY == 0
        invariant forall p :: base <= p < base + 2 * i ==> mem[p] == if (p - base) % 2 == 0 then SPACE else ATTRIB
        invariant forall p :: 0 <= p < mem.Length && !(base <= p < base + 2 * i) ==> mem[p] == old(mem[p])
      {
        mem[base + 2 * i] := SPACE;
        mem[base + 2 * i + 1] := ATTRIB;
        i := i + 1;
      }
      UpdateCursor();
      forall f | 0 <= f < FRAMES && f != page ensures Frame(f) == old(Frame(f)) {}
    }
  }
}
