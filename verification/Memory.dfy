/** The memory primitives of student-distrib/lib.c on a flat memory: `memset` and `memcpy` with their byte head, 32-bit
  * middle and byte tail, and `memmove`. A position in the array is an address. */
module Memory {
  import opened Bytes
  const WORD := 4

  // A 32-bit word, least significant byte first.
  function WordOf(b0: byte, b1: byte, b2: byte, b3: byte): nat {
    b0 + 0x100 * (b1 + 0x100 * (b2 + 0x100 * b3))
  }

  function ByteOf(word: nat, i: nat): byte {
    if i == 0 then word % 0x100 else ByteOf(word / 0x100, i - 1)
  }

  lemma LowByte(b: byte, high: nat)
    ensures (b + 0x100 * high) % 0x100 == b && (b + 0x100 * high) / 0x100 == high
  {}

  lemma WordBytes(b0: byte, b1: byte, b2: byte, b3: byte)
    ensures var w := WordOf(b0, b1, b2, b3);
      ByteOf(w, 0) == b0 && ByteOf(w, 1) == b1 && ByteOf(w, 2) == b2 && ByteOf(w, 3) == b3
  {
    LowByte(b0, b1 + 0x100 * (b2 + 0x100 * b3));
    LowByte(b1, b2 + 0x100 * b3);
    LowByte(b2, b3);
    var w := WordOf(b0, b1, b2, b3);
    assert ByteOf(w, 1) == ByteOf(w / 0x100, 0);
    assert ByteOf(w, 2) == ByteOf(w / 0x100, 1) == ByteOf(w / 0x100 / 0x100, 0);
    assert ByteOf(w, 3) == ByteOf(w / 0x100, 2) == ByteOf(w / 0x100 / 0x100, 1) == ByteOf(b3, 0);
  }

  method LoadWord(mem: array<byte>, at: nat) returns (word: nat)
    requires at + WORD <= mem.Length
    ensures word == WordOf(mem[at], mem[at + 1], mem[at + 2], mem[at + 3])
  {
    word := WordOf(mem[at], mem[at + 1], mem[at + 2], mem[at + 3]);
  }

  method StoreWord(mem: array<byte>, at: nat, word: nat)
    requires at + WORD <= mem.Length
    modifies mem
    ensures mem[at] == ByteOf(word, 0) && mem[at + 1] == ByteOf(word, 1)
    ensures mem[at + 2] == ByteOf(word, 2) && mem[at + 3] == ByteOf(word, 3)
    ensures forall k :: 0 <= k < mem.Length && !(at <= k < at + WORD) ==> mem[k] == old(mem[k])
  {
    mem[at] := ByteOf(word, 0);
    mem[at + 1] := ByteOf(word, 1);
    mem[at + 2] := ByteOf(word, 2);
    mem[at + 3] := ByteOf(word, 3);
  }

  // What a copy of n bytes, all taken from the memory as it was, leaves at address k.
  function CopiedAt(before: seq<byte>, dest: nat, src: nat, n: nat, k: nat): byte
    requires k < |before| && src + n <= |before|
  {
    if dest <= k < dest + n then before[k - dest + src] else before[k]
  }

  ghost predicate CopiedSoFar(mem: seq<byte>, before: seq<byte>, dest: nat, src: nat, i: nat)
    requires |mem| == |before| && src + i <= |before|
  {
    forall k :: 0 <= k < |mem| ==> mem[k] == CopiedAt(before, dest, src, i, k)
  }

  // One movsl.
  method MoveWord(mem: array<byte>, dest: nat, src: nat)
    requires dest + WORD <= mem.Length && src + WORD <= mem.Length
    modifies mem
    ensures CopiedSoFar(mem[..], old(mem[..]), dest, src, WORD)
  {
    hide WordOf, ByteOf;
    var word := LoadWord(mem, src);
    WordBytes(mem[src], mem[src + 1], mem[src + 2], mem[src + 3]);
    StoreWord(mem, dest, word);
  }

  // What a bytewise fill of n bytes leaves at address k.
  function FilledAt(before: seq<byte>, s: nat, c: byte, n: nat, k: nat): byte
    requires k < |before|
  {
    if s <= k < s + n then c else before[k]
  }

  /** For every start, byte and length, aligned or not, exactly the n bytes from s become the low byte of c. */
  method Memset(mem: array<byte>, s: nat, c: int, n: nat)
    requires s + n <= mem.Length
    modifies mem
    ensures forall k :: 0 <= k < mem.Length ==> mem[k] == FilledAt(old(mem[..]), s, c % 0x100, n, k)
  {
    hide WordOf, ByteOf;
    var al: byte := c % 0x100;
    var eax := WordOf(al, al, al, al);
    WordBytes(al, al, al, al);
    ghost var before := mem[..];
    var edi: nat, ecx: nat := s, n;
    while ecx != 0 && edi % WORD != 0
      invariant edi + ecx == s + n && s <= edi
      invariant forall k :: 0 <= k < mem.Length ==> mem[k] == FilledAt(before, s, al, edi - s, k)
    {
      mem[edi] := al;
      edi, ecx := edi + 1, ecx - 1;
    }
    if ecx == 0 {
      return;
    }
    var edx: nat := ecx % WORD;
    ecx := ecx / WORD;
    while ecx != 0
      invariant edi + WORD * ecx + edx == s + n && s <= edi
      invariant forall k :: 0 <= k < mem.Length ==> mem[k] == FilledAt(before, s, al, edi - s, k)
    {
      StoreWord(mem, edi, eax);
      edi, ecx := edi + WORD, ecx - 1;
    }
    while edx != 0
      invariant edi + edx == s + n && s <= edi
      invariant forall k :: 0 <= k < mem.Length ==> mem[k] == FilledAt(before, s, al, edi - s, k)
    {
      mem[edi] := al;
      edi, edx := edi + 1, edx - 1;
    }
  }

  lemma CopiedNone(mem: seq<byte>, dest: nat, src: nat)
    requires src <= |mem|
    ensures CopiedSoFar(mem, mem, dest, src, 0)
  {}

  // Copying i bytes and then j more copies i + j, when no byte is overwritten before it is read.
  lemma CopiedOn(m0: seq<byte>, m1: seq<byte>, m2: seq<byte>, dest: nat, src: nat, i: nat, j: nat)
    requires |m0| == |m1| == |m2| && src + i + j <= |m0| && dest + i + j <= |m0|
    requires dest <= src || src + i + j <= dest
    requires CopiedSoFar(m1, m0, dest, src, i) && CopiedSoFar(m2, m1, dest + i, src + i, j)
    ensures CopiedSoFar(m2, m0, dest, src, i + j)
  {}

  // The byte loops: up to n bytes, and when `align` is set only until the destination is a multiple of four.
  method CopyBytes(mem: array<byte>, dest: nat, src: nat, n: nat, align: bool) returns (moved: nat)
    requires dest + n <= mem.Length && src + n <= mem.Length
    requires dest <= src || src + n <= dest
    modifies mem
    ensures moved <= n && (moved == n || (align && (dest + moved) % WORD == 0))
    ensures CopiedSoFar(mem[..], old(mem[..]), dest, src, moved)
  {
    ghost var before := mem[..];
    moved := 0;
    while moved < n && (!align || (dest + moved) % WORD != 0)
      invariant moved <= n
      invariant CopiedSoFar(mem[..], before, dest, src, moved)
    {
      var al := mem[src + moved];
      mem[dest + moved] := al;
      moved := moved + 1;
    }
  }

  // rep movsl
  method CopyWords(mem: array<byte>, dest: nat, src: nat, words: nat)
    requires dest + WORD * words <= mem.Length && src + WORD * words <= mem.Length
    requires dest <= src || src + WORD * words <= dest
    modifies mem
    ensures CopiedSoFar(mem[..], old(mem[..]), dest, src, WORD * words)
  {
    hide CopiedSoFar, CopiedAt;
    ghost var before := mem[..];
    var i := 0;
    CopiedNone(before, dest, src);
    while i < words
      invariant i <= words
      invariant CopiedSoFar(mem[..], before, dest, src, WORD * i)
    {
      ghost var now := mem[..];
      MoveWord(mem, dest + WORD * i, src + WORD * i);
      CopiedOn(before, now, mem[..], dest, src, WORD * i, WORD);
      i := i + 1;
    }
  }

  /** For every alignment and length the head, word and tail loops copy the original source bytes, provided the
    * ranges are disjoint or the destination starts no later than the source. */
  method Memcpy(mem: array<byte>, dest: nat, src: nat, n: nat)
    requires dest + n <= mem.Length && src + n <= mem.Length
    requires dest <= src || src + n <= dest
    modifies mem
    ensures CopiedSoFar(mem[..], old(mem[..]), dest, src, n)
  {
    hide CopiedSoFar;
    ghost var m0 := mem[..];
    var head := CopyBytes(mem, dest, src, n, true);
    if head == n {
      return;
    }
    ghost var m1 := mem[..];
    var words, tail := (n - head) / WORD, (n - head) % WORD;
    CopyWords(mem, dest + head, src + head, words);
    ghost var m2 := mem[..];
    CopiedOn(m0, m1, m2, dest, src, head, WORD * words);
    var rest := CopyBytes(mem, dest + head + WORD * words, src + head + WORD * words, tail, false);
    CopiedOn(m0, m2, mem[..], dest, src, head + WORD * words, tail);
  }

  /** For every overlap the destination receives the original source bytes, because the direction follows the order
    * of the two pointers. */
  method Memmove(mem: array<byte>, dest: nat, src: nat, n: nat)
    requires dest + n <= mem.Length && src + n <= mem.Length
    modifies mem
    ensures CopiedSoFar(mem[..], old(mem[..]), dest, src, n)
  {
    ghost var before := mem[..];
    var ecx := n;
    if src >= dest {
      var edi, esi := dest, src;
      while ecx != 0
        invariant edi - dest == esi - src == n - ecx && dest <= edi
        invariant CopiedSoFar(mem[..], before, dest, src, edi - dest)
      {
        mem[edi] := mem[esi];
        edi, esi, ecx := edi + 1, esi + 1, ecx - 1;
      }
    } else {
      // the last bytes of the two ranges; with nothing to copy they lie one below the starts
      var esi: int, edi: int := src + n - 1, dest + n - 1;
      while ecx != 0
        invariant edi == dest + ecx - 1 && esi == src + ecx - 1
        invariant CopiedSoFar(mem[..], before, dest + ecx, src + ecx, n - ecx)
      {
        mem[edi] := mem[esi];
        edi, esi, ecx := edi - 1, esi - 1, ecx - 1;
      }
    }
  }
}
