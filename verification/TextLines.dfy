/** Texts as sequences of newline-separated lines. */
module TextLines {
  import opened Bytes

  // Index of the first newline, or the length of the text.
  function LineEnd(text: seq<byte>): (end: nat)
    ensures end <= |text|
    ensures NEWLINE !in text[..end]
    ensures end < |text| ==> text[end] == NEWLINE
  {
    if text == [] || text[0] == NEWLINE then 0
    else
      assert text[..1 + LineEnd(text[1..])] == [text[0]] + text[1..][..LineEnd(text[1..])];
      1 + LineEnd(text[1..])
  }

  // The pieces of a text between newlines; a text without newline is one piece.
  function Lines(text: seq<byte>): (lines: seq<seq<byte>>)
    ensures lines != []
  {
    if NEWLINE !in text then [text]
    else
      var end := LineEnd(text);
      [text[..end]] + Lines(text[end + 1..])
  }

  function Join(lines: seq<seq<byte>>): seq<byte>
    requires lines != []
  {
    if |lines| == 1 then lines[0] else lines[0] + [NEWLINE] + Join(lines[1..])
  }

  lemma NoNewline(text: seq<byte>)
    ensures NEWLINE !in text <==> LineEnd(text) == |text|
  {}

  /** The lines are newline-free and give the text back when joined. */
  lemma {:induction false} LinesJoin(text: seq<byte>)
    ensures Join(Lines(text)) == text
    ensures forall i :: 0 <= i < |Lines(text)| ==> NEWLINE !in Lines(text)[i]
  {
    if NEWLINE !in text {
    } else {
      NoNewline(text);
      var end := LineEnd(text);
      LinesJoin(text[end + 1..]);
      assert Lines(text)[1..] == Lines(text[end + 1..]);
      assert text == text[..end] + [NEWLINE] + text[end + 1..];
    }
  }

  lemma LineEndIs(text: seq<byte>, end: nat)
    requires end <= |text| && NEWLINE !in text[..end] && (end < |text| ==> text[end] == NEWLINE)
    ensures LineEnd(text) == end
  {}

  lemma LinesFirst(line: seq<byte>, rest: seq<byte>)
    requires NEWLINE !in line
    ensures Lines(line + [NEWLINE] + rest) == [line] + Lines(rest)
  {
    var text := line + [NEWLINE] + rest;
    assert text[..|line|] == line && text[|line|] == NEWLINE && text[|line| + 1..] == rest;
    LineEndIs(text, |line|);
    assert NEWLINE in text;
  }
}
