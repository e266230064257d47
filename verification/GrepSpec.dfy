/** Batch grep: what a whole-file filter prints. */
module GrepSpec {
  import opened Bytes
  import opened TextLines

  ghost predicate OccursAt(line: seq<byte>, pattern: seq<byte>, at: nat) {
    at + |pattern| <= |line| && line[at..at + |pattern|] == pattern
  }

  ghost predicate Contains(line: seq<byte>, pattern: seq<byte>) {
    exists at: nat :: OccursAt(line, pattern, at)
  }

  // A line is reported when it contains the pattern. The pattern's first character is a signed char compared with an
  // unsigned byte, so a pattern that starts outside ASCII, like the empty one, is never found.
  ghost predicate Reported(line: seq<byte>, pattern: seq<byte>) {
    pattern != [] && pattern[0] < 128 && Contains(line, pattern)
  }

  ghost function Report(name: seq<byte>, line: seq<byte>): seq<byte> {
    name + [58] + line + [NEWLINE] // 58 is ':'
  }

  // The reports of the reported lines, in order.
  ghost function Reports(name: seq<byte>, pattern: seq<byte>, lines: seq<seq<byte>>): seq<byte> {
    if lines == [] then []
    else (if Reported(lines[0], pattern) then Report(name, lines[0]) else []) + Reports(name, pattern, lines[1..])
  }

  ghost function Grep(name: seq<byte>, pattern: seq<byte>, text: seq<byte>): seq<byte> {
    Reports(name, pattern, Lines(text))
  }

  ghost function GrepLine(name: seq<byte>, pattern: seq<byte>, line: seq<byte>): seq<byte> {
    if Reported(line, pattern) then Report(name, line) else []
  }

  /** A text that starts with a newline-ended line reports that line and then the rest. */
  lemma GrepFirstLine(name: seq<byte>, pattern: seq<byte>, line: seq<byte>, rest: seq<byte>)
    requires NEWLINE !in line
    ensures Grep(name, pattern, line + [NEWLINE] + rest) == GrepLine(name, pattern, line) + Grep(name, pattern, rest)
  {
    LinesFirst(line, rest);
    assert ([line] + Lines(rest))[1..] == Lines(rest);
  }

  lemma GrepOneLine(name: seq<byte>, pattern: seq<byte>, line: seq<byte>)
    requires NEWLINE !in line
    ensures Grep(name, pattern, line) == GrepLine(name, pattern, line)
  {
    assert Lines(line) == [line] && [line][1..] == [];
    assert Reports(name, pattern, []) == [];
  }

  lemma GrepEmpty(name: seq<byte>, pattern: seq<byte>)
    ensures Grep(name, pattern, []) == []
  {
    GrepOneLine(name, pattern, []);
  }

  // ----- the output, line by line -----

  // `ks` are the indices of the reported lines, in order.
  ghost predicate ReportedAt(pattern: seq<byte>, lines: seq<seq<byte>>, ks: seq<nat>) {
    && (forall i, j :: 0 <= i < j < |ks| ==> ks[i] < ks[j])
    && (forall k :: k in ks <==> 0 <= k < |lines| && Reported(lines[k], pattern))
  }

  // The output has one line for each of them, and an empty rest.
  ghost predicate OutputLines(name: seq<byte>, lines: seq<seq<byte>>, ks: seq<nat>, output: seq<seq<byte>>) {
    && |output| == |ks| + 1 && output[|ks|] == []
    && (forall i :: 0 <= i < |ks| ==> ks[i] < |lines| && output[i] == name + [58] + lines[ks[i]])
  }

  function Shifted(ks: seq<nat>): (shifted: seq<nat>)
    ensures |shifted| == |ks| && forall i :: 0 <= i < |ks| ==> shifted[i] == ks[i] + 1
  {
    seq(|ks|, i requires 0 <= i < |ks| => ks[i] + 1)
  }

  function Indices(first: bool, rest: seq<nat>): seq<nat> { (if first then [0] else []) + Shifted(rest) }

  lemma ReportedRest(pattern: seq<byte>, lines: seq<seq<byte>>, rest: seq<nat>)
    requires lines != [] && ReportedAt(pattern, lines[1..], rest)
    ensures ReportedAt(pattern, lines, Indices(Reported(lines[0], pattern), rest))
  {
    var ks := Indices(Reported(lines[0], pattern), rest);
    hide Reported;
    forall k ensures k in ks <==> 0 <= k < |lines| && Reported(lines[k], pattern) {
      if k > 0 {
        assert k in Shifted(rest) <==> k - 1 in rest by {
          if k - 1 in rest { var i :| 0 <= i < |rest| && rest[i] == k - 1; assert Shifted(rest)[i] == k; }
        }
      }
    }
  }

  lemma OutputRest(name: seq<byte>, lines: seq<seq<byte>>, first: bool, rest: seq<nat>, output: seq<seq<byte>>)
    requires lines != [] && OutputLines(name, lines[1..], rest, output)
    ensures OutputLines(name, lines, Indices(first, rest), (if first then [name + [58] + lines[0]] else []) + output)
  {}

  lemma ReportIsLine(name: seq<byte>, line: seq<byte>, rest: seq<byte>)
    requires NEWLINE !in name && NEWLINE !in line
    ensures Lines(Report(name, line) + rest) == [name + [58] + line] + Lines(rest)
  {
    LinesFirst(name + [58] + line, rest);
  }

  lemma {:induction false} ReportsAreLines(name: seq<byte>, pattern: seq<byte>, lines: seq<seq<byte>>)
    returns (ks: seq<nat>)
    requires NEWLINE !in name && forall i :: 0 <= i < |lines| ==> NEWLINE !in lines[i]
    ensures ReportedAt(pattern, lines, ks)
    ensures OutputLines(name, lines, ks, Lines(Reports(name, pattern, lines)))
  {
    if lines == [] {
      ks := [];
    } else {
      var first := Reported(lines[0], pattern);
      var rest := ReportsAreLines(name, pattern, lines[1..]);
      var tail := Reports(name, pattern, lines[1..]);
      ReportedRest(pattern, lines, rest);
      OutputRest(name, lines, first, rest, Lines(tail));
      hide Reported, ReportedAt, OutputLines, Lines, Report;
      ks := Indices(first, rest);
      if first { ReportIsLine(name, lines[0], tail); }
      assert [] + tail == tail && [] + Lines(tail) == Lines(tail);
    }
  }

  /** What grep prints, read as lines again: the name, a colon and the line, once for each line of the text that
    * contains the pattern, in the order of the text. */
  lemma GrepOutput(name: seq<byte>, pattern: seq<byte>, text: seq<byte>)
    requires NEWLINE !in name
    ensures exists ks: seq<nat> ::
      ReportedAt(pattern, Lines(text), ks) && OutputLines(name, Lines(text), ks, Lines(Grep(name, pattern, text)))
  {
    LinesJoin(text);
    var ks := ReportsAreLines(name, pattern, Lines(text));
  }

  // ----- lines that fit the buffer -----

  ghost predicate ShortLines(text: seq<byte>, limit: nat) {
    forall i :: 0 <= i < |Lines(text)| ==> |Lines(text)[i]| <= limit
  }

  lemma ShortLinesRest(line: seq<byte>, rest: seq<byte>, limit: nat)
    requires NEWLINE !in line && ShortLines(line + [NEWLINE] + rest, limit)
    ensures ShortLines(rest, limit)
  {
    LinesFirst(line, rest);
    forall i | 0 <= i < |Lines(rest)| ensures |Lines(rest)[i]| <= limit {
      assert ([line] + Lines(rest))[i + 1] == Lines(rest)[i];
    }
  }

  // A newline-free start of a text is part of its first line.
  lemma StartIsShort(start: seq<byte>, rest: seq<byte>, limit: nat)
    requires NEWLINE !in start && ShortLines(start + rest, limit)
    ensures |start| <= limit
  {
    var text := start + rest;
    NoNewline(text);
    var end := LineEnd(text);
    assert |Lines(text)[0]| == end;
  }
}
