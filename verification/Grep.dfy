/** The streaming line scanner of syscalls/ece391grep.c, proved to print what the batch filter of GrepSpec prints. */
module Grep {
  import opened Basics
  import opened Bytes
  import opened CStrings
  import opened Descriptors
  import opened TextLines
  import opened GrepSpec
  import opened UserCalls

  const BUFSIZE := 1024

  // data[from..end] is a C string: no NUL before the one at `end`.
  ghost predicate CString(data: seq<byte>, from: nat, end: nat) {
    && from <= end < |data| && data[end] == NUL
    && (forall k :: from <= k < end ==> data[k] != NUL)
  }

  method Strlen(data: array<byte>, from: nat, ghost end: nat) returns (len: nat)
    requires CString(data[..], from, end)
    ensures len == end - from
  {
    len := 0;
    while data[from + len] != NUL
      invariant from + len <= end
      decreases end - len
    {
      len := len + 1;
    }
  }

  // The copy runs upwards, so it may slide a string down over itself.
  method Strcpy(data: array<byte>, dst: nat, src: nat, ghost end: nat)
    requires dst < src && CString(data[..], src, end)
    modifies data
    ensures forall k :: 0 <= k < dst ==> data[k] == old(data[k])
    ensures forall k :: dst <= k <= dst + (end - src) ==> data[k] == old(data[k - dst + src])
    ensures forall k :: dst + (end - src) < k < data.Length ==> data[k] == old(data[k])
  {
    ghost var before := data[..];
    var i := 0;
    while true
      invariant src + i <= end
      invariant forall k :: 0 <= k < dst ==> data[k] == before[k]
      invariant forall k :: dst <= k < dst + i ==> data[k] == before[k - dst + src]
      invariant forall k :: dst + i <= k < data.Length ==> data[k] == before[k]
      decreases end - i
    {
      var c := data[src + i];
      assert c == before[src + i];
      data[dst + i] := c;
      i := i + 1;
      if c == NUL {
        break;
      }
    }
  }

  /** Zero exactly when the n-byte string s stands at data[at..] inside the C string that ends at `end`. */
  method Strncmp(data: array<byte>, at: nat, s: array<byte>, n: nat, ghost end: nat) returns (r: int)
    requires CString(data[..], at, end) && CString(s[..], 0, n)
    ensures r == 0 <==> OccursAt(data[at..end], s[..n], 0)
  {
    if n == 0 {
      return 0;
    }
    var i, left := 0, n;
    while data[at + i] == s[i]
      invariant i + left == n && 0 < left && at + i <= end
      invariant forall k :: 0 <= k < i ==> data[at + k] == s[k]
      decreases left
    {
      if data[at + i] == NUL {
        return 0;
      }
      left := left - 1;
      if left == 0 {
        assert data[at..end][..n] == s[..n];
        return 0;
      }
      i := i + 1;
    }
    r := data[at + i] as int - s[i] as int;
    assert s[..n][i] == s[i];
    if at + n <= end { assert data[at..end][..n][i] == data[at + i]; }
  }

  lemma FirstOccurs(line: seq<byte>, pattern: seq<byte>, at: nat)
    requires pattern != [] && at < |line|
    ensures OccursAt(line, pattern, at) <==> line[at] == pattern[0] && OccursAt(line[at..], pattern, 0)
  {}

  /** The test in the search loop: whether the pattern, if it can be found at all, stands at `check` in the line. */
  method TestAt(data: array<byte>, from: nat, check: nat, end: nat, s: array<byte>, n: nat) returns (hit: bool)
    requires CString(data[..], from, end) && CString(s[..], 0, n) && from <= check < end
    ensures hit <==> n > 0 && s[0] < 128 && OccursAt(data[from..end], s[..n], check - from)
  {
    ghost var line := data[from..end];
    // s is a char pointer: a first character outside ASCII is negative there
    var first := if s[0] < 128 then s[0] as int else s[0] as int - 256;
    var differs := 1;
    if first == data[check] {
      differs := Strncmp(data, check, s, n, end);
      assert data[check..end] == line[check - from..];
    }
    if n > 0 && s[0] < 128 { FirstOccurs(line, s[..n], check - from); }
    hit := first == data[check] && differs == 0;
  }

  lemma NotReported(line: seq<byte>, pattern: seq<byte>)
    requires pattern != [] && pattern[0] < 128 ==> forall at: nat :: at < |line| ==> !OccursAt(line, pattern, at)
    ensures !Reported(line, pattern)
  {}

  /** Prints the line data[from..end] with the file's name when the pattern occurs in it. */
  method SearchLine(data: array<byte>, from: nat, end: nat, s: array<byte>, n: nat, name: seq<byte>, out: seq<byte>)
    returns (printed: seq<byte>)
    requires CString(data[..], from, end) && CString(s[..], 0, n)
    ensures printed == out + GrepLine(name, s[..n], data[from..end])
  {
    printed := out;
    var check := from;
    while check < end
      invariant from <= check <= end
      invariant printed == out
      invariant n > 0 && s[0] < 128 ==> forall at: nat :: at < check - from ==> !OccursAt(data[from..end], s[..n], at)
    {
      var hit := TestAt(data, from, check, end, s, n);
      if hit {
        var len := Strlen(data, from, end);
        printed := out + name + [58] + data[from..from + len] + [NEWLINE];
        assert printed == out + Report(name, data[from..end]);
        return;
      }
      check := check + 1;
    }
    NotReported(data[from..end], s[..n]);
  }

  ghost predicate NulFree(text: seq<byte>) {
    forall k :: 0 <= k < |text| ==> text[k] != NUL
  }

  lemma NulFreePart(text: seq<byte>, from: nat, end: nat, last: nat)
    requires from <= end <= last <= |text| && NulFree(text[..last])
    ensures NUL !in text[from..end]
  {
    assert text[from..end] == text[..last][from..end];
  }

  method FindLineEnd(data: array<byte>, from: nat, last: nat) returns (end: nat)
    requires from <= last < data.Length
    ensures from <= end <= last
    ensures NEWLINE !in data[from..end]
    ensures end < last ==> data[end] == NEWLINE
  {
    end := from;
    while end < last && data[end] != NEWLINE
      invariant from <= end <= last
      invariant NEWLINE !in data[from..end]
    {
      end := end + 1;
    }
  }

  // What a buffer of `last` bytes still to scan, with `rest` of the file unread behind it, has to report.
  ghost function Pending(data: seq<byte>, from: nat, last: nat, rest: seq<byte>): seq<byte>
    requires from <= last <= |data|
  {
    data[from..last] + rest
  }

  // Slides the unfinished line data[from..last] down to the front.
  method CarryOver(data: array<byte>, from: nat, last: nat) returns (kept: nat)
    requires data.Length == BUFSIZE + 1 && 0 < from <= last <= BUFSIZE && data[BUFSIZE] != NEWLINE
    requires forall k :: from <= k < last ==> data[k] != NUL
    modifies data
    ensures kept == last - from && data[BUFSIZE] != NEWLINE
    ensures data[..kept] == old(data[from..last])
  {
    data[last] := NUL;
    Strcpy(data, 0, from, last);
    kept := last - from;
    assert forall k :: 0 <= k < kept ==> data[k] == old(data[k - 0 + from]);
  }

  ghost function After(data: seq<byte>, end: nat, last: nat, rest: seq<byte>): seq<byte>
    requires end <= last <= |data|
  {
    if end < last then Pending(data, end + 1, last, rest) else []
  }

  lemma FirstLineOf(data: seq<byte>, from: nat, end: nat, last: nat, rest: seq<byte>)
    requires from <= end < last <= |data| && data[end] == NEWLINE
    ensures Pending(data, from, last, rest) == data[from..end] + [NEWLINE] + Pending(data, end + 1, last, rest)
  {}

  // Scanning the line before[from..end] leaves the rest of the buffer and of the file to report.
  lemma OneLineDone(before: seq<byte>, from: nat, end: nat, last: nat, rest: seq<byte>, pattern: seq<byte>,
                    name: seq<byte>)
    requires from <= end <= last < |before| && NEWLINE !in before[from..end]
    requires ShortLines(Pending(before, from, last, rest), BUFSIZE - 1)
    requires end < last ==> before[end] == NEWLINE
    requires end == last ==> rest == [] || last - from >= BUFSIZE
    ensures end == last ==> rest == []
    ensures var after := After(before, end, last, rest);
      && ShortLines(after, BUFSIZE - 1)
      && Grep(name, pattern, Pending(before, from, last, rest))
         == GrepLine(name, pattern, before[from..end]) + Grep(name, pattern, after)
  {
    var line := before[from..end];
    hide Grep, GrepLine, ShortLines;
    if end < last {
      var after := Pending(before, end + 1, last, rest);
      FirstLineOf(before, from, end, last, rest);
      GrepFirstLine(name, pattern, line, after);
      ShortLinesRest(line, after, BUFSIZE - 1);
    } else {
      StartIsShort(line, rest, BUFSIZE - 1);
      assert Pending(before, from, last, rest) == line;
      GrepOneLine(name, pattern, line);
      GrepEmpty(name, pattern);
    }
  }

  lemma Regroup(a: seq<byte>, b: seq<byte>, c: seq<byte>)
    ensures a + (b + c) == a + b + c
  {}

  // Ends the line data[from..end] with a NUL and searches it.
  method CutLine(data: array<byte>, from: nat, end: nat, s: array<byte>, n: nat, name: seq<byte>, out: seq<byte>)
    returns (printed: seq<byte>)
    requires from <= end < data.Length && NUL !in data[from..end] && data != s && CString(s[..], 0, n)
    modifies data
    ensures s[..] == old(s[..]) && data[end] == NUL
    ensures forall k :: 0 <= k < data.Length && k != end ==> data[k] == old(data[k])
    ensures printed == out + GrepLine(name, s[..n], old(data[from..end]))
  {
    hide GrepLine;
    data[end] := NUL;
    assert data[from..end] == old(data[from..end]);
    printed := SearchLine(data, from, end, s, n, name, out);
  }

  // Cuts the line off the buffer and says what it prints and what is still to come.
  method ScanLine(data: array<byte>, from: nat, end: nat, last: nat, s: array<byte>, n: nat, name: seq<byte>,
                  out: seq<byte>,
                  ghost before: seq<byte>, ghost rest: seq<byte>)
    returns (printed: seq<byte>)
    requires data.Length == BUFSIZE + 1 == |before| && data != s && CString(s[..], 0, n)
    requires from <= end <= last < data.Length && NEWLINE !in before[from..end] && NulFree(before[..last])
    requires data[BUFSIZE] != NEWLINE && forall k :: from <= k < data.Length ==> data[k] == before[k]
    requires ShortLines(Pending(before, from, last, rest), BUFSIZE - 1)
    requires end < last ==> before[end] == NEWLINE
    requires end == last ==> rest == [] || last - from >= BUFSIZE
    modifies data
    ensures data[BUFSIZE] != NEWLINE && forall k :: end < k < data.Length ==> data[k] == before[k]
    ensures s[..] == old(s[..])
    ensures end == last ==> rest == []
    ensures ShortLines(After(before, end, last, rest), BUFSIZE - 1)
    ensures out + Grep(name, s[..n], Pending(before, from, last, rest))
         == printed + Grep(name, s[..n], After(before, end, last, rest))
  {
    ghost var reported := GrepLine(name, s[..n], before[from..end]);
    ghost var later := Grep(name, s[..n], After(before, end, last, rest));
    OneLineDone(before, from, end, last, rest, s[..n], name);
    assert data[from..end] == before[from..end];
    NulFreePart(before, from, end, last);
    hide ShortLines, Grep, GrepLine, After, Pending, NulFree, CString;
    printed := CutLine(data, from, end, s, n, name, out);
    Regroup(out, reported, later);
  }

  /** One buffer: reports its complete lines, and moves an unfinished last line to the front for the next read. */
  method ScanBuffer(data: array<byte>, last: nat, cnt: nat, s: array<byte>, n: nat, name: seq<byte>, out: seq<byte>,
                    ghost rest: seq<byte>)
    returns (kept: nat, printed: seq<byte>)
    requires data.Length == BUFSIZE + 1 && last <= BUFSIZE && data[BUFSIZE] != NEWLINE && data != s
    requires CString(s[..], 0, n)
    requires NulFree(data[..last]) && ShortLines(data[..last] + rest, BUFSIZE - 1)
    // a read comes back short only at the end of the file
    requires last < BUFSIZE ==> rest == []
    requires cnt == 0 ==> rest == []
    modifies data
    ensures kept < BUFSIZE && data[BUFSIZE] != NEWLINE
    ensures NulFree(data[..kept])
    ensures ShortLines(data[..kept] + rest, BUFSIZE - 1)
    ensures printed + Grep(name, s[..n], data[..kept] + rest) == out + Grep(name, s[..n], old(data[..last]) + rest)
    ensures cnt == 0 ==> kept == 0
    ensures s[..] == old(s[..])
  {
    hide Grep, ShortLines;
    printed := out;
    var lineStart := 0;
    ghost var pattern := s[..n];
    ghost var before := data[..];
    ghost var total := out + Grep(name, pattern, before[..last] + rest);
    assert Pending(before, 0, last, rest) == before[..last] + rest;
    while true
      invariant lineStart <= last && (lineStart == last ==> last == 0)
      invariant s[..n] == pattern
      invariant data[BUFSIZE] != NEWLINE && forall k :: lineStart <= k < data.Length ==> data[k] == before[k]
      invariant ShortLines(Pending(before, lineStart, last, rest), BUFSIZE - 1)
      invariant printed + Grep(name, pattern, Pending(before, lineStart, last, rest)) == total
      decreases last - lineStart
    {
      var lineEnd := FindLineEnd(data, lineStart, last);
      if data[lineEnd] != NEWLINE && cnt != 0 && lineStart != 0 {
        assert NulFree(before[..last]);
        assert data[lineStart..last] == before[lineStart..last];
        kept := CarryOver(data, lineStart, last);
        assert data[..kept] + rest == Pending(before, lineStart, last, rest);
        return;
      }
      assert before[lineStart..lineEnd] == data[lineStart..lineEnd];
      printed := ScanLine(data, lineStart, lineEnd, last, s, n, name, printed, before, rest);
      lineStart := lineEnd + 1;
      if lineStart >= last {
        assert data[..0] + rest == After(before, lineEnd, last, rest);
        kept := 0;
        return;
      }
    }
  }

  // The read behind the carried-over line: nothing of the file is lost, and a short read ends it.
  method Refill(file: OpenFile, data: array<byte>, last: nat) returns (cnt: nat)
    requires file.Valid() && last < BUFSIZE && data.Length == BUFSIZE + 1
    requires NulFree(data[..last]) && NulFree(file.Rest())
    modifies file.table.fds, data
    ensures file.Valid() && Kept(old(file.table.fds[..]), file.table.fds[..], file.fd, file.fd)
    ensures last + cnt <= BUFSIZE && data[BUFSIZE] == old(data[BUFSIZE])
    ensures data[..last + cnt] + file.Rest() == old(data[..last] + file.Rest())
    ensures NulFree(data[..last + cnt]) && NulFree(file.Rest())
    ensures |file.Rest()| + cnt == |old(file.Rest())|
    ensures cnt == 0 || last + cnt < BUFSIZE ==> file.Rest() == []
  {
    ghost var before, rest := data[..last], file.Rest();
    hide file.Valid, file.Rest, Kept;
    cnt := file.Read(data, last, BUFSIZE - last);
    assert data[..last + cnt] == before + rest[..cnt];
    assert rest[..cnt] + rest[cnt..] == rest;
    Regroup(before, rest[..cnt], rest[cnt..]);
  }

  // What is still to be searched: the line carried over and the rest of the file.
  ghost function Unread(data: array<byte>, last: nat, file: OpenFile): seq<byte>
    requires last <= data.Length
    reads data, file.table, file.table.fds
  {
    data[..last] + file.Rest()
  }

  // One turn of the loop of do_one_file: a read and a scan of the buffer.
  method ScanOnce(s: array<byte>, ghost pattern: seq<byte>, n: nat, name: seq<byte>, file: OpenFile, data: array<byte>,
                  last: nat, out: seq<byte>)
    returns (more: bool, kept: nat, printed: seq<byte>)
    requires CString(s[..], 0, n) && pattern == s[..n]
    requires file.Valid() && last < BUFSIZE && data.Length == BUFSIZE + 1 && data[BUFSIZE] != NEWLINE && data != s
    requires NulFree(data[..last]) && NulFree(file.Rest()) && ShortLines(Unread(data, last, file), BUFSIZE - 1)
    modifies file.table.fds, data
    ensures file.Valid() && Kept(old(file.table.fds[..]), file.table.fds[..], file.fd, file.fd)
    ensures kept < BUFSIZE && data[BUFSIZE] != NEWLINE && s[..] == old(s[..])
    ensures NulFree(data[..kept]) && NulFree(file.Rest()) && ShortLines(Unread(data, kept, file), BUFSIZE - 1)
    ensures printed + Grep(name, pattern, Unread(data, kept, file)) ==
      out + Grep(name, pattern, old(Unread(data, last, file)))
    ensures if more then |file.Rest()| < |old(file.Rest())| else Unread(data, kept, file) == []
  {
    hide ShortLines, Grep, Kept, NulFree, CString;
    var cnt := Refill(file, data, last);
    ghost var rest := file.Rest();
    assert data[..last + cnt] + rest == old(Unread(data, last, file));
    kept, printed := ScanBuffer(data, last + cnt, cnt, s, n, name, out, rest);
    assert Unread(data, kept, file) == data[..kept] + rest;
    more := cnt != 0;
  }

  // Its whole loop, on a file at any place.
  method Scan(s: array<byte>, ghost pattern: seq<byte>, n: nat, name: seq<byte>, file: OpenFile, data: array<byte>,
              out: seq<byte>)
    returns (printed: seq<byte>)
    requires CString(s[..], 0, n) && pattern == s[..n]
    requires file.Valid() && NulFree(file.Rest()) && ShortLines(file.Rest(), BUFSIZE - 1)
    requires data.Length == BUFSIZE + 1 && data[BUFSIZE] != NEWLINE && data != s
    modifies file.table.fds, data
    ensures file.Valid() && Kept(old(file.table.fds[..]), file.table.fds[..], file.fd, file.fd)
    ensures printed == out + Grep(name, pattern, old(file.Rest()))
  {
    KeptSelf(file.table.fds[..], file.fd, file.fd);
    GrepEmpty(name, pattern);
    printed := out;
    var last := 0;
    assert Unread(data, 0, file) == file.Rest() && NulFree(data[..0]);
    hide ShortLines, Grep, Kept, NulFree, CString, Unread;
    while true
      invariant file.Valid() && Kept(old(file.table.fds[..]), file.table.fds[..], file.fd, file.fd)
      invariant 0 <= last < BUFSIZE && data[BUFSIZE] != NEWLINE && s[..] == old(s[..])
      invariant NulFree(data[..last]) && NulFree(file.Rest()) && ShortLines(Unread(data, last, file), BUFSIZE - 1)
      invariant printed + Grep(name, pattern, Unread(data, last, file)) == out + Grep(name, pattern, old(file.Rest()))
      decreases |file.Rest()|
    {
      ghost var fds := file.table.fds[..];
      var more;
      more, last, printed := ScanOnce(s, pattern, n, name, file, data, last, printed);
      KeptOn(old(file.table.fds[..]), fds, file.table.fds[..], file.fd, file.fd);
      if !more {
        break;
      }
    }
  }

  const OPEN_FAILED: seq<byte> := [102, 105, 108, 101, 32, 111, 112, 101, 110, 32, 102, 97, 105, 108, 101, 100, 10]

  // The characters fdputs writes of a C string.
  method Terminated(text: seq<byte>) returns (name: seq<byte>)
    requires NUL in text
    ensures name == Name(text, |text|)
  {
    var len := CStrings.Strlen(text);
    NamePrefix(text, |text|);
    name := text[..len];
  }

  /** Streaming grep is batch grep: for every file whose lines have at most 1023 bytes, however the 1024-byte reads
    * cut them, the scanner terminates and prints exactly the reports of the lines that contain the pattern, in file
    * order. It leaves every descriptor open or closed as it was. */
  method DoOneFile(s: array<byte>, ghost pattern: seq<byte>, fname: seq<byte>, table: Table, data: array<byte>,
                   out: seq<byte>)
    returns (r: int, printed: seq<byte>)
    requires CString(s[..], 0, |pattern|) && pattern == s[..|pattern|]
    requires table.Valid() && NUL in fname && RegularOrMissing(table.image, fname)
    requires NulFree(Named(table.image, fname)) && ShortLines(Named(table.image, fname), BUFSIZE - 1)
    requires data.Length == BUFSIZE + 1 && data[BUFSIZE] != NEWLINE && data != s
    modifies table.fds, data
    ensures table.Valid() && forall i :: 0 <= i < MAX_FILES ==> table.fds[i].inUse == old(table.fds[i].inUse)
    ensures if OpenStep(table.image, old(table.fds[..]), fname).1 == -1 then
        r == -1 && printed == out + OPEN_FAILED
      else
        r == 0 && printed == out + Grep(Name(fname, |fname|), pattern, Named(table.image, fname))
  {
    hide ShortLines, Grep, Named;
    var n := Strlen(s, 0, |pattern|);
    var file := OpenByName(table, fname);
    if file == null {
      return -1, out + OPEN_FAILED;
    }
    var name := Terminated(fname);
    printed := Scan(s, pattern, n, name, file, data, out);
    file.Close();
    r := 0;
  }
}
