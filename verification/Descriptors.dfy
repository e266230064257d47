/** A process's descriptor table: `open`, `read` and `close` of student-distrib/syscalls.c over `f_read`, and the cat
  * program on top of them. */
module Descriptors {
  import opened Basics
  import opened Bytes
  import opened CStrings
  import opened FileSystem
  import ProcessModel

  type Fd = ProcessModel.Fd
  const FIRST_USER_FD := 2

  // ----- the calls on values -----

  function LowestFree(fds: seq<Fd>): (fd: nat)
    ensures fd <= |fds|
    ensures fd < |fds| ==> !fds[fd].inUse
    ensures forall i :: 0 <= i < fd ==> fds[i].inUse
  {
    if fds == [] || !fds[0].inUse then 0 else 1 + LowestFree(fds[1..])
  }

  function Opened(f: Fd, entry: Dentry): Fd {
    if entry.fileType == 0 then ProcessModel.Fd(ProcessModel.RtcOps, 0, 0, true)
    else if entry.fileType == 1 then ProcessModel.Fd(ProcessModel.DirOps, 0, 0, true)
    else if entry.fileType == 2 then ProcessModel.Fd(ProcessModel.FileOps, entry.inode, 0, true)
    else f.(position := 0, inUse := true)
  }

  ghost function OpenStep(img: Image, fds: seq<Fd>, fname: seq<byte>): (seq<Fd>, int) {
    var found := Lookup(img, fname, 0);
    var fd := LowestFree(fds);
    if Name(fname, |fname|) == [] || found == None || fd == |fds| then (fds, -1)
    else
      (fds[fd := Opened(fds[fd], found.value)], fd as int)
  }

  // The calls that reach f_read.
  ghost predicate ReadsFile(fds: seq<Fd>, fd: int, nbytes: int) {
    0 <= fd < |fds| && fd != 1 && 0 <= nbytes && fds[fd].inUse && fds[fd].ops == ProcessModel.FileOps
  }

  ghost function ReadStep(img: Image, fds: seq<Fd>, fd: int, nbytes: int): (seq<Fd>, int, seq<byte>)
    requires ReadsFile(fds, fd, nbytes) ==> fds[fd].inode < |img.inodes|
  {
    if !ReadsFile(fds, fd, nbytes) then (fds, -1, [])
    else
      var bytes := Taken(Contents(img, img.inodes[fds[fd].inode]), fds[fd].position, nbytes);
      (fds[fd := fds[fd].(position := fds[fd].position + |bytes|)], |bytes|, bytes)
  }

  ghost function CloseStep(fds: seq<Fd>, fd: int): (seq<Fd>, int) {
    if FIRST_USER_FD <= fd < |fds| && fds[fd].inUse then (fds[fd := fds[fd].(inUse := false)], 0) else (fds, -1)
  }

  // ----- every interleaving -----

  datatype Call = Open(fname: seq<byte>) | Read(fd: int, nbytes: int) | Close(fd: int)

  // What a program has seen on a descriptor since it opened it.
  datatype Stream = Stream(fname: seq<byte>, bytes: seq<byte>)

  ghost predicate OnFile(img: Image, f: Fd, s: Stream) {
    var found := Lookup(img, s.fname, 0);
    && found.Some? && found.value.fileType == 2
    && f.inode == found.value.inode < |img.inodes|
    && f.position <= |Contents(img, img.inodes[f.inode])|
    && s.bytes == Contents(img, img.inodes[f.inode])[..f.position]
  }

  // Each open file's descriptor has delivered exactly the start of the file it names, up to its position.
  ghost predicate Delivered(img: Image, fds: seq<Fd>, seen: seq<Stream>) {
    && |fds| == |seen| == MAX_FILES
    && (forall i :: 0 <= i < MAX_FILES && fds[i].inUse && fds[i].ops == ProcessModel.FileOps ==>
      OnFile(img, fds[i], seen[i]))
  }

  // One call, and the program's view after it: its streams change only by what the call returned to it.
  ghost function CallStep(img: Image, fds: seq<Fd>, seen: seq<Stream>, call: Call): (seq<Fd>, seq<Stream>)
    requires Delivered(img, fds, seen)
  {
    match call
    case Open(fname) =>
      var (after, fd) := OpenStep(img, fds, fname);
      (after, if fd >= 0 && fd < MAX_FILES then seen[fd := Stream(fname, [])] else seen)
    case Read(fd, nbytes) =>
      assert ReadsFile(fds, fd, nbytes) ==> OnFile(img, fds[fd], seen[fd]);
      var (after, r, bytes) := ReadStep(img, fds, fd, nbytes);
      (after, if r > 0 then seen[fd := Stream(seen[fd].fname, seen[fd].bytes + bytes)] else seen)
    case Close(fd) =>
      (CloseStep(fds, fd).0, seen)
  }

  lemma {:induction false} LookupIn(img: Image, fname: seq<byte>, from: nat)
    ensures Lookup(img, fname, from).Some? ==> Lookup(img, fname, from).value in img.dentries
    decreases |img.dentries| - from
  {
    if from >= |img.dentries| {
    } else {
      LookupIn(img, fname, from + 1);
    }
  }

  lemma OpenDelivers(img: Image, fds: seq<Fd>, seen: seq<Stream>, fname: seq<byte>)
    requires WellFormed(img) && Delivered(img, fds, seen)
    ensures var (after, view) := CallStep(img, fds, seen, Open(fname)); Delivered(img, after, view)
  {
    LookupIn(img, fname, 0);
  }

  lemma ReadDelivers(img: Image, fds: seq<Fd>, seen: seq<Stream>, fd: int, nbytes: int)
    requires Delivered(img, fds, seen) && ReadsFile(fds, fd, nbytes)
    ensures var (after, view) := CallStep(img, fds, seen, Read(fd, nbytes)); Delivered(img, after, view)
  {}

  lemma CallDelivers(img: Image, fds: seq<Fd>, seen: seq<Stream>, call: Call)
    requires WellFormed(img) && Delivered(img, fds, seen)
    ensures var (after, view) := CallStep(img, fds, seen, call); Delivered(img, after, view)
  {
    match call
    case Open(fname) => OpenDelivers(img, fds, seen, fname);
    case Read(fd, nbytes) =>
      if ReadsFile(fds, fd, nbytes) {
        assert OnFile(img, fds[fd], seen[fd]);
        ReadDelivers(img, fds, seen, fd, nbytes);
      }
    case Close(fd) =>
  }

  ghost function RunCalls(img: Image, fds: seq<Fd>, seen: seq<Stream>, calls: seq<Call>): (seq<Fd>, seq<Stream>)
    requires WellFormed(img) && Delivered(img, fds, seen)
    decreases |calls|
  {
    if calls == [] then (fds, seen)
    else
      CallDelivers(img, fds, seen, calls[0]);
      var (after, view) := CallStep(img, fds, seen, calls[0]);
      RunCalls(img, after, view, calls[1..])
  }

  lemma {:induction false} RunKeeps(img: Image, fds: seq<Fd>, seen: seq<Stream>, calls: seq<Call>)
    requires WellFormed(img) && Delivered(img, fds, seen)
    ensures var (after, view) := RunCalls(img, fds, seen, calls); Delivered(img, after, view)
    decreases |calls|
  {
    if calls == [] {
    } else {
      CallDelivers(img, fds, seen, calls[0]);
      var (after, view) := CallStep(img, fds, seen, calls[0]);
      RunKeeps(img, after, view, calls[1..]);
    }
  }

  /** Descriptor independence: from a new process's table, after any interleaving of opens, reads of any sizes and
    * closes, the bytes returned on each open file's descriptor are, joined, the start of the file it was opened by
    * name on, up to its position, whatever the other descriptors did. */
  lemma RunDelivers(img: Image, seen: seq<Stream>, calls: seq<Call>)
    requires WellFormed(img) && |seen| == MAX_FILES
    ensures Delivered(img, ProcessModel.InitialFds(), seen)
    ensures var (fds, view) := RunCalls(img, ProcessModel.InitialFds(), seen, calls); Delivered(img, fds, view)
  {
    RunKeeps(img, ProcessModel.InitialFds(), seen, calls);
  }

  lemma LowestFreeIs(fds: seq<Fd>, n: nat)
    requires n <= |fds| && (n < |fds| ==> !fds[n].inUse) && forall i :: 0 <= i < n ==> fds[i].inUse
    ensures LowestFree(fds) == n
  {}

  /** Open takes the first directory entry that agrees with the name and the lowest free descriptor, and gives it the
    * operations of the entry's type, if it is one of the three, and position 0. */
  lemma OpenExactly(img: Image, fds: seq<Fd>, fname: seq<byte>, i: nat, fd: nat)
    requires i < |img.dentries| && Matches(img, fname, i) && NoneBefore(img, fname, 0, i) && Name(fname, |fname|) != []
    requires fd < |fds| && !fds[fd].inUse && forall j :: 0 <= j < fd ==> fds[j].inUse
    ensures var entry, after := img.dentries[i], OpenStep(img, fds, fname);
      && (entry.fileType == 0 ==> after == (fds[fd := ProcessModel.Fd(ProcessModel.RtcOps, 0, 0, true)], fd))
      && (entry.fileType == 1 ==> after == (fds[fd := ProcessModel.Fd(ProcessModel.DirOps, 0, 0, true)], fd))
      && (entry.fileType == 2 ==>
            after == (fds[fd := ProcessModel.Fd(ProcessModel.FileOps, entry.inode, 0, true)], fd))
      && (entry.fileType > 2 ==> after == (fds[fd := fds[fd].(position := 0, inUse := true)], fd))
  {
    LookupIsFirst(img, fname, 0);
    LowestFreeIs(fds, fd);
  }

  /** It fails, and then changes nothing, exactly when the name is empty, no entry agrees with it, or every
    * descriptor is in use. */
  lemma OpenRefusesExactly(img: Image, fds: seq<Fd>, fname: seq<byte>)
    ensures OpenStep(img, fds, fname).1 == -1 <==>
      Name(fname, |fname|) == [] || (forall i :: 0 <= i < |img.dentries| ==> !Matches(img, fname, i)) ||
        (forall j :: 0 <= j < |fds| ==> fds[j].inUse)
    ensures OpenStep(img, fds, fname).1 == -1 ==> OpenStep(img, fds, fname).0 == fds
  {
    LookupIsFirst(img, fname, 0);
    var fd := LowestFree(fds);
  }

  /** Close frees an open descriptor from 2 on and nothing else; whatever else it is given it refuses, a descriptor
    * closed already included. */
  lemma CloseExactly(fds: seq<Fd>, fd: int)
    ensures var (after, r) := CloseStep(fds, fd);
      && (r == 0 <==> 2 <= fd < |fds| && fds[fd].inUse) && (r == 0 || r == -1)
      && (r == 0 ==> after == fds[fd := fds[fd].(inUse := false)])
      && (r != 0 ==> after == fds)
      && CloseStep(after, fd) == (after, -1)
  {}

  lemma NeverEntersBadBlock(img: Image, inode: nat, offset: nat, length: nat)
    requires WellFormed(img) && inode < |img.inodes| && offset < img.inodes[inode].dataLen
    ensures GoodBlock(img, img.inodes[inode], offset / BLOCK_SIZE)
    ensures !EntersBadBlock(img, img.inodes[inode], offset, Reach(img.inodes[inode], offset, length))
  {}

  // ----- the calls as the kernel makes them -----

  class Table {
    const image: Image
    const fds: array<Fd>

    // Descriptors 0 and 1 are never closed, and every descriptor served by f_read has a real inode.
    ghost predicate Valid()
      reads this, fds
    {
      && WellFormed(image) && fds.Length == MAX_FILES && fds[0].inUse && fds[1].inUse
      && (forall i :: 0 <= i < MAX_FILES && fds[i].ops == ProcessModel.FileOps ==> fds[i].inode < |image.inodes|)
    }

    constructor (image: Image)
      requires WellFormed(image)
      ensures Valid() && fresh(fds) && this.image == image && fds[..] == ProcessModel.InitialFds()
    {
      this.image := image;
      var start := ProcessModel.InitialFds();
      fds := new Fd[MAX_FILES](i requires 0 <= i < MAX_FILES => start[i]);
    }

    // The part of open that fills the descriptor it found.
    method Claim(i: nat, dentry: Dentry)
      requires Valid() && i < MAX_FILES && (dentry.fileType == 2 ==> dentry.inode < |image.inodes|)
      modifies fds
      ensures Valid()
      ensures fds[..] == old(fds[..])[i := Opened(old(fds[i]), dentry)]
    {
      if dentry.fileType == 0 {
        fds[i] := fds[i].(ops := ProcessModel.RtcOps, inode := 0);
      } else if dentry.fileType == 1 {
        fds[i] := fds[i].(ops := ProcessModel.DirOps, inode := 0);
      } else if dentry.fileType == 2 {
        fds[i] := fds[i].(ops := ProcessModel.FileOps, inode := dentry.inode);
      }
      fds[i] := fds[i].(inUse := true);
      fds[i] := fds[i].(position := 0);
    }

    method Open(fname: seq<byte>) returns (r: int)
      requires Valid() && NUL in fname
      modifies fds
      ensures Valid()
      ensures (fds[..], r) == OpenStep(image, old(fds[..]), fname)
    {
      var length := Strlen(fname);
      if length == 0 {
        return -1;
      }
      var found, dentry := ReadDentryByName(image, fname);
      if found == -1 {
        return -1;
      }
      LookupIn(image, fname, 0);
      var i: nat := 0;
      while i < MAX_FILES
        invariant i <= MAX_FILES
        invariant fds[..] == old(fds[..]) && forall j :: 0 <= j < i ==> fds[j].inUse
      {
        if !fds[i].inUse {
          LowestFreeIs(fds[..], i);
          Claim(i, dentry);
          return i;
        }
        i := i + 1;
      }
      LowestFreeIs(fds[..], i);
      r := -1;
    }

    // f_read into buf[at..]
    method FileRead(fd: nat, buf: array<byte>, at: nat, nbytes: nat) returns (r: int)
      requires Valid() && fd < MAX_FILES && at + nbytes <= buf.Length && fds[fd].ops == ProcessModel.FileOps
      modifies fds, buf
      ensures Valid()
      ensures var bytes := Taken(Contents(image, image.inodes[old(fds[fd].inode)]), old(fds[fd].position), nbytes);
        && r == |bytes| <= nbytes
        && buf[..] == old(buf[..at]) + bytes + old(buf[at + |bytes|..])
        && fds[..] == old(fds[..])[fd := old(fds[fd]).(position := old(fds[fd].position) + |bytes|)]
    {
      var node := image.inodes[fds[fd].inode];
      if fds[fd].position >= node.dataLen {
        return 0;
      }
      NeverEntersBadBlock(image, fds[fd].inode, fds[fd].position, nbytes);
      var bytesRead := ReadData(image, fds[fd].inode, fds[fd].position, buf, at, nbytes);
      if bytesRead == -1 {
        return 0;
      }
      fds[fd] := fds[fd].(position := fds[fd].position + bytesRead);
      r := bytesRead;
    }

    method Read(fd: int, buf: array<byte>, at: nat, nbytes: int) returns (r: int)
      requires Valid() && at <= buf.Length && at + nbytes <= buf.Length
      // descriptors served by the terminal, the directory and the clock are not part of this model
      requires 0 <= fd < MAX_FILES && fd != 1 && fds[fd].inUse ==> fds[fd].ops == ProcessModel.FileOps
      modifies fds, buf
      ensures Valid()
      ensures var (after, result, bytes) := ReadStep(image, old(fds[..]), fd, nbytes);
        && fds[..] == after && r == result && at + |bytes| <= buf.Length
        && buf[..] == old(buf[..at]) + bytes + old(buf[at + |bytes|..])
    {
      if fd < 0 || nbytes < 0 || fd > 7 || fd == 1 {
        return -1;
      }
      if !fds[fd].inUse {
        return -1;
      }
      r := FileRead(fd, buf, at, nbytes);
    }

    method Close(fd: int) returns (r: int)
      requires Valid() && fd != MAX_FILES
      modifies fds
      ensures Valid()
      ensures (fds[..], r) == CloseStep(old(fds[..]), fd)
    {
      if fd < FIRST_USER_FD || fd > MAX_FILES {
        return -1;
      }
      if fds[fd].inUse {
        fds[fd] := fds[fd].(inUse := false);
        return 0;
      }
      r := -1;
    }
  }

  // ----- cat -----

  const NOT_FOUND: seq<byte> := [102, 105, 108, 101, 32, 110, 111, 116, 32, 102, 111, 117, 110, 100, 10]

  lemma NextSlice(out: seq<byte>, contents: seq<byte>, at: nat, length: nat)
    requires at <= |contents|
    ensures var taken := Taken(contents, at, length);
      at + |taken| <= |contents| && out + contents[..at] + taken == out + contents[..at + |taken|]
  {}

  // The loop of cat, on a descriptor at the start of a regular file.
  method CopyOut(table: Table, fd: nat, out: seq<byte>) returns (r: int, written: seq<byte>)
    requires table.Valid() && fd < MAX_FILES && fd != 1
    requires table.fds[fd].inUse && table.fds[fd].ops == ProcessModel.FileOps && table.fds[fd].position == 0
    modifies table.fds
    ensures r == 0 && written == out + Contents(table.image, table.image.inodes[old(table.fds[fd].inode)])
  {
    hide Contents;
    written := out;
    ghost var contents := Contents(table.image, table.image.inodes[table.fds[fd].inode]);
    ghost var inode := table.fds[fd].inode;
    var buf := new byte[1024];
    assert contents[..0] == [];
    while true
      invariant table.Valid() && fresh(buf)
      invariant table.fds[fd].inUse && table.fds[fd].ops == ProcessModel.FileOps && table.fds[fd].inode == inode
      invariant table.fds[fd].position <= |contents| && written == out + contents[..table.fds[fd].position]
      decreases |contents| - table.fds[fd].position
    {
      ghost var before := table.fds[fd].position;
      var cnt := table.Read(fd, buf, 0, 1024);
      if cnt == 0 {
        break;
      }
      if cnt == -1 {
        return 3, written;
      }
      NextSlice(out, contents, before, 1024);
      written := written + buf[..cnt];
    }
    assert contents[..|contents|] == contents;
    r := 0;
  }

  /** cat terminates and, when the name is that of a regular file, writes exactly the file. */
  method Cat(table: Table, fname: seq<byte>, out: seq<byte>) returns (r: int, written: seq<byte>)
    requires table.Valid() && NUL in fname && table.fds[..] == ProcessModel.InitialFds()
    requires var found := Lookup(table.image, fname, 0); found.Some? ==> found.value.fileType == 2
    modifies table.fds
    ensures var found := Lookup(table.image, fname, 0);
      if Name(fname, |fname|) == [] || found == None then
        r == 2 && written == out + NOT_FOUND
      else
        && found.value.inode < |table.image.inodes|
        && r == 0 && written == out + Contents(table.image, table.image.inodes[found.value.inode])
  {
    var fd := table.Open(fname);
    LowestFreeIs(ProcessModel.InitialFds(), 2);
    if fd == -1 {
      return 2, out + NOT_FOUND;
    }
    LookupIn(table.image, fname, 0);
    r, written := CopyOut(table, fd, out);
  }
}
