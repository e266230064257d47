/** A regular file that a user program has open: one descriptor of its table, as the program sees it. */
module UserCalls {
  import opened Basics
  import opened Bytes
  import opened Descriptors
  import opened FileSystem
  import ProcessModel

  // What the named file holds; nothing if there is no such file.
  ghost function Named(img: Image, fname: seq<byte>): seq<byte> {
    var found := Lookup(img, fname, 0);
    if found.Some? && found.value.inode < |img.inodes| then Contents(img, img.inodes[found.value.inode]) else []
  }

  ghost predicate RegularOrMissing(img: Image, fname: seq<byte>) {
    Lookup(img, fname, 0).Some? ==> Lookup(img, fname, 0).value.fileType == 2
  }

  // No descriptors but these two have changed.
  ghost predicate Kept(before: seq<Fd>, after: seq<Fd>, a: nat, b: nat) {
    |before| == |after| && forall i :: 0 <= i < |before| && i != a && i != b ==> after[i] == before[i]
  }

  lemma KeptSelf(fds: seq<Fd>, a: nat, b: nat)
    ensures Kept(fds, fds, a, b)
  {}

  lemma KeptOn(before: seq<Fd>, middle: seq<Fd>, after: seq<Fd>, a: nat, b: nat)
    requires Kept(before, middle, a, b) && Kept(middle, after, a, b)
    ensures Kept(before, after, a, b)
  {}

  lemma TakenIsPrefix(bytes: seq<byte>, pos: nat, n: nat)
    requires pos <= |bytes|
    ensures var taken := Taken(bytes, pos, n);
      |taken| == Min(n, |bytes[pos..]|) && taken == bytes[pos..][..|taken|] &&
        bytes[pos..][|taken|..] == bytes[pos + |taken|..]
  {}

  class OpenFile {
    const table: Table
    const fd: nat

    // The descriptor is a regular file's, open or closed again.
    ghost predicate Backed()
      reads table, table.fds
    {
      && table.Valid() && FIRST_USER_FD <= fd < MAX_FILES && table.fds[fd].ops == ProcessModel.FileOps
      && table.fds[fd].position <= |Contents(table.image, table.image.inodes[table.fds[fd].inode])|
    }

    ghost predicate Valid()
      reads table, table.fds
    {
      Backed() && table.fds[fd].inUse
    }

    // What is still to be read.
    ghost function Rest(): seq<byte>
      reads table, table.fds
    {
      if Backed() then Contents(table.image, table.image.inodes[table.fds[fd].inode])[table.fds[fd].position..] else []
    }

    constructor (table: Table, fd: nat)
      requires table.Valid() && FIRST_USER_FD <= fd < MAX_FILES
      requires table.fds[fd].inUse && table.fds[fd].ops == ProcessModel.FileOps && table.fds[fd].position == 0
      ensures this.table == table && this.fd == fd && Valid()
      ensures Rest() == Contents(table.image, table.image.inodes[table.fds[fd].inode])
    {
      this.table := table;
      this.fd := fd;
    }

    // Fills data[at..] with up to n bytes; at the end of the file it returns 0.
    method Read(data: array<byte>, at: nat, n: nat) returns (cnt: nat)
      requires Valid() && at + n <= data.Length
      modifies table.fds, data
      ensures Valid() && Kept(old(table.fds[..]), table.fds[..], fd, fd)
      ensures cnt == Min(n, |old(Rest())|)
      ensures Rest() == old(Rest())[cnt..]
      ensures data[..] == old(data[..at]) + old(Rest())[..cnt] + old(data[at + cnt..])
    {
      hide Contents;
      ghost var contents, pos := Contents(table.image, table.image.inodes[table.fds[fd].inode]), table.fds[fd].position;
      TakenIsPrefix(contents, pos, n);
      ghost var before := table.fds[..];
      cnt := table.Read(fd, data, at, n);
      assert table.fds[..] == before[fd := before[fd].(position := pos + cnt)];
      assert table.fds[fd] == table.fds[..][fd] && forall i :: 0 <= i < MAX_FILES ==> table.fds[i] == table.fds[..][i];
    }

    // Closing it once more changes nothing.
    method Close()
      requires Backed()
      modifies table.fds
      ensures Backed() && !table.fds[fd].inUse && Kept(old(table.fds[..]), table.fds[..], fd, fd) &&
        Rest() == old(Rest())
    {
      var closed := table.Close(fd);
    }
  }

  // Two descriptors of one table.
  ghost predicate Two(f: OpenFile, g: OpenFile)
    reads f.table, f.table.fds, g.table, g.table.fds
  {
    f.table == g.table && f.fd != g.fd && f.Backed() && g.Backed()
  }

  // Opens a regular file by name; null when there is none, or no descriptor is left.
  method OpenByName(table: Table, fname: seq<byte>) returns (file: OpenFile?)
    requires table.Valid() && NUL in fname && RegularOrMissing(table.image, fname)
    modifies table.fds
    ensures table.Valid()
    ensures file == null <==> OpenStep(table.image, old(table.fds[..]), fname).1 == -1
    ensures table.fds[..] == OpenStep(table.image, old(table.fds[..]), fname).0
    ensures file != null ==>
      && fresh(file) && file.table == table && file.Valid() &&
        Kept(old(table.fds[..]), table.fds[..], file.fd, file.fd) && !old(table.fds[..])[file.fd].inUse
      && file.Rest() == Named(table.image, fname)
  {
    var fd := table.Open(fname);
    if fd == -1 {
      return null;
    }
    LookupIn(table.image, fname, 0);
    file := new OpenFile(table, fd);
  }
}
