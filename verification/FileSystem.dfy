/** The read-only file system of student-distrib/file_system.c: directory lookup by name and the block-indexed
  * `read_data`. */
module FileSystem {
  import opened Basics
  import opened Bytes
  import opened CStrings

  const BLOCK_SIZE := 4096
  const INODE_BLOCK_NUMS := 1023
  const DENTRY_NUMS := 63
  const FILE_NAME_SIZE := 32

  datatype Inode = Inode(dataLen: nat, blockNums: seq<nat>)
  datatype Dentry = Dentry(fileName: seq<byte>, fileType: nat, inode: nat)
  datatype Image = Image(dentries: seq<Dentry>, inodes: seq<Inode>, blocks: seq<seq<byte>>)

  ghost predicate InodeShaped(node: Inode) {
    |node.blockNums| == INODE_BLOCK_NUMS && node.dataLen <= INODE_BLOCK_NUMS * BLOCK_SIZE
  }

  // The fixed sizes of the on-disk structures; says nothing about the block numbers.
  ghost predicate Shaped(img: Image) {
    && |img.dentries| == DENTRY_NUMS
    && (forall i :: 0 <= i < DENTRY_NUMS ==> |img.dentries[i].fileName| == FILE_NAME_SIZE)
    && (forall i :: 0 <= i < |img.inodes| ==> InodeShaped(img.inodes[i]))
    && (forall i :: 0 <= i < |img.blocks| ==> |img.blocks[i]| == BLOCK_SIZE)
  }

  predicate GoodBlock(img: Image, node: Inode, k: nat) {
    k < |node.blockNums| && node.blockNums[k] < |img.blocks|
  }

  // Every block a file uses exists, and directory entries are of the three known types.
  ghost predicate WellFormed(img: Image) {
    && Shaped(img)
    && (forall i, k :: 0 <= i < |img.inodes| && 0 <= k && k * BLOCK_SIZE < img.inodes[i].dataLen ==>
          GoodBlock(img, img.inodes[i], k))
    && (forall i :: 0 <= i < DENTRY_NUMS ==> img.dentries[i].fileType <= 2)
    && (forall i :: 0 <= i < DENTRY_NUMS && img.dentries[i].fileType == 2 ==> img.dentries[i].inode < |img.inodes|)
  }

  // ----- the contents of a file -----

  // Byte i of a file, found through its block list; 0 where the list leads outside the data blocks.
  function ByteAt(img: Image, node: Inode, i: nat): byte {
    var k, j := i / BLOCK_SIZE, i % BLOCK_SIZE;
    if k < |node.blockNums| && node.blockNums[k] < |img.blocks| && j < |img.blocks[node.blockNums[k]]|
    then img.blocks[node.blockNums[k]][j]
    else 0
  }

  function Contents(img: Image, node: Inode): (bytes: seq<byte>)
    ensures |bytes| == node.dataLen
  {
    seq(node.dataLen, i requires 0 <= i => ByteAt(img, node, i))
  }

  // The first n blocks of a file, one after the other.
  function Blocks(img: Image, node: Inode, n: nat): seq<byte>
    requires forall k :: 0 <= k < n ==> GoodBlock(img, node, k)
  {
    if n == 0 then []
    else
      assert GoodBlock(img, node, n - 1);
      Blocks(img, node, n - 1) + img.blocks[node.blockNums[n - 1]]
  }

  lemma {:induction false} BlocksIndex(img: Image, node: Inode, n: nat)
    requires Shaped(img) && forall k :: 0 <= k < n ==> GoodBlock(img, node, k)
    ensures |Blocks(img, node, n)| == n * BLOCK_SIZE
    ensures forall i :: 0 <= i < n * BLOCK_SIZE ==> Blocks(img, node, n)[i] == ByteAt(img, node, i)
  {
    if n == 0 {
    } else {
      BlocksIndex(img, node, n - 1);
      assert GoodBlock(img, node, n - 1);
      forall i | 0 <= i < n * BLOCK_SIZE ensures Blocks(img, node, n)[i] == ByteAt(img, node, i) {
        if i >= (n - 1) * BLOCK_SIZE {
          assert i / BLOCK_SIZE == n - 1 && i % BLOCK_SIZE == i - (n - 1) * BLOCK_SIZE;
        }
      }
    }
  }

  /** In a well-formed image a file is its blocks, concatenated and cut at its length. */
  lemma ContentsAreBlocks(img: Image, inode: nat, n: nat)
    requires WellFormed(img) && inode < |img.inodes|
    requires n == (img.inodes[inode].dataLen + BLOCK_SIZE - 1) / BLOCK_SIZE
    ensures forall k :: 0 <= k < n ==> GoodBlock(img, img.inodes[inode], k)
    ensures var node := img.inodes[inode];
      |Blocks(img, node, n)| >= node.dataLen && Contents(img, node) == Blocks(img, node, n)[..node.dataLen]
  {
    BlocksIndex(img, img.inodes[inode], n);
  }

  // ----- reading -----

  // How many bytes a read of `length` at `offset` reaches.
  function Reach(node: Inode, offset: nat, length: nat): nat {
    if offset >= node.dataLen then 0 else Min(length, node.dataLen - offset)
  }

  // The bytes from `offset` on, at most `length` of them.
  function Taken(bytes: seq<byte>, offset: nat, length: nat): seq<byte> {
    if offset >= |bytes| then [] else bytes[offset..offset + Min(length, |bytes| - offset)]
  }

  lemma TakenIndex(img: Image, node: Inode, offset: nat, length: nat)
    ensures |Taken(Contents(img, node), offset, length)| == Reach(node, offset, length)
    ensures forall i :: 0 <= i < Reach(node, offset, length) ==>
      Taken(Contents(img, node), offset, length)[i] == ByteAt(img, node, offset + i)
  {}

  lemma ByteFound(img: Image, node: Inode, block: nat, index: nat)
    requires GoodBlock(img, node, block) && index < BLOCK_SIZE == |img.blocks[node.blockNums[block]]|
    ensures ByteAt(img, node, block * BLOCK_SIZE + index) == img.blocks[node.blockNums[block]][index]
  {}

  // Some block that the read enters after its first one does not exist.
  ghost predicate EntersBadBlock(img: Image, node: Inode, offset: nat, n: nat) {
    exists k: nat :: offset / BLOCK_SIZE < k && k * BLOCK_SIZE < offset + n && !GoodBlock(img, node, k)
  }

  /** A read is a slice of the file: it returns min(length, dataLen - offset) and puts exactly those bytes of the
    * file in the buffer, touching nothing else; it fails only for a bad inode or on entering a block that does not
    * exist. */
  method ReadData(img: Image, inode: nat, offset: nat, buf: array<byte>, at: nat, length: nat) returns (r: int)
    requires Shaped(img) && at + length <= buf.Length
    // the first block is looked up without a check
    requires inode < |img.inodes| && offset < img.inodes[inode].dataLen ==>
      GoodBlock(img, img.inodes[inode], offset / BLOCK_SIZE)
    modifies buf
    ensures inode >= |img.inodes| ==> r == -1 && buf[..] == old(buf[..])
    ensures inode < |img.inodes| ==>
      var node := img.inodes[inode];
      var n := Reach(node, offset, length);
      && (r == -1 <==> EntersBadBlock(img, node, offset, n))
      && (r != -1 ==> r == n && buf[at..at + n] == Taken(Contents(img, node), offset, length))
      && (forall k :: 0 <= k < buf.Length && !(at <= k < at + n) ==> buf[k] == old(buf[k]))
  {
    if inode >= |img.inodes| {
      return -1;
    }
    var node := img.inodes[inode];
    assert InodeShaped(node) && forall b :: 0 <= b < |img.blocks| ==> |img.blocks[b]| == BLOCK_SIZE;
    hide Shaped, ByteAt, Contents;
    var blockIndex: nat, byteIndex: nat := offset / BLOCK_SIZE, offset % BLOCK_SIZE;
    var totalBytesRead: nat, bytesToRead := 0, length;
    if offset >= node.dataLen {
      return 0;
    }
    var i: nat := 0;
    while i < length
      invariant i == totalBytesRead <= Reach(node, offset, length)
      invariant blockIndex * BLOCK_SIZE + byteIndex == offset + i && byteIndex <= BLOCK_SIZE
      invariant forall k: nat :: offset / BLOCK_SIZE <= k <= blockIndex ==> GoodBlock(img, node, k)
      invariant forall j :: at <= j < at + i ==> buf[j] == ByteAt(img, node, offset + (j - at))
      invariant forall k :: 0 <= k < buf.Length && !(at <= k < at + i) ==> buf[k] == old(buf[k])
    {
      if totalBytesRead >= bytesToRead {
        break;
      }
      if offset + i >= node.dataLen {
        break;
      }
      if byteIndex >= BLOCK_SIZE {
        byteIndex := 0;
        blockIndex := blockIndex + 1;
        if node.blockNums[blockIndex] >= |img.blocks| {
          assert !GoodBlock(img, node, blockIndex);
          return -1;
        }
      }
      assert GoodBlock(img, node, blockIndex);
      var dataBlock := node.blockNums[blockIndex];
      ByteFound(img, node, blockIndex, byteIndex);
      buf[at + i] := img.blocks[dataBlock][byteIndex];
      totalBytesRead := totalBytesRead + 1;
      byteIndex := byteIndex + 1;
      i := i + 1;
    }
    r := totalBytesRead;
    TakenIndex(img, node, offset, length);
    assert buf[at..at + i] == Taken(Contents(img, node), offset, length);
  }

  // ----- names -----

  ghost predicate Matches(img: Image, fname: seq<byte>, i: nat)
    requires i < |img.dentries|
  {
    Name(img.dentries[i].fileName, FILE_NAME_SIZE) == Name(fname, FILE_NAME_SIZE)
  }

  // The first matching entry from index `from` on.
  ghost function Lookup(img: Image, fname: seq<byte>, from: nat): Option<Dentry>
    decreases |img.dentries| - from
  {
    if from >= |img.dentries| then None
    else if Matches(img, fname, from) then Some(img.dentries[from])
    else Lookup(img, fname, from + 1)
  }

  ghost predicate NoneBefore(img: Image, fname: seq<byte>, from: nat, i: nat)
    requires i <= |img.dentries|
  {
    forall j :: from <= j < i ==> !Matches(img, fname, j)
  }

  /** A name is found exactly when some entry agrees with it on 32 characters, and then the first such entry is
    * taken. */
  lemma {:induction false} LookupIsFirst(img: Image, fname: seq<byte>, from: nat)
    requires from <= |img.dentries|
    ensures Lookup(img, fname, from) == None <==> forall i :: from <= i < |img.dentries| ==> !Matches(img, fname, i)
    ensures forall i :: from <= i < |img.dentries| && Matches(img, fname, i) && NoneBefore(img, fname, from, i) ==>
      Lookup(img, fname, from) == Some(img.dentries[i])
    decreases |img.dentries| - from
  {
    if from >= |img.dentries| {
    } else {
      LookupIsFirst(img, fname, from + 1);
    }
  }

  method ReadDentryByName(img: Image, fname: seq<byte>) returns (r: int, dentry: Dentry)
    requires Shaped(img) && NUL in fname
    ensures r == 0 || r == -1
    ensures Lookup(img, fname, 0) == if r == 0 then Some(dentry) else None
  {
    dentry := Dentry([], 0, 0);
    var i: nat := 0;
    while i < DENTRY_NUMS
      invariant i <= DENTRY_NUMS
      invariant Lookup(img, fname, 0) == Lookup(img, fname, i)
    {
      var fileLength := Strlen(fname);
      var dentryLength := Strlen(img.dentries[i].fileName);
      if fileLength > FILE_NAME_SIZE { fileLength := FILE_NAME_SIZE; }
      if dentryLength > FILE_NAME_SIZE { dentryLength := FILE_NAME_SIZE; }
      NameLength(fname, FILE_NAME_SIZE);
      NameLength(img.dentries[i].fileName, FILE_NAME_SIZE);
      var differs := Strncmp(img.dentries[i].fileName, fname, FILE_NAME_SIZE);
      if fileLength == dentryLength && differs == 0 {
        return 0, img.dentries[i];
      }
      i := i + 1;
    }
    r := -1;
  }
}
