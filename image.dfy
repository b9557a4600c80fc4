/**
  The disk image as the file-system layer sees it, and the result of each
  operation of LocalFileSystem.cpp stated as a function of the image. The
  methods of LocalFs.LocalFileSystem are proved to compute exactly these.
*/
module Image {
  import opened Ufs
  import opened Blocks

  function SuperOf(blocks: seq<Block>): Super
    requires |blocks| > 0
  {
    DecodeSuper(blocks[0])
  }

  function NumInodes(blocks: seq<Block>): int
    requires |blocks| > 0
  {
    SuperOf(blocks).numInodes
  }

  /** A region of `len` blocks at `addr` lies inside a disk of `n` blocks. */
  predicate RegionOk(addr: int, len: int, n: nat)
  {
    0 <= addr && 0 <= len && addr + len <= n
  }

  /**
    The geometry the layer uses without checking it: the superblock's
    regions lie on the disk, and the inode region holds exactly num_inodes
    records, the size of the buffer each operation allocates for it.
  */
  predicate LayoutOk(blocks: seq<Block>)
  {
    && |blocks| > 0
    && var s := SuperOf(blocks);
    && RegionOk(s.inodeBitmapAddr, s.inodeBitmapLen, |blocks|)
    && RegionOk(s.dataBitmapAddr, s.dataBitmapLen, |blocks|)
    && RegionOk(s.inodeRegionAddr, s.inodeRegionLen, |blocks|)
    && 0 <= s.numInodes
    && s.inodeRegionLen * UFS_BLOCK_SIZE == s.numInodes * INODE_SIZE
  }

  /** The block indices of the inode region. */
  function InodeRegion(blocks: seq<Block>): (r: seq<nat>)
    requires LayoutOk(blocks)
    ensures PtrsIn(r, |blocks|) && Distinct(r, |r|)
    ensures |r| == SuperOf(blocks).inodeRegionLen
  {
    var s := SuperOf(blocks);
    RangeDistinct(s.inodeRegionAddr, s.inodeRegionLen);
    Range(s.inodeRegionAddr, s.inodeRegionLen)
  }

  /** The bytes of the inode region: the inode_t array. */
  function InodeTable(blocks: seq<Block>): (t: seq<byte>)
    requires LayoutOk(blocks)
    ensures |t| == NumInodes(blocks) * INODE_SIZE
  {
    Gather(blocks, InodeRegion(blocks))
  }

  /** Record n of the inode table. */
  function InodeOf(blocks: seq<Block>, n: int): (ino: Inode)
    requires LayoutOk(blocks) && 0 <= n < NumInodes(blocks)
    ensures |ino.direct| == DIRECT_PTRS
  {
    DecodeInode(InodeTable(blocks), n * INODE_SIZE)
  }

  /** Record n lies inside the inode table. */
  lemma RecordFits(blocks: seq<Block>, n: int)
    requires LayoutOk(blocks) && 0 <= n < NumInodes(blocks)
    ensures (n + 1) * INODE_SIZE <= |InodeTable(blocks)|
  {
  }

  /**
    A well-formed image: its layout holds and every direct pointer of every
    inode names a block of the disk (the layer reads and writes them as
    absolute block indices without checking).
  */
  predicate ImageOk(blocks: seq<Block>)
  {
    && LayoutOk(blocks)
    && forall n, k :: 0 <= n < NumInodes(blocks) && 0 <= k < DIRECT_PTRS ==>
         InodeOf(blocks, n).direct[k] < |blocks|
  }

  lemma DirectIn(blocks: seq<Block>, n: int)
    requires ImageOk(blocks) && 0 <= n < NumInodes(blocks)
    ensures PtrsIn(InodeOf(blocks, n).direct, |blocks|)
  {
  }

  predicate IsDirectory(blocks: seq<Block>, n: int)
    requires LayoutOk(blocks)
  {
    0 <= n < NumInodes(blocks) && InodeOf(blocks, n).fileType == UFS_DIRECTORY
  }

  // ---------------------------------------------------------------------
  // stat

  /**
    The range check of stat, read and write: it lets num_inodes itself
    through, one past the last record, which is why callers of those three
    operations must not pass it.
  */
  predicate OutOfRange(blocks: seq<Block>, n: int)
    requires |blocks| > 0
  {
    n < 0 || n > NumInodes(blocks)
  }

  /** The guard admits num_inodes although the table has no record there; lookup's does not. */
  lemma GuardAdmitsTableEnd(blocks: seq<Block>)
    requires LayoutOk(blocks)
    ensures !OutOfRange(blocks, NumInodes(blocks))
    ensures |InodeTable(blocks)| < (NumInodes(blocks) + 1) * INODE_SIZE
    ensures !IsDirectory(blocks, NumInodes(blocks))
  {
  }

  // ---------------------------------------------------------------------
  // read

  /** The number of leading non-zero direct pointers. */
  function LeadingBlocks(d: seq<nat>): (l: nat)
    ensures l <= |d|
    ensures forall i :: 0 <= i < l ==> d[i] != 0
    ensures l < |d| ==> d[l] == 0
  {
    if d == [] || d[0] == 0 then 0 else 1 + LeadingBlocks(d[1..])
  }

  predicate ReadableType(t: int)
  {
    t == UFS_DIRECTORY || t == UFS_REGULAR_FILE
  }

  /** What read returns: an error code, or the number of bytes copied. */
  function ReadResult(blocks: seq<Block>, n: int, size: int): (r: int)
    requires ImageOk(blocks) && n != NumInodes(blocks)
    ensures r < 0 ==> r == -EINVALIDINODE || r == -EINVALIDSIZE
    ensures r >= 0 ==> r <= size && (r == size || r % UFS_BLOCK_SIZE == 0)
  {
    if OutOfRange(blocks, n) then -EINVALIDINODE
    else if size < 0 || size > MAX_FILE_SIZE then -EINVALIDSIZE
    else if !ReadableType(InodeOf(blocks, n).fileType) then -EINVALIDINODE
    else Min(size, UFS_BLOCK_SIZE * LeadingBlocks(InodeOf(blocks, n).direct))
  }

  /** The bytes read copies to the front of the caller's buffer. */
  function ReadData(blocks: seq<Block>, n: int, size: int): (s: seq<byte>)
    requires ImageOk(blocks) && n != NumInodes(blocks)
    requires ReadResult(blocks, n, size) >= 0
    ensures |s| == ReadResult(blocks, n, size)
  {
    var d := InodeOf(blocks, n).direct;
    DirectIn(blocks, n);
    Gather(blocks, d[..LeadingBlocks(d)])[..ReadResult(blocks, n, size)]
  }

  /**
    The outcomes of read: an invalid-inode error for a bad number or a type
    that is neither directory nor regular file, an invalid-size error for a
    size outside [0, MAX_FILE_SIZE], and otherwise a count between 0 and
    size.
  */
  lemma ReadOutcomes(blocks: seq<Block>, n: int, size: int)
    requires ImageOk(blocks) && n != NumInodes(blocks)
    ensures var r := ReadResult(blocks, n, size);
      && (OutOfRange(blocks, n) ==> r == -EINVALIDINODE)
      && (!OutOfRange(blocks, n) && (size < 0 || size > MAX_FILE_SIZE) ==> r == -EINVALIDSIZE)
      && (!OutOfRange(blocks, n) && 0 <= size <= MAX_FILE_SIZE ==>
            if ReadableType(InodeOf(blocks, n).fileType) then 0 <= r <= size else r == -EINVALIDINODE)
  {
  }

  /**
    Byte k of what read copies is byte k % BS of block direct[k / BS], and
    that pointer is not zero.
  */
  lemma {:induction false} ReadDataAt(blocks: seq<Block>, n: int, size: int, k: nat)
    requires ImageOk(blocks) && n != NumInodes(blocks)
    requires k < ReadResult(blocks, n, size)
    ensures var d := InodeOf(blocks, n).direct;
      && k / UFS_BLOCK_SIZE < DIRECT_PTRS
      && d[k / UFS_BLOCK_SIZE] != 0
      && ReadData(blocks, n, size)[k] == blocks[d[k / UFS_BLOCK_SIZE]][k % UFS_BLOCK_SIZE]
  {
    var d := InodeOf(blocks, n).direct;
    DirectIn(blocks, n);
    var l := LeadingBlocks(d);
    assert PtrsIn(d[..l], |blocks|);
    GatherAt(blocks, d[..l], k);
  }

  /**
    read stops early only at the first zero pointer or after the last
    direct pointer: a short count is a whole number of blocks, every pointer
    before it is non-zero, and the next one is zero or does not exist.
  */
  lemma {:induction false} ReadStopsAtFirstHole(blocks: seq<Block>, n: int, size: int)
    requires ImageOk(blocks) && n != NumInodes(blocks)
    requires 0 <= ReadResult(blocks, n, size) < size
    ensures var r := ReadResult(blocks, n, size);
      var d := InodeOf(blocks, n).direct;
      && r % UFS_BLOCK_SIZE == 0
      && (forall i :: 0 <= i < r / UFS_BLOCK_SIZE ==> d[i] != 0)
      && (r / UFS_BLOCK_SIZE == DIRECT_PTRS || d[r / UFS_BLOCK_SIZE] == 0)
  {
    var d := InodeOf(blocks, n).direct;
    var l := LeadingBlocks(d);
    ChunkOffset(l, 0);
  }

  // ---------------------------------------------------------------------
  // lookup

  /** A slot that is in use and holds exactly `name`. */
  predicate Matches(e: DirEnt, name: seq<byte>)
  {
    e.inum != FREE_INUM && e.name == name
  }

  /** The index of the first slot at or after `from` that matches. */
  function FirstMatch(es: seq<DirEnt>, name: seq<byte>, from: nat): (r: Option<nat>)
    requires from <= |es|
    ensures r.Some? ==> from <= r.value < |es| && Matches(es[r.value], name)
    ensures r.Some? ==> forall i :: from <= i < r.value ==> !Matches(es[i], name)
    ensures r.None? ==> forall i :: from <= i < |es| ==> !Matches(es[i], name)
    decreases |es| - from
  {
    if from == |es| then None
    else if Matches(es[from], name) then Some(from)
    else FirstMatch(es, name, from + 1)
  }

  /** The entries of a block read as an array of dir_ent_t. */
  function BlockEntries(b: Block): (es: seq<DirEnt>)
    ensures |es| == ENTRIES_PER_BLOCK
  {
    DirEntries(b, ENTRIES_PER_BLOCK)
  }

  /**
    The entries lookup scans in a directory: those of the block read asks
    for first, direct[0], and none when that pointer is zero.
  */
  function ScannedEntries(blocks: seq<Block>, parent: int): seq<DirEnt>
    requires ImageOk(blocks) && 0 <= parent < NumInodes(blocks)
  {
    var d := InodeOf(blocks, parent).direct;
    if d[0] == 0 then [] else BlockEntries(blocks[d[0]])
  }

  /**
    Asked for BS bytes of a directory whose first pointer is not zero, read
    copies exactly the block direct[0].
  */
  lemma FirstBlockRead(blocks: seq<Block>, n: int)
    requires ImageOk(blocks) && IsDirectory(blocks, n) && InodeOf(blocks, n).direct[0] != 0
    ensures ReadResult(blocks, n, UFS_BLOCK_SIZE) == UFS_BLOCK_SIZE
    ensures ReadData(blocks, n, UFS_BLOCK_SIZE) == blocks[InodeOf(blocks, n).direct[0]]
  {
    var d := InodeOf(blocks, n).direct;
    assert LeadingBlocks(d) >= 1;
    forall k | 0 <= k < UFS_BLOCK_SIZE
      ensures ReadData(blocks, n, UFS_BLOCK_SIZE)[k] == blocks[d[0]][k]
    {
      ReadDataAt(blocks, n, UFS_BLOCK_SIZE, k);
    }
  }

  /** What lookup returns. */
  function LookupResult(blocks: seq<Block>, parent: int, name: seq<byte>): (r: int)
    requires ImageOk(blocks)
    ensures !IsDirectory(blocks, parent) ==> r == -EINVALIDINODE
    ensures IsDirectory(blocks, parent) && r != -ENOTFOUND ==>
      exists j :: 0 <= j < |ScannedEntries(blocks, parent)| && ScannedEntries(blocks, parent)[j].inum == r
  {
    if !IsDirectory(blocks, parent) then -EINVALIDINODE
    else
      var es := ScannedEntries(blocks, parent);
      match FirstMatch(es, name, 0)
      case Some(j) => es[j].inum
      case None => -ENOTFOUND
  }

  /**
    When direct[0] is not zero, lookup's answer is decided by the entries of
    that one block.
  */
  lemma LookupInFirstBlock(blocks: seq<Block>, parent: int, name: seq<byte>)
    requires ImageOk(blocks) && IsDirectory(blocks, parent) && InodeOf(blocks, parent).direct[0] != 0
    ensures var es := BlockEntries(blocks[InodeOf(blocks, parent).direct[0]]);
      LookupResult(blocks, parent, name)
        == match FirstMatch(es, name, 0)
           case Some(j) => es[j].inum
           case None => -ENOTFOUND
  {
  }

  /**
    The three outcomes of lookup: an invalid-inode error when the parent is
    not a directory in [0, num_inodes); else the inode number of the first
    scanned slot in use whose name is exactly `name`; else not-found.
  */
  lemma LookupOutcomes(blocks: seq<Block>, parent: int, name: seq<byte>)
    requires ImageOk(blocks)
    ensures !IsDirectory(blocks, parent) ==> LookupResult(blocks, parent, name) == -EINVALIDINODE
    ensures IsDirectory(blocks, parent) ==>
      var es := ScannedEntries(blocks, parent);
      if exists j :: 0 <= j < |es| && Matches(es[j], name) then
        exists j :: 0 <= j < |es| && Matches(es[j], name) && LookupResult(blocks, parent, name) == es[j].inum
      else LookupResult(blocks, parent, name) == -ENOTFOUND
  {
    if IsDirectory(blocks, parent) {
      var es := ScannedEntries(blocks, parent);
      var m := FirstMatch(es, name, 0);
      if m.Some? {
        assert Matches(es[m.value], name);
      }
    }
  }

  // ---------------------------------------------------------------------
  // write

  /** ceil(size / BS): the number of blocks `size` bytes occupy. */
  function Chunks(size: nat): (c: nat)
    ensures c * UFS_BLOCK_SIZE < size + UFS_BLOCK_SIZE
    ensures size <= c * UFS_BLOCK_SIZE
  {
    (size + UFS_BLOCK_SIZE - 1) / UFS_BLOCK_SIZE
  }

  /** What write returns. */
  function WriteResult(blocks: seq<Block>, n: int, size: int): (r: int)
    requires ImageOk(blocks) && n != NumInodes(blocks)
    ensures r < 0 ==> r == -EINVALIDINODE || r == -EINVALIDSIZE || r == -EINVALIDTYPE
    ensures r >= 0 ==> r == size <= MAX_FILE_SIZE
  {
    if OutOfRange(blocks, n) then -EINVALIDINODE
    else if size < 0 || size > MAX_FILE_SIZE then -EINVALIDSIZE
    else if InodeOf(blocks, n).fileType != UFS_REGULAR_FILE then -EINVALIDTYPE
    else size
  }

  /** The inode table after the store `inodes[n].size = x`. */
  function PatchSize(t: seq<byte>, n: nat, x: int): (t': seq<byte>)
    requires (n + 1) * INODE_SIZE <= |t|
    requires -0x8000_0000 <= x <= INT32_MAX
    ensures |t'| == |t|
  {
    t[..n * INODE_SIZE + 4] + EncodeI32(x) + t[n * INODE_SIZE + 8..]
  }

  /**
    The disk after a successful write of `data`: chunk c of the data goes
    to block direct[c] by read-modify-write, whatever that pointer is (zero
    included); then, if the file grew, the inode table read before the data
    writes is written back with the new size.
  */
  function WriteDisk(blocks: seq<Block>, n: int, data: seq<byte>): (r: seq<Block>)
    requires ImageOk(blocks) && n != NumInodes(blocks)
    requires WriteResult(blocks, n, |data|) >= 0
    ensures |r| == |blocks|
  {
    var ino := InodeOf(blocks, n);
    DirectIn(blocks, n);
    var chunks := Chunks(|data|);
    assert chunks <= DIRECT_PTRS;
    var written := Scatter(blocks, ino.direct, data, chunks);
    var region := InodeRegion(blocks);
    if |data| > ino.size then
      var t := InodeTable(blocks);
      RecordFits(blocks, n);
      assert |data| <= INT32_MAX;
      var patched := PatchSize(t, n, |data|);
      assert |patched| == |region| * UFS_BLOCK_SIZE;
      Scatter(written, region, patched, |region|)
    else written
  }

  /**
    The outcomes of write: the errors for a bad inode number, a size
    outside [0, MAX_FILE_SIZE] and a non-regular inode, in that order of
    precedence; otherwise it reports all `size` bytes written.
  */
  lemma WriteOutcomes(blocks: seq<Block>, n: int, size: int)
    requires ImageOk(blocks) && n != NumInodes(blocks)
    ensures var r := WriteResult(blocks, n, size);
      && (OutOfRange(blocks, n) ==> r == -EINVALIDINODE)
      && (!OutOfRange(blocks, n) && (size < 0 || size > MAX_FILE_SIZE) ==> r == -EINVALIDSIZE)
      && (!OutOfRange(blocks, n) && 0 <= size <= MAX_FILE_SIZE ==>
            r == if InodeOf(blocks, n).fileType == UFS_REGULAR_FILE then size else -EINVALIDTYPE)
  {
  }

  // ---------------------------------------------------------------------
  // create

  /**
    What the validation prefix of create returns. The directory's content
    is read only to detect a size over MAX_FILE_SIZE: the entries vector it
    is read into stays empty, so the scan for an existing name never runs.
  */
  function CreateResult(blocks: seq<Block>, parent: int, fileType: int, name: seq<byte>): (r: int)
    requires ImageOk(blocks)
    requires |name| <= DIR_ENT_NAME_SIZE ==> parent != NumInodes(blocks)
    ensures r == 0 || r == -EINVALIDNAME || r == -EINVALIDINODE || r == -ENOTENOUGHSPACE || r == -EINVALIDTYPE
    ensures r == 0 ==> |name| <= DIR_ENT_NAME_SIZE && (fileType == UFS_DIRECTORY || fileType == UFS_REGULAR_FILE)
  {
    if |name| > DIR_ENT_NAME_SIZE then -EINVALIDNAME
    else if OutOfRange(blocks, parent) || InodeOf(blocks, parent).fileType != UFS_DIRECTORY
         || InodeOf(blocks, parent).size <= 0 then -EINVALIDINODE
    else if ReadResult(blocks, parent, InodeOf(blocks, parent).size) < 0 then -ENOTENOUGHSPACE
    else if fileType != UFS_DIRECTORY && fileType != UFS_REGULAR_FILE then -EINVALIDTYPE
    else 0
  }

  /**
    create rejects a long name whatever the image holds, then a parent that
    is not a non-empty directory, then a directory larger than
    MAX_FILE_SIZE, then a type other than directory or regular file, and
    otherwise returns 0 without allocating anything.
  */
  lemma CreateOutcomes(blocks: seq<Block>, parent: int, fileType: int, name: seq<byte>)
    requires ImageOk(blocks)
    requires |name| <= DIR_ENT_NAME_SIZE ==> parent != NumInodes(blocks)
    ensures var r := CreateResult(blocks, parent, fileType, name);
      && (|name| > DIR_ENT_NAME_SIZE <==> r == -EINVALIDNAME)
      && ((|name| <= DIR_ENT_NAME_SIZE && !(IsDirectory(blocks, parent) && InodeOf(blocks, parent).size > 0))
            ==> r == -EINVALIDINODE)
      && (|name| <= DIR_ENT_NAME_SIZE && IsDirectory(blocks, parent)
          && 0 < InodeOf(blocks, parent).size <= MAX_FILE_SIZE ==>
            r == if ReadableType(fileType) then 0 else -EINVALIDTYPE)
      && ((|name| <= DIR_ENT_NAME_SIZE && IsDirectory(blocks, parent)
           && InodeOf(blocks, parent).size > MAX_FILE_SIZE) ==> r == -ENOTENOUGHSPACE)
  {
  }
}
