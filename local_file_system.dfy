/**
  LocalFileSystem: the file-system layer over a Disk. Every operation
  reads the superblock and the inode table afresh, so the object keeps no
  state of its own besides the disk; each method is proved to compute the
  function of the disk image that Image states for it.
*/
module LocalFs {
  import opened Ufs
  import opened Blocks
  import opened Image
  import opened BlockDevice

  class LocalFileSystem {
    const disk: Disk

    constructor(disk: Disk)
      ensures this.disk == disk
    {
      this.disk := disk;
    }

    /** Copies the super_t record at the start of block 0. */
    method ReadSuperBlock() returns (super: Super)
      requires |disk.blocks| > 0
      ensures super == SuperOf(disk.blocks)
    {
      var superBlock := new byte[UFS_BLOCK_SIZE];
      disk.ReadBlock(0, superBlock, 0);
      assert superBlock[..] == superBlock[0..UFS_BLOCK_SIZE];
      super := DecodeSuper(superBlock[..]);
    }

    // -------------------------------------------------------------------
    // Regions: the six read/write helpers share these two loops.

    /** Reads blocks addr .. addr+len-1 into buffer, block i at byte i * BS. */
    method ReadRegion(addr: int, len: int, buffer: array<byte>)
      requires RegionOk(addr, len, |disk.blocks|) && len * UFS_BLOCK_SIZE <= buffer.Length
      modifies buffer
      ensures buffer[..len * UFS_BLOCK_SIZE] == Gather(disk.blocks, Range(addr, len))
      ensures buffer[len * UFS_BLOCK_SIZE..] == old(buffer[len * UFS_BLOCK_SIZE..])
    {
      var i := 0;
      while i < len
        invariant 0 <= i <= len
        invariant buffer[..i * UFS_BLOCK_SIZE] == Gather(disk.blocks, Range(addr, i))
        invariant buffer[len * UFS_BLOCK_SIZE..] == old(buffer[len * UFS_BLOCK_SIZE..])
      {
        ghost var before := buffer[..];
        disk.ReadBlock(addr + i, buffer, i * UFS_BLOCK_SIZE);
        assert buffer[..i * UFS_BLOCK_SIZE] == before[..i * UFS_BLOCK_SIZE];
        assert buffer[..(i + 1) * UFS_BLOCK_SIZE]
            == buffer[..i * UFS_BLOCK_SIZE] + buffer[i * UFS_BLOCK_SIZE..(i + 1) * UFS_BLOCK_SIZE];
        assert Range(addr, i + 1) == Range(addr, i) + [addr + i];
        assert Range(addr, i + 1)[..i] == Range(addr, i);
        assert buffer[len * UFS_BLOCK_SIZE..] == before[len * UFS_BLOCK_SIZE..];
        i := i + 1;
      }
    }

    /**
      Writes buffer to blocks addr .. addr+len-1, block i from byte i * BS:
      those blocks now hold the buffer and every other block is unchanged.
    */
    method WriteRegion(addr: int, len: int, buffer: array<byte>)
      requires RegionOk(addr, len, |disk.blocks|) && len * UFS_BLOCK_SIZE <= buffer.Length
      modifies disk
      ensures disk.blocks == Scatter(old(disk.blocks), Range(addr, len), buffer[..len * UFS_BLOCK_SIZE], len)
      ensures forall b :: 0 <= b < |disk.blocks| ==>
        disk.blocks[b] == if addr <= b < addr + len
                          then buffer[(b - addr) * UFS_BLOCK_SIZE..(b - addr + 1) * UFS_BLOCK_SIZE]
                          else old(disk.blocks[b])
    {
      ghost var data := buffer[..len * UFS_BLOCK_SIZE];
      var i := 0;
      while i < len
        invariant 0 <= i <= len
        invariant disk.blocks == Scatter(old(disk.blocks), Range(addr, len), data, i)
      {
        ghost var chunk := data[i * UFS_BLOCK_SIZE..Min((i + 1) * UFS_BLOCK_SIZE, |data|)];
        assert chunk == buffer[i * UFS_BLOCK_SIZE..(i + 1) * UFS_BLOCK_SIZE];
        assert chunk + disk.blocks[addr + i][|chunk|..] == chunk;
        assert Range(addr, len)[i] == addr + i;
        disk.WriteBlock(addr + i, buffer, i * UFS_BLOCK_SIZE);
        i := i + 1;
      }
      RegionContents(old(disk.blocks), addr, len, data);
    }

    method ReadInodeBitmap(super: Super, inodeBitmap: array<byte>)
      requires RegionOk(super.inodeBitmapAddr, super.inodeBitmapLen, |disk.blocks|)
      requires super.inodeBitmapLen * UFS_BLOCK_SIZE <= inodeBitmap.Length
      modifies inodeBitmap
      ensures inodeBitmap[..super.inodeBitmapLen * UFS_BLOCK_SIZE]
           == Gather(disk.blocks, Range(super.inodeBitmapAddr, super.inodeBitmapLen))
      ensures inodeBitmap[super.inodeBitmapLen * UFS_BLOCK_SIZE..]
           == old(inodeBitmap[super.inodeBitmapLen * UFS_BLOCK_SIZE..])
    {
      ReadRegion(super.inodeBitmapAddr, super.inodeBitmapLen, inodeBitmap);
    }

    method WriteInodeBitmap(super: Super, inodeBitmap: array<byte>)
      requires RegionOk(super.inodeBitmapAddr, super.inodeBitmapLen, |disk.blocks|)
      requires super.inodeBitmapLen * UFS_BLOCK_SIZE <= inodeBitmap.Length
      modifies disk
      ensures |disk.blocks| == |old(disk.blocks)|
      ensures forall b :: 0 <= b < |disk.blocks| ==>
        disk.blocks[b] == if super.inodeBitmapAddr <= b < super.inodeBitmapAddr + super.inodeBitmapLen
                          then inodeBitmap[(b - super.inodeBitmapAddr) * UFS_BLOCK_SIZE
                                           ..(b - super.inodeBitmapAddr + 1) * UFS_BLOCK_SIZE]
                          else old(disk.blocks[b])
    {
      WriteRegion(super.inodeBitmapAddr, super.inodeBitmapLen, inodeBitmap);
    }

    method ReadDataBitmap(super: Super, dataBitmap: array<byte>)
      requires RegionOk(super.dataBitmapAddr, super.dataBitmapLen, |disk.blocks|)
      requires super.dataBitmapLen * UFS_BLOCK_SIZE <= dataBitmap.Length
      modifies dataBitmap
      ensures dataBitmap[..super.dataBitmapLen * UFS_BLOCK_SIZE]
           == Gather(disk.blocks, Range(super.dataBitmapAddr, super.dataBitmapLen))
      ensures dataBitmap[super.dataBitmapLen * UFS_BLOCK_SIZE..]
           == old(dataBitmap[super.dataBitmapLen * UFS_BLOCK_SIZE..])
    {
      ReadRegion(super.dataBitmapAddr, super.dataBitmapLen, dataBitmap);
    }

    method WriteDataBitmap(super: Super, dataBitmap: array<byte>)
      requires RegionOk(super.dataBitmapAddr, super.dataBitmapLen, |disk.blocks|)
      requires super.dataBitmapLen * UFS_BLOCK_SIZE <= dataBitmap.Length
      modifies disk
      ensures |disk.blocks| == |old(disk.blocks)|
      ensures forall b :: 0 <= b < |disk.blocks| ==>
        disk.blocks[b] == if super.dataBitmapAddr <= b < super.dataBitmapAddr + super.dataBitmapLen
                          then dataBitmap[(b - super.dataBitmapAddr) * UFS_BLOCK_SIZE
                                          ..(b - super.dataBitmapAddr + 1) * UFS_BLOCK_SIZE]
                          else old(disk.blocks[b])
    {
      WriteRegion(super.dataBitmapAddr, super.dataBitmapLen, dataBitmap);
    }

    method ReadInodeRegion(super: Super, inodes: array<byte>)
      requires RegionOk(super.inodeRegionAddr, super.inodeRegionLen, |disk.blocks|)
      requires super.inodeRegionLen * UFS_BLOCK_SIZE <= inodes.Length
      modifies inodes
      ensures inodes[..super.inodeRegionLen * UFS_BLOCK_SIZE]
           == Gather(disk.blocks, Range(super.inodeRegionAddr, super.inodeRegionLen))
      ensures inodes[super.inodeRegionLen * UFS_BLOCK_SIZE..]
           == old(inodes[super.inodeRegionLen * UFS_BLOCK_SIZE..])
    {
      ReadRegion(super.inodeRegionAddr, super.inodeRegionLen, inodes);
    }

    method WriteInodeRegion(super: Super, inodes: array<byte>)
      requires RegionOk(super.inodeRegionAddr, super.inodeRegionLen, |disk.blocks|)
      requires super.inodeRegionLen * UFS_BLOCK_SIZE <= inodes.Length
      modifies disk
      ensures disk.blocks == Scatter(old(disk.blocks), Range(super.inodeRegionAddr, super.inodeRegionLen),
                                     inodes[..super.inodeRegionLen * UFS_BLOCK_SIZE], super.inodeRegionLen)
      ensures forall b :: 0 <= b < |disk.blocks| ==>
        disk.blocks[b] == if super.inodeRegionAddr <= b < super.inodeRegionAddr + super.inodeRegionLen
                          then inodes[(b - super.inodeRegionAddr) * UFS_BLOCK_SIZE
                                      ..(b - super.inodeRegionAddr + 1) * UFS_BLOCK_SIZE]
                          else old(disk.blocks[b])
    {
      WriteRegion(super.inodeRegionAddr, super.inodeRegionLen, inodes);
    }

    /** Reads the whole inode table of the image into a fresh array. */
    method LoadInodeTable(super: Super) returns (inodes: array<byte>)
      requires LayoutOk(disk.blocks) && super == SuperOf(disk.blocks)
      ensures fresh(inodes)
      ensures inodes[..] == InodeTable(disk.blocks)
    {
      inodes := new byte[super.numInodes * INODE_SIZE];
      ReadInodeRegion(super, inodes);
      assert inodes[..] == inodes[..super.inodeRegionLen * UFS_BLOCK_SIZE];
    }

    // -------------------------------------------------------------------
    // The operations

    /** stat: the inode record of `inodeNumber`. */
    method Stat(inodeNumber: int) returns (r: int, inode: Inode)
      requires LayoutOk(disk.blocks) && inodeNumber != NumInodes(disk.blocks)
      ensures r == (if OutOfRange(disk.blocks, inodeNumber) then -EINVALIDINODE else 0)
      ensures r == 0 ==> inode == InodeOf(disk.blocks, inodeNumber)
    {
      var super := ReadSuperBlock();
      if inodeNumber < 0 || inodeNumber > super.numInodes {
        // the caller's record is left as it was; the model hands back a zero one
        return -EINVALIDINODE, Inode(0, 0, seq(DIRECT_PTRS, _ => 0));
      }
      var inodes := LoadInodeTable(super);
      RecordFits(disk.blocks, inodeNumber);
      inode := DecodeInode(inodes[..], inodeNumber * INODE_SIZE);
      r := 0;
    }

    /**
      read: copies up to `size` bytes of the inode's blocks, in direct
      pointer order, to the front of `buffer`, stopping at the first zero
      pointer; leaves the rest of the buffer alone.
    */
    method Read(inodeNumber: int, buffer: array<byte>, size: int) returns (r: int)
      requires ImageOk(disk.blocks) && inodeNumber != NumInodes(disk.blocks)
      requires size <= buffer.Length
      modifies buffer
      ensures r == ReadResult(disk.blocks, inodeNumber, size)
      ensures r >= 0 ==> buffer[..r] == ReadData(disk.blocks, inodeNumber, size)
      ensures forall k :: 0 <= k < buffer.Length && !(0 <= k < r) ==> buffer[k] == old(buffer[k])
    {
      var super := ReadSuperBlock();
      if inodeNumber < 0 || inodeNumber > super.numInodes {
        return -EINVALIDINODE;
      }
      var inodes := LoadInodeTable(super);
      RecordFits(disk.blocks, inodeNumber);
      var inode := DecodeInode(inodes[..], inodeNumber * INODE_SIZE);
      if size < 0 || size > MAX_FILE_SIZE {
        return -EINVALIDSIZE;
      }
      assert inode == InodeOf(disk.blocks, inodeNumber);
      DirectIn(disk.blocks, inodeNumber);
      if inode.fileType == UFS_DIRECTORY {
        r := ReadDirectoryBlocks(inode.direct, buffer, size);
      } else if inode.fileType == UFS_REGULAR_FILE {
        r := ReadFileBlocks(inode.direct, buffer, size);
      } else {
        return -EINVALIDINODE;
      }
    }

    /**
      read's loop for a directory: one whole block per leading non-zero
      pointer, the last copy cut at `size`.
    */
    method ReadDirectoryBlocks(direct: seq<nat>, buffer: array<byte>, size: int) returns (bytesRead: int)
      requires |direct| == DIRECT_PTRS && PtrsIn(direct, |disk.blocks|)
      requires 0 <= size <= buffer.Length
      modifies buffer
      ensures bytesRead == Min(size, UFS_BLOCK_SIZE * LeadingBlocks(direct))
      ensures buffer[..bytesRead] == Gather(disk.blocks, direct[..LeadingBlocks(direct)])[..bytesRead]
      ensures forall k :: 0 <= k < buffer.Length && !(0 <= k < bytesRead) ==> buffer[k] == old(buffer[k])
    {
      ghost var leading := LeadingBlocks(direct);
      ghost var data := Gather(disk.blocks, direct[..leading]);
      bytesRead := 0;
      var i := 0;
      while i < DIRECT_PTRS && direct[i] != 0
        invariant 0 <= i <= leading
        invariant bytesRead == i * UFS_BLOCK_SIZE && (i > 0 ==> bytesRead < size)
        invariant buffer[..bytesRead] == data[..bytesRead]
        invariant forall k :: bytesRead <= k < buffer.Length ==> buffer[k] == old(buffer[k])
        decreases DIRECT_PTRS - i
      {
        var block := new byte[UFS_BLOCK_SIZE];
        disk.ReadBlock(direct[i], block, 0);
        assert block[..] == block[0..UFS_BLOCK_SIZE];
        var bytesToCopy := Min(size - bytesRead, UFS_BLOCK_SIZE);
        ChunkOffset(i, 0);
        CopyFileBlock(buffer, bytesRead, block, 0, bytesToCopy, disk.blocks, direct, leading);
        bytesRead := bytesRead + bytesToCopy;
        if bytesRead >= size {
          break;
        }
        i := i + 1;
      }
    }

    /**
      read's loop for a regular file: block bytesRead / BS at offset
      bytesRead % BS until `size` bytes are copied, returning early at a
      zero pointer or past the last direct pointer.
    */
    method ReadFileBlocks(direct: seq<nat>, buffer: array<byte>, size: int) returns (bytesRead: int)
      requires |direct| == DIRECT_PTRS && PtrsIn(direct, |disk.blocks|)
      requires 0 <= size <= buffer.Length
      modifies buffer
      ensures bytesRead == Min(size, UFS_BLOCK_SIZE * LeadingBlocks(direct))
      ensures buffer[..bytesRead] == Gather(disk.blocks, direct[..LeadingBlocks(direct)])[..bytesRead]
      ensures forall k :: 0 <= k < buffer.Length && !(0 <= k < bytesRead) ==> buffer[k] == old(buffer[k])
    {
      ghost var leading := LeadingBlocks(direct);
      ghost var data := Gather(disk.blocks, direct[..leading]);
      bytesRead := 0;
      ghost var blocksRead := 0;
      while bytesRead < size
        invariant 0 <= bytesRead <= size
        invariant bytesRead == Min(blocksRead * UFS_BLOCK_SIZE, size) && blocksRead <= leading
        invariant buffer[..bytesRead] == data[..bytesRead]
        invariant forall k :: bytesRead <= k < buffer.Length ==> buffer[k] == old(buffer[k])
        decreases size - bytesRead
      {
        ChunkOffset(blocksRead, 0);
        var curBlockIndex := bytesRead / UFS_BLOCK_SIZE;
        var blockOffset := bytesRead % UFS_BLOCK_SIZE;
        if curBlockIndex >= DIRECT_PTRS || direct[curBlockIndex] == 0 {
          return;
        }
        var block := new byte[UFS_BLOCK_SIZE];
        disk.ReadBlock(direct[curBlockIndex], block, 0);
        assert block[..] == block[0..UFS_BLOCK_SIZE];
        var bytesToCopy := Min(UFS_BLOCK_SIZE - blockOffset, size - bytesRead);
        CopyFileBlock(buffer, bytesRead, block, blockOffset, bytesToCopy, disk.blocks, direct, leading);
        bytesRead := bytesRead + bytesToCopy;
        blocksRead := blocksRead + 1;
        if bytesRead >= size {
          break;
        }
      }
    }

    /**
      lookup: the inode number of the entry named `name` in directory
      `parentInodeNumber`. The outer loop runs once per leading non-zero
      direct pointer, but each pass asks read for the first BS bytes of the
      directory, so only the block at direct[0] is ever searched.
    */
    method Lookup(parentInodeNumber: int, name: seq<byte>) returns (r: int)
      requires ImageOk(disk.blocks)
      ensures r == LookupResult(disk.blocks, parentInodeNumber, name)
    {
      var super := ReadSuperBlock();
      var inodes := LoadInodeTable(super);
      if parentInodeNumber < 0 || parentInodeNumber >= super.numInodes {
        return -EINVALIDINODE;
      }
      RecordFits(disk.blocks, parentInodeNumber);
      var parentInode := DecodeInode(inodes[..], parentInodeNumber * INODE_SIZE);
      if parentInode.fileType != UFS_DIRECTORY {
        return -EINVALIDINODE;
      }
      assert parentInode == InodeOf(disk.blocks, parentInodeNumber);
      var i := 0;
      while i < DIRECT_PTRS && parentInode.direct[i] != 0
        invariant 0 <= i <= DIRECT_PTRS
        invariant i > 0 ==> parentInode.direct[0] != 0
        invariant i > 0 ==> LookupResult(disk.blocks, parentInodeNumber, name) == -ENOTFOUND
        decreases DIRECT_PTRS - i
      {
        var block := new byte[UFS_BLOCK_SIZE];
        var bytesRead := Read(parentInodeNumber, block, UFS_BLOCK_SIZE);
        // The inode is a directory with a non-zero first pointer, so read
        // copies the whole block direct[0] and its error return is never
        // taken here.
        FirstBlockRead(disk.blocks, parentInodeNumber);
        assert block[..] == disk.blocks[parentInode.direct[0]] by {
          assert block[..] == block[..bytesRead];
        }
        LookupInFirstBlock(disk.blocks, parentInodeNumber, name);
        var found := FindEntry(block, name);
        if found.Some? {
          return DecodeDirEnt(block[..], found.value * DIR_ENT_SIZE).inum;
        }
        i := i + 1;
      }
      r := -ENOTFOUND;
    }

    /**
      lookup's scan of one block read as an array of dir_ent_t: the index
      of the first slot in use whose name is `name`.
    */
    method FindEntry(block: array<byte>, name: seq<byte>) returns (found: Option<nat>)
      requires block.Length == UFS_BLOCK_SIZE
      ensures found == FirstMatch(BlockEntries(block[..]), name, 0)
    {
      ghost var es := BlockEntries(block[..]);
      var numEntries := ENTRIES_PER_BLOCK;
      var j := 0;
      while j < numEntries
        invariant 0 <= j <= numEntries
        invariant FirstMatch(es, name, 0) == FirstMatch(es, name, j)
      {
        var entry := DecodeDirEnt(block[..], j * DIR_ENT_SIZE);
        assert entry == es[j];
        if entry.inum != FREE_INUM && name == entry.name {
          return Some(j);
        }
        j := j + 1;
      }
      found := None;
    }

    /**
      write: stores `size` bytes of `buffer` through the inode's direct
      pointers, chunk c into the block direct[c] by read-modify-write (no
      block is allocated, so a zero pointer means block 0), then records
      the new size if the file grew.
    */
    method Write(inodeNumber: int, buffer: array<byte>, size: int) returns (r: int)
      requires ImageOk(disk.blocks) && inodeNumber != NumInodes(disk.blocks)
      requires size <= buffer.Length
      modifies disk
      ensures r == WriteResult(old(disk.blocks), inodeNumber, size)
      ensures disk.blocks == if r < 0 then old(disk.blocks)
                             else WriteDisk(old(disk.blocks), inodeNumber, buffer[..size])
    {
      var super := ReadSuperBlock();
      if inodeNumber < 0 || inodeNumber > super.numInodes {
        return -EINVALIDINODE;
      }
      var inodes := LoadInodeTable(super);
      RecordFits(disk.blocks, inodeNumber);
      var inode := DecodeInode(inodes[..], inodeNumber * INODE_SIZE);
      if size < 0 || size > MAX_FILE_SIZE {
        return -EINVALIDSIZE;
      }
      if inode.fileType != UFS_REGULAR_FILE {
        return -EINVALIDTYPE;
      }
      ghost var image := disk.blocks;
      assert inode == InodeOf(image, inodeNumber);
      DirectIn(image, inodeNumber);
      var bytesWritten := WriteFileBlocks(inode.direct, buffer, size);
      ghost var written := disk.blocks;
      if bytesWritten > inode.size {
        StoreSize(super, inodes, inodeNumber, bytesWritten, image);
      }
      assert disk.blocks == WriteDisk(image, inodeNumber, buffer[..size]);
      r := bytesWritten;
    }

    /**
      The size update at the end of write: inode.size = bytesWritten in the
      table read before the data writes, and that table written back.
    */
    method StoreSize(super: Super, inodes: array<byte>, inodeNumber: int, size: int, ghost image: seq<Block>)
      requires LayoutOk(image) && super == SuperOf(image) && 0 <= inodeNumber < NumInodes(image)
      requires |disk.blocks| == |image| && inodes[..] == InodeTable(image)
      requires 0 <= size <= INT32_MAX
      modifies disk, inodes
      ensures disk.blocks == Scatter(old(disk.blocks), InodeRegion(image),
                                     PatchSize(InodeTable(image), inodeNumber, size), |InodeRegion(image)|)
    {
      RecordFits(image, inodeNumber);
      StoreI32(inodes, inodeNumber * INODE_SIZE + 4, size);
      assert inodes[..super.inodeRegionLen * UFS_BLOCK_SIZE] == inodes[..]
          == PatchSize(InodeTable(image), inodeNumber, size);
      assert Range(super.inodeRegionAddr, super.inodeRegionLen) == InodeRegion(image);
      WriteInodeRegion(super, inodes);
    }

    /**
      write's loop: chunk c of the first `size` bytes of buffer goes to
      block direct[c], read first so that a short last chunk keeps the rest
      of its block.
    */
    method WriteFileBlocks(direct: seq<nat>, buffer: array<byte>, size: int) returns (bytesWritten: int)
      requires |direct| == DIRECT_PTRS && PtrsIn(direct, |disk.blocks|)
      requires 0 <= size <= MAX_FILE_SIZE && size <= buffer.Length
      modifies disk
      ensures bytesWritten == size
      ensures disk.blocks == Scatter(old(disk.blocks), direct, buffer[..size], Chunks(size))
    {
      ghost var data := buffer[..size];
      ghost var chunks := 0;
      bytesWritten := 0;
      while bytesWritten < size
        invariant 0 <= bytesWritten <= size
        invariant bytesWritten == Min(chunks * UFS_BLOCK_SIZE, size)
        invariant chunks <= Chunks(size) <= DIRECT_PTRS
        invariant disk.blocks == Scatter(old(disk.blocks), direct, data, chunks)
        decreases size - bytesWritten
      {
        ChunkOffset(chunks, 0);
        var curBlockIndex := bytesWritten / UFS_BLOCK_SIZE;
        var blockOffset := bytesWritten % UFS_BLOCK_SIZE;
        // size <= MAX_FILE_SIZE, so the -ENOTENOUGHSPACE return for a
        // block index past the direct pointers is never taken.
        assert curBlockIndex == chunks < DIRECT_PTRS && blockOffset == 0;
        var block := new byte[UFS_BLOCK_SIZE];
        disk.ReadBlock(direct[curBlockIndex], block, 0);
        ghost var current := block[..];
        assert current == disk.blocks[direct[curBlockIndex]];
        var bytesToCopy := Min(UFS_BLOCK_SIZE - blockOffset, size - bytesWritten);
        Copy(block, blockOffset, buffer, bytesWritten, bytesToCopy);
        assert block[..] == block[..bytesToCopy] + block[bytesToCopy..];
        assert block[bytesToCopy..] == current[bytesToCopy..];
        assert block[..bytesToCopy] == data[bytesWritten..bytesWritten + bytesToCopy];
        disk.WriteBlock(direct[curBlockIndex], block, 0);
        assert block[0..UFS_BLOCK_SIZE] == block[..];
        bytesWritten := bytesWritten + bytesToCopy;
        chunks := chunks + 1;
      }
      assert chunks == Chunks(size);
    }

    /**
      The validation prefix of create. It checks the name length, the
      parent (through stat), the parent's size (through read) and the type;
      the allocation that would follow is absent, so it then returns 0.
    */
    method Create(parentInodeNumber: int, fileType: int, name: seq<byte>) returns (r: int)
      requires ImageOk(disk.blocks)
      requires |name| <= DIR_ENT_NAME_SIZE ==> parentInodeNumber != NumInodes(disk.blocks)
      ensures r == CreateResult(disk.blocks, parentInodeNumber, fileType, name)
    {
      if |name| > DIR_ENT_NAME_SIZE {
        return -EINVALIDNAME;
      }
      var super := ReadSuperBlock();
      var statResult, parentInode := Stat(parentInodeNumber);
      if statResult < 0 || parentInode.fileType != UFS_DIRECTORY || parentInode.size <= 0 {
        return -EINVALIDINODE;
      }
      // The entries vector is empty: read's bytes go to a scratch buffer of
      // the directory's size and the scan for an existing name visits nothing.
      var entries := new byte[parentInode.size];
      var readResult := Read(parentInodeNumber, entries, parentInode.size);
      if readResult < 0 {
        return -ENOTENOUGHSPACE;
      }
      var inodeBitmap := new byte[super.inodeBitmapLen * UFS_BLOCK_SIZE];
      ReadInodeBitmap(super, inodeBitmap);
      if fileType == UFS_DIRECTORY {
      } else if fileType == UFS_REGULAR_FILE {
      } else {
        return -EINVALIDTYPE;
      }
      r := 0;
    }

    /** unlink: not implemented; reports success and changes nothing. */
    method Unlink(parentInodeNumber: int, name: seq<byte>) returns (r: int)
      ensures r == 0
    {
      r := 0;
    }
  }

  /**
    One memcpy of read: `count` bytes from offset `from` of a block just
    read through pointer direct[c], c = at / BS, into `buffer` at `at`,
    which is where those bytes sit in the file's leading blocks.
  */
  method CopyFileBlock(buffer: array<byte>, at: nat, block: array<byte>, from: nat, count: nat,
                       ghost blocks: seq<Block>, ghost direct: seq<nat>, ghost leading: nat)
    requires buffer != block && block.Length == UFS_BLOCK_SIZE
    requires leading == LeadingBlocks(direct) && PtrsIn(direct, |blocks|)
    requires at / UFS_BLOCK_SIZE < leading && from == at % UFS_BLOCK_SIZE
    requires block[..] == blocks[direct[at / UFS_BLOCK_SIZE]]
    requires from + count <= UFS_BLOCK_SIZE && at + count <= buffer.Length
    requires buffer[..at] == Gather(blocks, direct[..leading])[..at]
    modifies buffer
    ensures at + count <= leading * UFS_BLOCK_SIZE
    ensures buffer[..at + count] == Gather(blocks, direct[..leading])[..at + count]
    ensures forall k :: 0 <= k < buffer.Length && !(at <= k < at + count) ==> buffer[k] == old(buffer[k])
  {
    ghost var data := Gather(blocks, direct[..leading]);
    assert PtrsIn(direct[..leading], |blocks|);
    ghost var c, o := DivBlock(at);
    Copy(buffer, at, block, from, count);
    forall k | at <= k < at + count
      ensures buffer[k] == data[k]
    {
      ChunkOffset(c, o + k - at);
      assert k / UFS_BLOCK_SIZE == c && k % UFS_BLOCK_SIZE == from + (k - at);
      GatherAt(blocks, direct[..leading], k);
      assert buffer[k] == buffer[at..at + count][k - at] == block[from..from + count][k - at];
    }
  }
}
