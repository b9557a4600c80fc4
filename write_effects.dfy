/**
  What a successful write does to the disk image: where each input byte
  lands, which blocks can change at all, what becomes of the inode table,
  and when reading the file back returns what was written. write never
  allocates blocks, so the facts that need distinct, non-zero pointers
  outside the inode region say so in their preconditions, and
  WriteThroughZeroPointer shows what happens otherwise.
*/
module WriteEffects {
  import opened Ufs
  import opened Blocks
  import opened Image

  /** The pointers write uses for `size` bytes: direct[0 .. ceil(size / BS)). */
  function Targets(blocks: seq<Block>, n: int, size: nat): (t: seq<nat>)
    requires LayoutOk(blocks) && 0 <= n < NumInodes(blocks) && size <= MAX_FILE_SIZE
    ensures |t| == Chunks(size) <= DIRECT_PTRS
    ensures forall i :: 0 <= i < |t| ==> t[i] == InodeOf(blocks, n).direct[i]
  {
    InodeOf(blocks, n).direct[..Chunks(size)]
  }

  predicate InInodeRegion(blocks: seq<Block>, b: int)
    requires |blocks| > 0
  {
    SuperOf(blocks).inodeRegionAddr <= b < SuperOf(blocks).inodeRegionAddr + SuperOf(blocks).inodeRegionLen
  }

  /** The pointers a write of `size` bytes goes through name different blocks. */
  predicate DistinctTargets(blocks: seq<Block>, n: int, size: nat)
    requires LayoutOk(blocks) && 0 <= n < NumInodes(blocks) && size <= MAX_FILE_SIZE
  {
    var t := Targets(blocks, n, size);
    Distinct(t, |t|)
  }

  /** None of those pointers names a block of the inode region. */
  predicate TargetsOutsideInodeRegion(blocks: seq<Block>, n: int, size: nat)
    requires LayoutOk(blocks) && 0 <= n < NumInodes(blocks) && size <= MAX_FILE_SIZE
  {
    var t := Targets(blocks, n, size);
    forall i :: 0 <= i < |t| ==> !InInodeRegion(blocks, t[i])
  }

  /** None of those pointers is 0, which names the superblock. */
  predicate NonZeroTargets(blocks: seq<Block>, n: int, size: nat)
    requires LayoutOk(blocks) && 0 <= n < NumInodes(blocks) && size <= MAX_FILE_SIZE
  {
    var t := Targets(blocks, n, size);
    forall i :: 0 <= i < |t| ==> t[i] != 0
  }

  /**
    All three: what an allocating file system would guarantee, and what
    reading the data back through read (which stops at a zero pointer) needs.
  */
  predicate SeparateTargets(blocks: seq<Block>, n: int, size: nat)
    requires LayoutOk(blocks) && 0 <= n < NumInodes(blocks) && size <= MAX_FILE_SIZE
  {
    && DistinctTargets(blocks, n, size)
    && TargetsOutsideInodeRegion(blocks, n, size)
    && NonZeroTargets(blocks, n, size)
  }

  /**
    Where write's bytes land: with distinct pointers (a zero pointer, the
    superblock, included) that avoid the inode region when the file grows,
    byte k % BS of block direct[k / BS] holds input byte k for every
    k < |data|, and the bytes of the last block past the data keep their
    old value.
  */
  lemma {:induction false} WriteStoresData(blocks: seq<Block>, n: int, data: seq<byte>, k: nat)
    requires ImageOk(blocks) && n != NumInodes(blocks)
    requires WriteResult(blocks, n, |data|) >= 0
    requires DistinctTargets(blocks, n, |data|)
    requires |data| > InodeOf(blocks, n).size ==> TargetsOutsideInodeRegion(blocks, n, |data|)
    requires k < Chunks(|data|) * UFS_BLOCK_SIZE
    ensures k / UFS_BLOCK_SIZE < Chunks(|data|)
    ensures var d := InodeOf(blocks, n).direct;
      WriteDisk(blocks, n, data)[d[k / UFS_BLOCK_SIZE]][k % UFS_BLOCK_SIZE]
        == if k < |data| then data[k] else blocks[d[k / UFS_BLOCK_SIZE]][k % UFS_BLOCK_SIZE]
  {
    var ino := InodeOf(blocks, n);
    var d := ino.direct;
    DirectIn(blocks, n);
    var chunks := Chunks(|data|);
    var c, o := DivBlock(k);
    assert c < chunks;
    var t := Targets(blocks, n, |data|);
    assert Distinct(t, |t|);
    assert Distinct(d, chunks) by {
      forall i, j | 0 <= i < j < chunks
        ensures d[i] != d[j]
      {
        assert t[i] == d[i] && t[j] == d[j];
      }
    }
    ScatterAt(blocks, d, data, chunks, c, o);
    assert |data| > ino.size ==> !InInodeRegion(blocks, d[c]) by {
      if |data| > ino.size {
        assert TargetsOutsideInodeRegion(blocks, n, |data|);
        assert t[c] == d[c];
      }
    }
    WriteOutsideInodeRegion(blocks, n, data, d[c]);
    var written := Scatter(blocks, d, data, chunks);
    assert WriteDisk(blocks, n, data)[d[c]][o] == written[d[c]][o];
    assert c * UFS_BLOCK_SIZE + o == k;
  }

  /**
    A block ends up as the data writes left it unless the file grew and
    the block is in the inode region: the size update touches only that
    region.
  */
  lemma WriteOutsideInodeRegion(blocks: seq<Block>, n: int, data: seq<byte>, b: nat)
    requires ImageOk(blocks) && n != NumInodes(blocks)
    requires WriteResult(blocks, n, |data|) >= 0
    requires b < |blocks| && (|data| > InodeOf(blocks, n).size ==> !InInodeRegion(blocks, b))
    ensures PtrsIn(InodeOf(blocks, n).direct, |blocks|)
      && WriteDisk(blocks, n, data)[b] == Scatter(blocks, InodeOf(blocks, n).direct, data, Chunks(|data|))[b]
  {
    var ino := InodeOf(blocks, n);
    DirectIn(blocks, n);
    if |data| > ino.size {
      var written := Scatter(blocks, ino.direct, data, Chunks(|data|));
      var region := InodeRegion(blocks);
      RecordFits(blocks, n);
      var patched := PatchSize(InodeTable(blocks), n, |data|);
      ScatterFrame(written, region, patched, |region|, b);
    }
  }

  /**
    The blocks write can change: those its pointers name, and the inode
    region when the file grew. Every other block is untouched.
  */
  lemma {:induction false} WriteFrame(blocks: seq<Block>, n: int, data: seq<byte>, b: nat)
    requires ImageOk(blocks) && n != NumInodes(blocks)
    requires WriteResult(blocks, n, |data|) >= 0
    requires b < |blocks|
    requires forall i :: 0 <= i < Chunks(|data|) ==> InodeOf(blocks, n).direct[i] != b
    requires |data| > InodeOf(blocks, n).size ==> !InInodeRegion(blocks, b)
    ensures WriteDisk(blocks, n, data)[b] == blocks[b]
  {
    var ino := InodeOf(blocks, n);
    DirectIn(blocks, n);
    var chunks := Chunks(|data|);
    var written := Scatter(blocks, ino.direct, data, chunks);
    ScatterFrame(blocks, ino.direct, data, chunks, b);
    if |data| > ino.size {
      var region := InodeRegion(blocks);
      RecordFits(blocks, n);
      var patched := PatchSize(InodeTable(blocks), n, |data|);
      ScatterFrame(written, region, patched, |region|, b);
    }
  }

  /** Blocks that agree on every listed block gather to the same bytes. */
  lemma {:induction false} GatherSame(blocks: seq<Block>, blocks': seq<Block>, ptrs: seq<nat>)
    requires PtrsIn(ptrs, |blocks|) && PtrsIn(ptrs, |blocks'|)
    requires forall i :: 0 <= i < |ptrs| ==> blocks'[ptrs[i]] == blocks[ptrs[i]]
    ensures Gather(blocks', ptrs) == Gather(blocks, ptrs)
    decreases |ptrs|
  {
    if ptrs != [] {
      var front := ptrs[..|ptrs| - 1];
      assert PtrsIn(front, |blocks|) && PtrsIn(front, |blocks'|);
      GatherSame(blocks, blocks', front);
    }
  }

  /** An int read from four bytes depends on those four bytes only. */
  lemma I32AtSlice(s: seq<byte>, off: nat)
    requires off + 4 <= |s|
    ensures I32At(s, off) == I32At(s[off..off + 4], 0)
  {
    assert s[off..off + 4][0] == s[off] && s[off..off + 4][1] == s[off + 1];
    assert s[off..off + 4][2] == s[off + 2] && s[off..off + 4][3] == s[off + 3];
  }

  /**
    The store of record n's size field: record n now has size x and the
    same type and pointers, and every other record is unchanged.
  */
  lemma PatchSizeFields(t: seq<byte>, n: nat, x: int, m: nat)
    requires (n + 1) * INODE_SIZE <= |t| && (m + 1) * INODE_SIZE <= |t|
    requires -0x8000_0000 <= x <= INT32_MAX
    ensures var before := DecodeInode(t, m * INODE_SIZE);
      DecodeInode(PatchSize(t, n, x), m * INODE_SIZE)
        == if m == n then before.(size := x) else before
  {
    var t' := PatchSize(t, n, x);
    var lo := n * INODE_SIZE + 4;
    assert forall i :: 0 <= i < |t| && !(lo <= i < lo + 4) ==> t'[i] == t[i];
    var off := m * INODE_SIZE;
    if m == n {
      assert t'[lo..lo + 4] == EncodeI32(x);
      I32AtSlice(t', lo);
      I32RoundTrip(x);
    } else {
      assert m < n || m > n;
      assert off + INODE_SIZE <= lo || lo + 4 <= off;
    }
  }

  /**
    A successful write leaves the superblock and every inode record as
    they were, except that inode n's size becomes max(old size, bytes
    written): the size never shrinks, and the inode region is rewritten
    only when it grows. Pointers may repeat; a zero pointer or one into
    the inode region would overwrite the superblock or the table the size
    update starts from, so those are excluded, as is an inode region that
    begins at block 0.
  */
  lemma WriteSetsSize(blocks: seq<Block>, n: int, data: seq<byte>)
    requires ImageOk(blocks) && n != NumInodes(blocks)
    requires WriteResult(blocks, n, |data|) >= 0
    requires NonZeroTargets(blocks, n, |data|) && TargetsOutsideInodeRegion(blocks, n, |data|)
    requires SuperOf(blocks).inodeRegionAddr > 0
    ensures var after := WriteDisk(blocks, n, data);
      && SuperOf(after) == SuperOf(blocks)
      && ImageOk(after)
      && InodeOf(after, n) == InodeOf(blocks, n).(size := Max(InodeOf(blocks, n).size, |data|))
      && forall m :: 0 <= m < NumInodes(blocks) && m != n ==> InodeOf(after, m) == InodeOf(blocks, m)
  {
    var after := WriteDisk(blocks, n, data);
    var ino := InodeOf(blocks, n);
    var t := Targets(blocks, n, |data|);
    WriteFrame(blocks, n, data, 0);
    assert SuperOf(after) == SuperOf(blocks);
    var region := InodeRegion(blocks);
    assert region == InodeRegion(after);
    var table := InodeTable(blocks);
    RecordFits(blocks, n);
    var table' := if |data| > ino.size then PatchSize(table, n, |data|) else table;
    assert InodeTable(after) == table' by {
      if |data| > ino.size {
        DirectIn(blocks, n);
        var written := Scatter(blocks, ino.direct, data, Chunks(|data|));
        GatherScatter(written, region, table');
      } else {
        forall i | 0 <= i < |region|
          ensures after[region[i]] == blocks[region[i]]
        {
          forall c | 0 <= c < Chunks(|data|)
            ensures ino.direct[c] != region[i]
          {
            assert !InInodeRegion(blocks, t[c]);
          }
          WriteFrame(blocks, n, data, region[i]);
        }
        GatherSame(blocks, after, region);
      }
    }
    forall m | 0 <= m < NumInodes(blocks)
      ensures InodeOf(after, m) == if m == n then ino.(size := Max(ino.size, |data|)) else InodeOf(blocks, m)
    {
      RecordFits(blocks, m);
      if |data| > ino.size {
        PatchSizeFields(table, n, |data|, m);
      }
    }
    assert ImageOk(after) by {
      forall m, k | 0 <= m < NumInodes(after) && 0 <= k < DIRECT_PTRS
        ensures InodeOf(after, m).direct[k] < |after|
      {
        DirectIn(blocks, m);
      }
    }
  }

  /**
    Reading a file back after writing it: with separate targets, read of
    |data| bytes returns |data| and exactly the bytes written.
  */
  lemma WriteThenRead(blocks: seq<Block>, n: int, data: seq<byte>)
    requires ImageOk(blocks) && n != NumInodes(blocks)
    requires WriteResult(blocks, n, |data|) >= 0
    requires SeparateTargets(blocks, n, |data|) && SuperOf(blocks).inodeRegionAddr > 0
    ensures var after := WriteDisk(blocks, n, data);
      && ImageOk(after) && n != NumInodes(after)
      && ReadResult(after, n, |data|) == |data|
      && ReadData(after, n, |data|) == data
  {
    var after := WriteDisk(blocks, n, data);
    WriteSetsSize(blocks, n, data);
    var d := InodeOf(blocks, n).direct;
    assert InodeOf(after, n).direct == d;
    var t := Targets(blocks, n, |data|);
    var chunks := Chunks(|data|);
    assert LeadingBlocks(d) >= chunks by {
      assert forall i :: 0 <= i < chunks ==> t[i] != 0;
    }
    assert ReadResult(after, n, |data|) == |data|;
    forall k | 0 <= k < |data|
      ensures ReadData(after, n, |data|)[k] == data[k]
    {
      ReadDataAt(after, n, |data|, k);
      WriteStoresData(blocks, n, data, k);
    }
  }

  /**
    write does not allocate: on an inode whose first pointer is still 0,
    a write of up to one block puts the data at the front of block 0,
    over the superblock.
  */
  lemma WriteThroughZeroPointer(blocks: seq<Block>, n: int, data: seq<byte>)
    requires ImageOk(blocks) && n != NumInodes(blocks)
    requires WriteResult(blocks, n, |data|) >= 0
    requires InodeOf(blocks, n).direct[0] == 0 && 0 < |data| <= UFS_BLOCK_SIZE
    requires SuperOf(blocks).inodeRegionAddr > 0
    ensures WriteDisk(blocks, n, data)[0][..|data|] == data
  {
    var ino := InodeOf(blocks, n);
    DirectIn(blocks, n);
    assert Chunks(|data|) == 1;
    var written := Scatter(blocks, ino.direct, data, 1);
    forall o | 0 <= o < |data|
      ensures written[0][o] == data[o]
    {
      ScatterAt(blocks, ino.direct, data, 1, 0, o);
    }
    if |data| > ino.size {
      var region := InodeRegion(blocks);
      RecordFits(blocks, n);
      var patched := PatchSize(InodeTable(blocks), n, |data|);
      ScatterFrame(written, region, patched, |region|, 0);
    }
  }
}
