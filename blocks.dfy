/**
  Byte ranges spread over blocks. Every transfer in the file-system layer
  moves whole blocks, named by a list of block indices, to or from a flat
  byte buffer whose i-th block-sized chunk belongs to the i-th index: a
  region is the list addr, addr+1, ..., addr+len-1, and a file is the list
  of its direct pointers. Gather is the buffer such a list of blocks reads
  into, Scatter the disk after such a list has been written.
*/
module Blocks {
  import opened Ufs

  /** The block indices of the region of `len` blocks starting at `addr`. */
  function Range(addr: nat, len: nat): (r: seq<nat>)
    ensures |r| == len
    ensures forall i :: 0 <= i < len ==> r[i] == addr + i
  {
    seq(len, i requires 0 <= i < len => addr + i)
  }

  predicate PtrsIn(ptrs: seq<nat>, n: nat)
  {
    forall i :: 0 <= i < |ptrs| ==> ptrs[i] < n
  }

  /** No block index occurs twice among the first `j`. */
  predicate Distinct(ptrs: seq<nat>, j: nat)
    requires j <= |ptrs|
  {
    forall c, c' :: 0 <= c < c' < j ==> ptrs[c] != ptrs[c']
  }

  /** Offset `k` of a buffer lies in chunk k / BS at position k % BS. */
  lemma ChunkOffset(c: nat, o: nat)
    requires o < UFS_BLOCK_SIZE
    ensures (c * UFS_BLOCK_SIZE + o) / UFS_BLOCK_SIZE == c
    ensures (c * UFS_BLOCK_SIZE + o) % UFS_BLOCK_SIZE == o
  {
  }

  /** Splits a byte offset into its chunk and the position in the chunk. */
  lemma DivBlock(k: nat) returns (c: nat, o: nat)
    ensures c == k / UFS_BLOCK_SIZE && o == k % UFS_BLOCK_SIZE
    ensures o < UFS_BLOCK_SIZE && k == c * UFS_BLOCK_SIZE + o
  {
    c, o := k / UFS_BLOCK_SIZE, k % UFS_BLOCK_SIZE;
  }

  /** The blocks `ptrs` names, one after another. */
  function Gather(blocks: seq<Block>, ptrs: seq<nat>): (r: seq<byte>)
    requires PtrsIn(ptrs, |blocks|)
    ensures |r| == |ptrs| * UFS_BLOCK_SIZE
    decreases |ptrs|
  {
    if ptrs == [] then []
    else Gather(blocks, ptrs[..|ptrs| - 1]) + blocks[ptrs[|ptrs| - 1]]
  }

  /** Byte k of the gathered buffer is byte k % BS of block ptrs[k / BS]. */
  lemma {:induction false} GatherAt(blocks: seq<Block>, ptrs: seq<nat>, k: nat)
    requires PtrsIn(ptrs, |blocks|)
    requires k < |ptrs| * UFS_BLOCK_SIZE
    ensures k / UFS_BLOCK_SIZE < |ptrs|
    ensures Gather(blocks, ptrs)[k] == blocks[ptrs[k / UFS_BLOCK_SIZE]][k % UFS_BLOCK_SIZE]
    decreases |ptrs|
  {
    var m := |ptrs| - 1;
    var front := ptrs[..m];
    assert PtrsIn(front, |blocks|);
    if k < m * UFS_BLOCK_SIZE {
      GatherAt(blocks, front, k);
    } else {
      ChunkOffset(m, k - m * UFS_BLOCK_SIZE);
    }
  }

  /**
    The disk after the first `j` chunks of `data` were written, chunk c to
    block ptrs[c], each by read-modify-write: the chunk's bytes replace the
    front of the block as it is at that moment and the rest of the block is
    kept. Only the last chunk of `data` can be shorter than a block.
  */
  function Scatter(blocks: seq<Block>, ptrs: seq<nat>, data: seq<byte>, j: nat): (r: seq<Block>)
    requires j <= |ptrs| && PtrsIn(ptrs, |blocks|)
    requires j * UFS_BLOCK_SIZE < |data| + UFS_BLOCK_SIZE
    ensures |r| == |blocks|
    decreases j
  {
    if j == 0 then blocks
    else
      var prev := Scatter(blocks, ptrs, data, j - 1);
      var chunk := data[(j - 1) * UFS_BLOCK_SIZE .. Min(j * UFS_BLOCK_SIZE, |data|)];
      prev[ptrs[j - 1] := chunk + prev[ptrs[j - 1]][|chunk|..]]
  }

  /** A block that no written chunk names keeps its contents. */
  lemma {:induction false} ScatterFrame(blocks: seq<Block>, ptrs: seq<nat>, data: seq<byte>, j: nat, b: nat)
    requires j <= |ptrs| && PtrsIn(ptrs, |blocks|)
    requires j * UFS_BLOCK_SIZE < |data| + UFS_BLOCK_SIZE
    requires b < |blocks|
    requires forall c :: 0 <= c < j ==> ptrs[c] != b
    ensures Scatter(blocks, ptrs, data, j)[b] == blocks[b]
    decreases j
  {
    if j > 0 {
      ScatterFrame(blocks, ptrs, data, j - 1, b);
    }
  }

  /**
    With distinct block indices, block ptrs[c] ends up holding byte
    c * BS + o of `data` at offset o where the data reaches, and its own old
    byte elsewhere.
  */
  lemma {:induction false} ScatterAt(blocks: seq<Block>, ptrs: seq<nat>, data: seq<byte>, j: nat, c: nat, o: nat)
    requires j <= |ptrs| && PtrsIn(ptrs, |blocks|)
    requires j * UFS_BLOCK_SIZE < |data| + UFS_BLOCK_SIZE
    requires Distinct(ptrs, j)
    requires c < j && o < UFS_BLOCK_SIZE
    ensures Scatter(blocks, ptrs, data, j)[ptrs[c]][o]
         == if c * UFS_BLOCK_SIZE + o < |data| then data[c * UFS_BLOCK_SIZE + o] else blocks[ptrs[c]][o]
    decreases j
  {
    if c == j - 1 {
      ScatterFrame(blocks, ptrs, data, j - 1, ptrs[c]);
    } else {
      ScatterAt(blocks, ptrs, data, j - 1, c, o);
    }
  }

  /** Writing a whole region and reading it back gives the buffer written. */
  lemma {:induction false} GatherScatter(blocks: seq<Block>, ptrs: seq<nat>, data: seq<byte>)
    requires PtrsIn(ptrs, |blocks|) && Distinct(ptrs, |ptrs|)
    requires |data| == |ptrs| * UFS_BLOCK_SIZE
    ensures Gather(Scatter(blocks, ptrs, data, |ptrs|), ptrs) == data
  {
    var g := Gather(Scatter(blocks, ptrs, data, |ptrs|), ptrs);
    assert ptrs[..|ptrs|] == ptrs;
    forall k | 0 <= k < |data|
      ensures g[k] == data[k]
    {
      GatherScatterAt(blocks, ptrs, data, |ptrs|, k);
    }
    assert |g| == |data|;
  }

  /** Byte k read back through the written blocks is byte k of the data. */
  lemma {:induction false} GatherScatterAt(blocks: seq<Block>, ptrs: seq<nat>, data: seq<byte>, j: nat, k: nat)
    requires j <= |ptrs| && PtrsIn(ptrs, |blocks|) && Distinct(ptrs, j)
    requires j * UFS_BLOCK_SIZE < |data| + UFS_BLOCK_SIZE
    requires k < |data| && k < j * UFS_BLOCK_SIZE
    ensures Gather(Scatter(blocks, ptrs, data, j), ptrs[..j])[k] == data[k]
  {
    var after := Scatter(blocks, ptrs, data, j);
    assert PtrsIn(ptrs[..j], |after|);
    GatherAt(after, ptrs[..j], k);
    var c, o := DivBlock(k);
    ScatterAt(blocks, ptrs, data, j, c, o);
  }

  /** A region's block indices are distinct. */
  lemma RangeDistinct(addr: nat, len: nat)
    ensures Distinct(Range(addr, len), len)
  {
  }

  /**
    After a region is written whole, its i-th block holds the i-th chunk of
    the buffer and every block outside it is as before.
  */
  lemma RegionContents(blocks: seq<Block>, addr: nat, len: nat, data: seq<byte>)
    requires addr + len <= |blocks| && |data| == len * UFS_BLOCK_SIZE
    ensures forall b :: 0 <= b < |blocks| ==>
      Scatter(blocks, Range(addr, len), data, len)[b]
        == if addr <= b < addr + len then data[(b - addr) * UFS_BLOCK_SIZE..(b - addr + 1) * UFS_BLOCK_SIZE]
           else blocks[b]
  {
    forall b | 0 <= b < |blocks|
      ensures Scatter(blocks, Range(addr, len), data, len)[b]
        == if addr <= b < addr + len then data[(b - addr) * UFS_BLOCK_SIZE..(b - addr + 1) * UFS_BLOCK_SIZE]
           else blocks[b]
    {
      if addr <= b < addr + len {
        RegionPrefix(blocks, addr, len, data, len, b);
      } else {
        ScatterFrame(blocks, Range(addr, len), data, len, b);
      }
    }
  }

  /** Reading back a region that was just written whole gives the buffer written. */
  lemma RegionRoundTrip(blocks: seq<Block>, addr: nat, len: nat, data: seq<byte>)
    requires addr + len <= |blocks| && |data| == len * UFS_BLOCK_SIZE
    ensures Gather(Scatter(blocks, Range(addr, len), data, len), Range(addr, len)) == data
  {
    RangeDistinct(addr, len);
    GatherScatter(blocks, Range(addr, len), data);
  }

  /**
    After the first j blocks of a region are written whole, block b among
    them holds the chunk of the buffer that falls on it.
  */
  lemma {:induction false} RegionPrefix(blocks: seq<Block>, addr: nat, len: nat, data: seq<byte>, j: nat, b: nat)
    requires addr + len <= |blocks| && |data| == len * UFS_BLOCK_SIZE
    requires j <= len && addr <= b < addr + j
    ensures Scatter(blocks, Range(addr, len), data, j)[b]
         == data[(b - addr) * UFS_BLOCK_SIZE..(b - addr + 1) * UFS_BLOCK_SIZE]
    decreases j
  {
    var ptrs := Range(addr, len);
    var prev := Scatter(blocks, ptrs, data, j - 1);
    assert j * UFS_BLOCK_SIZE <= |data|;
    var chunk := data[(j - 1) * UFS_BLOCK_SIZE .. j * UFS_BLOCK_SIZE];
    assert Scatter(blocks, ptrs, data, j) == prev[addr + j - 1 := chunk + prev[addr + j - 1][|chunk|..]];
    if b == addr + j - 1 {
      assert chunk + prev[b][|chunk|..] == chunk;
    } else {
      RegionPrefix(blocks, addr, len, data, j - 1, b);
    }
  }
}
