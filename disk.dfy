/**
  The block device under the file system and the byte copies between
  buffers. Disk.cpp is not part of this model: the disk is a sequence of
  fixed-size blocks, each read or written whole by absolute index into or
  out of a caller's buffer at some offset.
*/
module BlockDevice {
  import opened Ufs

  class Disk {
    var blocks: seq<Block>

    constructor(image: seq<Block>)
      ensures blocks == image
    {
      blocks := image;
    }

    /** readBlock(index, buffer + off). */
    method ReadBlock(index: int, buffer: array<byte>, off: nat)
      requires 0 <= index < |blocks| && off + UFS_BLOCK_SIZE <= buffer.Length
      modifies buffer
      ensures buffer[off..off + UFS_BLOCK_SIZE] == blocks[index]
      ensures forall i :: 0 <= i < buffer.Length && !(off <= i < off + UFS_BLOCK_SIZE) ==>
        buffer[i] == old(buffer[i])
    {
      forall i | off <= i < off + UFS_BLOCK_SIZE {
        buffer[i] := blocks[index][i - off];
      }
    }

    /** writeBlock(index, buffer + off). */
    method WriteBlock(index: int, buffer: array<byte>, off: nat)
      requires 0 <= index < |blocks| && off + UFS_BLOCK_SIZE <= buffer.Length
      modifies this
      ensures blocks == old(blocks)[index := buffer[off..off + UFS_BLOCK_SIZE]]
    {
      blocks := blocks[index := buffer[off..off + UFS_BLOCK_SIZE]];
    }
  }

  /** memcpy(dst + dstOff, src + srcOff, count) between two different buffers. */
  method Copy(dst: array<byte>, dstOff: nat, src: array<byte>, srcOff: nat, count: nat)
    requires dst != src
    requires dstOff + count <= dst.Length && srcOff + count <= src.Length
    modifies dst
    ensures dst[dstOff..dstOff + count] == src[srcOff..srcOff + count]
    ensures forall i :: 0 <= i < dst.Length && !(dstOff <= i < dstOff + count) ==> dst[i] == old(dst[i])
  {
    forall i | dstOff <= i < dstOff + count {
      dst[i] := src[srcOff + i - dstOff];
    }
  }

  /** The store of an int into a byte buffer at `off`, in little-endian order. */
  method StoreI32(dst: array<byte>, off: nat, x: int)
    requires off + 4 <= dst.Length
    requires -0x8000_0000 <= x <= INT32_MAX
    modifies dst
    ensures dst[..] == old(dst[..off]) + EncodeI32(x) + old(dst[off + 4..])
  {
    var s := EncodeI32(x);
    dst[off], dst[off + 1], dst[off + 2], dst[off + 3] := s[0], s[1], s[2], s[3];
    assert dst[..] == old(dst[..off]) + s + old(dst[off + 4..]);
  }
}
