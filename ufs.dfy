/**
  The constants and on-disk records of the file system (the contents of
  ufs.h), and the little-endian codec that turns the raw bytes of a block
  into the records the file-system layer works with.

  ufs.h is not part of this model; the values below are those of the
  standard layout: 4096-byte blocks, 30 direct pointers per inode, a
  128-byte inode record (int type, int size, unsigned direct[30]) and a
  32-byte directory entry (char name[28], int inum).
*/
module Ufs {

  type byte = b: int | 0 <= b < 256

  const UFS_BLOCK_SIZE: nat := 4096
  const DIRECT_PTRS: nat := 30
  /** DIRECT_PTRS * UFS_BLOCK_SIZE */
  const MAX_FILE_SIZE: nat := 122880
  const DIR_ENT_NAME_SIZE: nat := 28

  /** sizeof(inode_t): two ints and DIRECT_PTRS unsigned ints, 8 + 4 * 30. */
  const INODE_SIZE: nat := 128
  /** sizeof(dir_ent_t): the name field and one int, 28 + 4. */
  const DIR_ENT_SIZE: nat := 32
  /** Directory entries held by one block: UFS_BLOCK_SIZE / DIR_ENT_SIZE. */
  const ENTRIES_PER_BLOCK: nat := 128

  const UFS_DIRECTORY: int := 0
  const UFS_REGULAR_FILE: int := 1
  const UFS_ROOT_DIRECTORY_INODE_NUMBER: int := 0

  /** The inode number that marks a free directory slot. */
  const FREE_INUM: int := -1

  // Error codes; operations return their negation.
  const EINVALIDINODE: int := 2
  const EINVALIDNAME: int := 3
  const EINVALIDTYPE: int := 4
  const ENOTFOUND: int := 5
  const ENOTENOUGHSPACE: int := 6
  const EINVALIDSIZE: int := 7

  const INT32_MAX: int := 0x7fff_ffff

  /** One block of the disk image. */
  type Block = b: seq<byte> | |b| == UFS_BLOCK_SIZE witness seq(4096, _ => 0)

  datatype Option<T> = None | Some(value: T)

  function Min(a: int, b: int): int { if a <= b then a else b }
  function Max(a: int, b: int): int { if a >= b then a else b }

  /** super_t: region addresses and lengths in blocks, and the counts. */
  datatype Super = Super(
    inodeBitmapAddr: int, inodeBitmapLen: int,
    dataBitmapAddr: int, dataBitmapLen: int,
    inodeRegionAddr: int, inodeRegionLen: int,
    dataRegionAddr: int, dataRegionLen: int,
    numInodes: int, numData: int)

  /** inode_t; `direct` always has DIRECT_PTRS entries, 0 meaning unallocated. */
  datatype Inode = Inode(fileType: int, size: int, direct: seq<nat>)

  /** dir_ent_t, with the name field read as a C string. */
  datatype DirEnt = DirEnt(name: seq<byte>, inum: int)

  // ---------------------------------------------------------------------
  // Little-endian 32-bit integers

  function U32At(s: seq<byte>, off: nat): (v: nat)
    requires off + 4 <= |s|
    ensures v < 0x1_0000_0000
  {
    s[off] as int + 0x100 * (s[off + 1] as int) + 0x1_0000 * (s[off + 2] as int)
      + 0x100_0000 * (s[off + 3] as int)
  }

  /** A two's-complement int stored at `off`. */
  function I32At(s: seq<byte>, off: nat): (v: int)
    requires off + 4 <= |s|
    ensures -0x8000_0000 <= v <= INT32_MAX
  {
    var u := U32At(s, off);
    if u < 0x8000_0000 then u else u - 0x1_0000_0000
  }

  /** The four bytes an int store writes. */
  function EncodeI32(x: int): (s: seq<byte>)
    requires -0x8000_0000 <= x <= INT32_MAX
    ensures |s| == 4
  {
    var u := if x >= 0 then x else x + 0x1_0000_0000;
    [u % 0x100, (u / 0x100) % 0x100, (u / 0x1_0000) % 0x100, u / 0x100_0000]
  }

  /** Reading back an int that was stored gives the same int. */
  lemma {:induction false} I32RoundTrip(x: int)
    requires -0x8000_0000 <= x <= INT32_MAX
    ensures I32At(EncodeI32(x), 0) == x
  {
    var u := if x >= 0 then x else x + 0x1_0000_0000;
    var s := EncodeI32(x);
    var q1, q2 := u / 0x100, u / 0x1_0000;
    assert q2 == q1 / 0x100;
    assert u == s[0] as int + 0x100 * q1;
    assert q1 == s[1] as int + 0x100 * q2;
    assert q2 == s[2] as int + 0x100 * (s[3] as int);
    assert U32At(s, 0) == u;
  }

  // ---------------------------------------------------------------------
  // C strings

  /**
    The bytes of a NUL-terminated field up to its first NUL: what strlen,
    strcmp and the std::string conversion see. A field with no NUL is taken
    whole.
  */
  function CString(s: seq<byte>): (r: seq<byte>)
    ensures |r| <= |s| && r == s[..|r|]
    ensures forall i :: 0 <= i < |r| ==> r[i] != 0
    ensures |r| < |s| ==> s[|r|] == 0
  {
    if |s| == 0 || s[0] == 0 then [] else [s[0]] + CString(s[1..])
  }

  // ---------------------------------------------------------------------
  // Records

  /** The super_t record at the start of block 0: ten ints. */
  function DecodeSuper(b: Block): Super
  {
    Super(I32At(b, 0), I32At(b, 4), I32At(b, 8), I32At(b, 12), I32At(b, 16),
          I32At(b, 20), I32At(b, 24), I32At(b, 28), I32At(b, 32), I32At(b, 36))
  }

  /** The inode_t record stored at byte `off` of an inode table. */
  function DecodeInode(t: seq<byte>, off: nat): (ino: Inode)
    requires off + INODE_SIZE <= |t|
    ensures |ino.direct| == DIRECT_PTRS
  {
    Inode(I32At(t, off), I32At(t, off + 4),
          seq(DIRECT_PTRS, k requires 0 <= k < DIRECT_PTRS => U32At(t, off + 8 + 4 * k)))
  }

  /** The dir_ent_t record stored at byte `off` of a directory's content. */
  function DecodeDirEnt(t: seq<byte>, off: nat): DirEnt
    requires off + DIR_ENT_SIZE <= |t|
  {
    DirEnt(CString(t[off..off + DIR_ENT_NAME_SIZE]), I32At(t, off + DIR_ENT_NAME_SIZE))
  }

  /** The first `count` directory entries packed in `t`. */
  function DirEntries(t: seq<byte>, count: nat): (es: seq<DirEnt>)
    requires count * DIR_ENT_SIZE <= |t|
    ensures |es| == count
  {
    seq(count, i requires 0 <= i < count => DecodeDirEnt(t, i * DIR_ENT_SIZE))
  }
}
