/**
  ds3cat: for a regular file given by inode number, the list of its
  non-zero block pointers among the blocks its size needs, and its data
  read into a NUL-terminated buffer and printed up to the first NUL.

  The inode number arrives already parsed (stoi of the argument is not
  part of this model). Every error exit (status 1) is CatFailure.
*/
module Ds3cat {
  import opened Ufs
  import opened Image
  import opened LocalFs

  datatype CatOutput =
    | CatFailure                                 // "Error reading file", exit status 1
    | CatOk(blockNums: seq<nat>, text: seq<byte>) // "File blocks", the list, "File data", the text

  /** The non-zero pointers, in order (blockNums' push_back loop). */
  function NonZero(ps: seq<nat>): (r: seq<nat>)
    ensures |r| <= |ps|
    ensures forall i :: 0 <= i < |r| ==> r[i] != 0
    decreases |ps|
  {
    if ps == [] then []
    else
      var last := ps[|ps| - 1];
      NonZero(ps[..|ps| - 1]) + (if last != 0 then [last] else [])
  }

  /** A pointer is listed exactly when it is among the given ones and is not zero. */
  lemma {:induction false} NonZeroMembers(ps: seq<nat>, x: nat)
    ensures x in NonZero(ps) <==> x in ps && x != 0
    decreases |ps|
  {
    if ps != [] {
      var front := ps[..|ps| - 1];
      NonZeroMembers(front, x);
      assert ps == front + [ps[|ps| - 1]];
    }
  }

  /**
    What the run needs from the image: the inode number is not num_inodes,
    which stat's range check would let through, and for a regular file of
    positive size, size + BS - 1 does not overflow an int.
  */
  predicate Catable(blocks: seq<Block>, n: int)
    requires ImageOk(blocks)
  {
    && n != NumInodes(blocks)
    && (!OutOfRange(blocks, n) && InodeOf(blocks, n).fileType == UFS_REGULAR_FILE ==>
          InodeOf(blocks, n).size <= INT32_MAX - (UFS_BLOCK_SIZE - 1))
  }

  /**
    The buffer after read: the bytes read, the rest of it (taken as zeros),
    and the terminator at index size.
  */
  function CatBuffer(blocks: seq<Block>, n: int, size: int): (b: seq<byte>)
    requires ImageOk(blocks) && n != NumInodes(blocks) && ReadResult(blocks, n, size) >= 0
    ensures |b| == size + 1 && b[size] == 0
  {
    ReadOutcomes(blocks, n, size);
    ReadData(blocks, n, size) + seq(size - ReadResult(blocks, n, size), _ => 0) + [0]
  }

  /** What ds3cat prints for inode n. */
  function CatOutcome(blocks: seq<Block>, n: int): (r: CatOutput)
    requires ImageOk(blocks) && Catable(blocks, n)
    ensures r.CatOk? ==> |r.blockNums| <= DIRECT_PTRS && forall i :: 0 <= i < |r.blockNums| ==> r.blockNums[i] != 0
    ensures r.CatOk? ==> forall i :: 0 <= i < |r.text| ==> r.text[i] != 0
  {
    if OutOfRange(blocks, n) then CatFailure
    else
      var ino := InodeOf(blocks, n);
      if ino.fileType != UFS_REGULAR_FILE || ino.size <= 0 then CatFailure
      else if ReadResult(blocks, n, ino.size) < 0 then CatFailure
      else CatOk(NonZero(ino.direct[..Min(DIRECT_PTRS, Chunks(ino.size))]), CString(CatBuffer(blocks, n, ino.size)))
  }

  /**
    ds3cat fails exactly when stat fails, the inode is not a regular file,
    its size is not positive, or read rejects that size.
  */
  lemma CatFailureCases(blocks: seq<Block>, n: int)
    requires ImageOk(blocks) && Catable(blocks, n)
    ensures CatOutcome(blocks, n).CatFailure? <==>
      || OutOfRange(blocks, n)
      || InodeOf(blocks, n).fileType != UFS_REGULAR_FILE
      || InodeOf(blocks, n).size <= 0
      || InodeOf(blocks, n).size > MAX_FILE_SIZE
  {
    if !OutOfRange(blocks, n) {
      ReadOutcomes(blocks, n, InodeOf(blocks, n).size);
    }
  }

  /**
    The block list: the non-zero pointers among the first
    min(DIRECT_PTRS, ceil(size / BS)), in order, so no longer than that.
  */
  lemma CatBlockList(blocks: seq<Block>, n: int)
    requires ImageOk(blocks) && Catable(blocks, n)
    ensures var out := CatOutcome(blocks, n);
      out.CatOk? ==>
        var ino := InodeOf(blocks, n);
        var required := Chunks(ino.size);
        && (required - 1) * UFS_BLOCK_SIZE < ino.size <= required * UFS_BLOCK_SIZE
        && |out.blockNums| <= Min(DIRECT_PTRS, required)
        && (forall i :: 0 <= i < |out.blockNums| ==> out.blockNums[i] != 0)
        && (forall x :: x in out.blockNums <==> x in ino.direct[..Min(DIRECT_PTRS, required)] && x != 0)
  {
    var out := CatOutcome(blocks, n);
    if out.CatOk? {
      var ino := InodeOf(blocks, n);
      forall x
        ensures x in out.blockNums <==> x in ino.direct[..Min(DIRECT_PTRS, Chunks(ino.size))] && x != 0
      {
        NonZeroMembers(ino.direct[..Min(DIRECT_PTRS, Chunks(ino.size))], x);
      }
    }
  }

  /**
    The text printed is the file's data up to its first NUL: when the
    data read has no NUL and read returned the whole size, exactly the
    file's size bytes.
  */
  lemma CatText(blocks: seq<Block>, n: int)
    requires ImageOk(blocks) && Catable(blocks, n)
    ensures var out := CatOutcome(blocks, n);
      out.CatOk? ==>
        var size := InodeOf(blocks, n).size;
        var data := ReadData(blocks, n, size);
        && out.text == CString(data + [0])
        && (ReadResult(blocks, n, size) == size && (forall i :: 0 <= i < |data| ==> data[i] != 0) ==>
              out.text == data)
  {
    var out := CatOutcome(blocks, n);
    if out.CatOk? {
      var size := InodeOf(blocks, n).size;
      CatBufferText(blocks, n, size);
      var data := ReadData(blocks, n, size);
      if forall i :: 0 <= i < |data| ==> data[i] != 0 {
        CStringWhole(data);
      }
    }
  }

  /** The zeros after the bytes read and the terminator all end the text at the same place. */
  lemma CatBufferText(blocks: seq<Block>, n: int, size: int)
    requires ImageOk(blocks) && n != NumInodes(blocks) && ReadResult(blocks, n, size) >= 0
    ensures CString(CatBuffer(blocks, n, size)) == CString(ReadData(blocks, n, size) + [0])
  {
    ReadOutcomes(blocks, n, size);
    var data := ReadData(blocks, n, size);
    var tail := seq(size - ReadResult(blocks, n, size), _ => 0) + [0];
    assert CatBuffer(blocks, n, size) == data + tail;
    assert tail == [0] + tail[1..];
    assert data + tail == data + [0] + tail[1..];
    CStringStops(data, tail[1..]);
  }

  /** A C string ends at the first NUL, whatever follows it. */
  lemma {:induction false} CStringStops(s: seq<byte>, rest: seq<byte>)
    ensures CString(s + [0] + rest) == CString(s + [0])
    decreases |s|
  {
    if s != [] && s[0] != 0 {
      assert (s + [0] + rest)[1..] == s[1..] + [0] + rest;
      assert (s + [0])[1..] == s[1..] + [0];
      CStringStops(s[1..], rest);
    }
  }

  /** A field with no NUL before the terminator is read whole. */
  lemma {:induction false} CStringWhole(s: seq<byte>)
    requires forall i :: 0 <= i < |s| ==> s[i] != 0
    ensures CString(s + [0]) == s
    decreases |s|
  {
    if s != [] {
      assert (s + [0])[1..] == s[1..] + [0];
      CStringWhole(s[1..]);
    }
  }

  /** The "Get file blocks" loop: the non-zero pointers among the first min(DIRECT_PTRS, requiredBlocks). */
  method FileBlocks(direct: seq<nat>, requiredBlocks: int) returns (blockNums: seq<nat>)
    requires |direct| == DIRECT_PTRS
    ensures blockNums == NonZero(direct[..Max(0, Min(DIRECT_PTRS, requiredBlocks))])
  {
    blockNums := [];
    var i := 0;
    while i < DIRECT_PTRS && i < requiredBlocks
      invariant 0 <= i <= Max(0, Min(DIRECT_PTRS, requiredBlocks))
      invariant blockNums == NonZero(direct[..i])
    {
      assert direct[..i + 1][..i] == direct[..i];
      if direct[i] != 0 {
        blockNums := blockNums + [direct[i]];
      }
      i := i + 1;
    }
  }

  /**
    The "Get file data" step: a buffer of size + 1 bytes, its last byte
    the terminator, filled by read.
  */
  method ReadIntoBuffer(fileSystem: LocalFileSystem, inodeNumber: int, size: int)
    returns (readResult: int, buffer: array<byte>)
    requires ImageOk(fileSystem.disk.blocks) && inodeNumber != NumInodes(fileSystem.disk.blocks)
    requires 0 <= size
    ensures readResult == ReadResult(fileSystem.disk.blocks, inodeNumber, size)
    ensures readResult >= 0 ==> buffer[..] == CatBuffer(fileSystem.disk.blocks, inodeNumber, size)
  {
    buffer := new byte[size + 1](_ => 0);
    buffer[size] := 0;
    readResult := fileSystem.Read(inodeNumber, buffer, size);
    if readResult >= 0 {
      ghost var blocks := fileSystem.disk.blocks;
      assert buffer[..readResult] == ReadData(blocks, inodeNumber, size);
      assert buffer[readResult..size] == seq(size - readResult, _ => 0);
      assert buffer[..] == buffer[..readResult] + buffer[readResult..size] + [buffer[size]];
    }
  }

  /**
    main of ds3cat, from the parsed inode number on: stat and check, the
    block list, then the data read into a buffer of size + 1 bytes whose
    last byte is the terminator.
  */
  method Ds3catMain(fileSystem: LocalFileSystem, inodeNumber: int) returns (out: CatOutput)
    requires ImageOk(fileSystem.disk.blocks) && Catable(fileSystem.disk.blocks, inodeNumber)
    ensures out == CatOutcome(fileSystem.disk.blocks, inodeNumber)
  {
    var statResult, inode := fileSystem.Stat(inodeNumber);
    if statResult < 0 || inode.fileType != UFS_REGULAR_FILE || inode.size <= 0 {
      return CatFailure;
    }
    out := CatRegularFile(fileSystem, inodeNumber, inode);
  }

  /** From "Get file blocks" on, for a regular file of positive size that stat found. */
  method CatRegularFile(fileSystem: LocalFileSystem, inodeNumber: int, inode: Inode) returns (out: CatOutput)
    requires ImageOk(fileSystem.disk.blocks) && Catable(fileSystem.disk.blocks, inodeNumber)
    requires !OutOfRange(fileSystem.disk.blocks, inodeNumber)
    requires inode == InodeOf(fileSystem.disk.blocks, inodeNumber)
    requires inode.fileType == UFS_REGULAR_FILE && inode.size > 0
    ensures out == CatOutcome(fileSystem.disk.blocks, inodeNumber)
  {
    var requiredBlocks := (inode.size + UFS_BLOCK_SIZE - 1) / UFS_BLOCK_SIZE;
    var blockNums := FileBlocks(inode.direct, requiredBlocks);
    var readResult, buffer := ReadIntoBuffer(fileSystem, inodeNumber, inode.size);
    if readResult < 0 {
      return CatFailure;
    }
    out := CatOk(blockNums, CString(buffer[..]));
  }

}
