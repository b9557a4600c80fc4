# A verified model of the gunrock_web file-system layer

This project models the inode-based file system of `project4/gunrock_web`. The disk image is an array of 4096-byte blocks. Block 0 holds the superblock. The superblock gives the addresses and lengths of the inode bitmap, the data bitmap and the inode region. An inode has a type, a size and 30 direct block pointers. A directory's content is an array of 32-byte entries. Each entry holds a 28-byte name and an inode number, and -1 marks a free slot.

The model covers three pieces:

- **`LocalFileSystem`** (`local_file_system.dfy`), the class over a block device. It has the superblock read, the bitmap and inode-region copies, `stat`, `lookup`, `read`, `write`, the validation part of `create`, and `unlink`.
- **`ds3ls`** (`ds3ls.dfy`). It resolves a path from the root one segment at a time, then lists the directory's used entries sorted by `strcmp`, or prints a regular file's inode number and last path component.
- **`ds3cat`** (`ds3cat.dfy`). It lists a regular file's non-zero block pointers among the blocks its size needs, and prints its data from a NUL-terminated buffer.

Each operation is a method on the disk state. Its `ensures` ties the result, and the new disk, to a function of the old image. Those functions are defined in `image.dfy`, with the byte and block algebra in `ufs.dfy` and `blocks.dfy`. The properties the code promises are lemmas about the functions. `write_effects.dfy` covers where write's bytes land, which blocks it leaves alone, the size update, and reading back what was written.

Where the code and the intended design of the file system disagree, the model follows the code:

- `lookup` scans only the block that `read(parent, block, 4096)` returns, on every iteration. That is always `direct[0]`, never the whole directory.
- `write` allocates nothing. It writes through `direct[c]` even when that pointer is 0, which is the superblock.
- A size over `MAX_FILE_SIZE` is `-EINVALIDSIZE`, so `write`'s `-ENOTENOUGHSPACE` branch is never taken.
- `create` stops after validation and returns 0.
- `unlink` returns 0 and does nothing.

The typos in the source (`node`, `bytesWriten`, `parentInodeNum`, `parentInode.size()`) are read as the identifiers they evidently mean.

## Model

| member | source | states |
|---|---|---|
| Ufs.I32RoundTrip | project4/gunrock_web/LocalFileSystem.cpp:311-313 | an int stored into a record's bytes reads back as the same int |
| Ufs.CString | project4/gunrock_web/LocalFileSystem.cpp:90 | a name field as `std::string`/`strcmp` see it: the longest prefix without NUL, stopping at the first NUL |
| Blocks.GatherAt | project4/gunrock_web/LocalFileSystem.cpp:24-28 | byte k of a buffer filled block by block from a list of blocks is byte k % BS of block list[k / BS] |
| Blocks.ScatterFrame | project4/gunrock_web/LocalFileSystem.cpp:290-308 | a block that no written chunk names keeps its contents |
| Blocks.ScatterAt | project4/gunrock_web/LocalFileSystem.cpp:290-308 | with distinct targets, block ptrs[c] holds data byte c*BS+o at offset o where the data reaches, and its old byte elsewhere (read-modify-write) |
| Blocks.GatherScatter | project4/gunrock_web/LocalFileSystem.cpp:54-58 | reading back blocks just written whole through distinct pointers gives the data written |
| Blocks.RegionContents | project4/gunrock_web/LocalFileSystem.cpp:30-34 | after a region write, block addr+i holds buffer bytes [i*BS, (i+1)*BS) and every other block is unchanged |
| Blocks.RegionRoundTrip | project4/gunrock_web/LocalFileSystem.cpp:24-58 | reading a region back after writing it whole returns the buffer written |
| Blocks.RegionPrefix | project4/gunrock_web/LocalFileSystem.cpp:30-34 | after the first j blocks of a region are written, each of them holds its chunk of the buffer |
| Image.GuardAdmitsTableEnd | project4/gunrock_web/LocalFileSystem.cpp:120-134 | the range check of stat/read/write lets num_inodes through although the table has no record there; lookup's `>= num_inodes` check rejects it as a directory |
| Image.ReadResult | project4/gunrock_web/LocalFileSystem.cpp:136-206 | read's result: -EINVALIDINODE or -EINVALIDSIZE on error, otherwise at most size, and either all of size or a whole number of blocks |
| Image.ReadData | project4/gunrock_web/LocalFileSystem.cpp:175-196 | the bytes read copies: exactly as many as read returns |
| Image.ReadOutcomes | project4/gunrock_web/LocalFileSystem.cpp:136-206 | read returns -EINVALIDINODE for a bad number or a type that is neither directory nor file, -EINVALIDSIZE for size outside [0, MAX_FILE_SIZE], else a count r with 0 <= r <= size |
| Image.ReadDataAt | project4/gunrock_web/LocalFileSystem.cpp:175-196 | byte k < r of what read copies is byte k % BS of block direct[k / BS], and that pointer is not zero |
| Image.ReadStopsAtFirstHole | project4/gunrock_web/LocalFileSystem.cpp:175-196 | a short read is a whole number of blocks, ending at the first zero pointer or after the last direct pointer |
| Image.FirstMatch | project4/gunrock_web/LocalFileSystem.cpp:88-95 | the first slot that is in use and whose name equals the name looked up; no earlier slot matches, and None means no slot matches |
| Image.FirstBlockRead | project4/gunrock_web/LocalFileSystem.cpp:77-79 | lookup's read of BS bytes of a directory with direct[0] != 0 returns BS and exactly block direct[0] |
| Image.LookupInFirstBlock | project4/gunrock_web/LocalFileSystem.cpp:77-96 | lookup's answer is decided by the 128 entries of block direct[0] alone |
| Image.LookupResult | project4/gunrock_web/LocalFileSystem.cpp:60-117 | lookup's result: -EINVALIDINODE when the parent is not a directory; otherwise -ENOTFOUND or the inum of one of the scanned slots |
| Image.LookupOutcomes | project4/gunrock_web/LocalFileSystem.cpp:60-117 | lookup returns -EINVALIDINODE for a parent outside [0, num_inodes) or not a directory; else the inum of a scanned in-use slot with exactly that name when one exists; else -ENOTFOUND |
| Image.WriteResult | project4/gunrock_web/LocalFileSystem.cpp:264-285 | write's result: one of -EINVALIDINODE, -EINVALIDSIZE, -EINVALIDTYPE, or size itself, never over MAX_FILE_SIZE |
| Image.WriteDisk | project4/gunrock_web/LocalFileSystem.cpp:287-314 | the disk after a successful write has the same number of blocks (its contents are stated by the WriteEffects lemmas) |
| Image.WriteOutcomes | project4/gunrock_web/LocalFileSystem.cpp:264-285 | write returns -EINVALIDINODE, then -EINVALIDSIZE, then -EINVALIDTYPE for a non-regular inode, otherwise size |
| Image.CreateResult | project4/gunrock_web/LocalFileSystem.cpp:208-262 | create's result is 0 or one of -EINVALIDNAME, -EINVALIDINODE, -ENOTENOUGHSPACE, -EINVALIDTYPE; 0 only for a name that fits and a directory or regular-file type |
| Image.CreateOutcomes | project4/gunrock_web/LocalFileSystem.cpp:208-262 | create returns -EINVALIDNAME exactly for a name longer than DIR_ENT_NAME_SIZE; for a name that fits, -EINVALIDINODE when the parent fails stat, is not a directory or has size <= 0; for a non-empty directory parent, 0 for a directory or file type and -EINVALIDTYPE otherwise; -ENOTENOUGHSPACE when the parent's read fails |
| Image.Chunks | project4/gunrock_web/ds3cat.cpp:39 | ceil(size / BS): the least c with size <= c * BS |
| BlockDevice.Disk.constructor | project4/gunrock_web/LocalFileSystem.cpp:13-15 | the device holds the given image |
| BlockDevice.Disk.ReadBlock | project4/gunrock_web/LocalFileSystem.cpp:19 | readBlock copies block `index` into the buffer at the offset and changes no other byte |
| BlockDevice.Disk.WriteBlock | project4/gunrock_web/LocalFileSystem.cpp:32 | writeBlock replaces block `index` with the buffer's BS bytes at the offset, and only that block |
| BlockDevice.Copy | project4/gunrock_web/LocalFileSystem.cpp:166 | memcpy: the destination range equals the source range and nothing else in the destination changes |
| BlockDevice.StoreI32 | project4/gunrock_web/LocalFileSystem.cpp:312 | the store of an int field changes exactly its four bytes, to the int's little-endian encoding |
| LocalFs.LocalFileSystem.constructor | project4/gunrock_web/LocalFileSystem.cpp:13-15 | the layer works on the given disk |
| LocalFs.LocalFileSystem.ReadSuperBlock | project4/gunrock_web/LocalFileSystem.cpp:17-22 | the superblock is the record decoded from the front of block 0 |
| LocalFs.LocalFileSystem.ReadRegion | project4/gunrock_web/LocalFileSystem.cpp:24-28 | the buffer's first len*BS bytes are blocks addr..addr+len-1 in order, and the rest of the buffer is unchanged |
| LocalFs.LocalFileSystem.WriteRegion | project4/gunrock_web/LocalFileSystem.cpp:30-34 | block addr+i becomes buffer bytes [i*BS, (i+1)*BS) for i < len; no other block changes |
| LocalFs.LocalFileSystem.ReadInodeBitmap | project4/gunrock_web/LocalFileSystem.cpp:24-28 | the buffer receives the inode-bitmap region |
| LocalFs.LocalFileSystem.WriteInodeBitmap | project4/gunrock_web/LocalFileSystem.cpp:30-34 | the inode-bitmap blocks take the buffer's chunks; no other block changes |
| LocalFs.LocalFileSystem.ReadDataBitmap | project4/gunrock_web/LocalFileSystem.cpp:36-40 | the buffer receives the data-bitmap region |
| LocalFs.LocalFileSystem.WriteDataBitmap | project4/gunrock_web/LocalFileSystem.cpp:42-46 | the data-bitmap blocks take the buffer's chunks; no other block changes |
| LocalFs.LocalFileSystem.ReadInodeRegion | project4/gunrock_web/LocalFileSystem.cpp:48-52 | the buffer receives the inode region, the inode table |
| LocalFs.LocalFileSystem.WriteInodeRegion | project4/gunrock_web/LocalFileSystem.cpp:54-58 | the inode-region blocks take the buffer's chunks; no other block changes |
| LocalFs.LocalFileSystem.LoadInodeTable | project4/gunrock_web/LocalFileSystem.cpp:128-129 | a fresh array of num_inodes records holding the inode table |
| LocalFs.LocalFileSystem.Stat | project4/gunrock_web/LocalFileSystem.cpp:120-134 | -EINVALIDINODE exactly for a negative number or one above num_inodes; otherwise 0 and exactly the stored record; the disk is not modified |
| LocalFs.LocalFileSystem.Read | project4/gunrock_web/LocalFileSystem.cpp:136-206 | returns the specified result and, on success, the bytes of the file's leading blocks in the buffer's first r bytes; the rest of the buffer and the disk are untouched |
| LocalFs.LocalFileSystem.ReadDirectoryBlocks | project4/gunrock_web/LocalFileSystem.cpp:157-173 | whole blocks in pointer order until size bytes or the first zero pointer: min(size, BS * leading blocks) bytes, equal to those blocks' bytes |
| LocalFs.LocalFileSystem.ReadFileBlocks | project4/gunrock_web/LocalFileSystem.cpp:174-197 | the offset / BS, offset % BS walk copies the same min(size, BS * leading blocks) bytes, stopping at the first zero pointer |
| LocalFs.CopyFileBlock | project4/gunrock_web/LocalFileSystem.cpp:185-191 | one copy step of read's file loop extends the buffer's agreement with the file's leading blocks |
| LocalFs.LocalFileSystem.Lookup | project4/gunrock_web/LocalFileSystem.cpp:60-117 | returns the specified lookup result, with read called on the parent on every iteration |
| LocalFs.LocalFileSystem.FindEntry | project4/gunrock_web/LocalFileSystem.cpp:85-95 | the scan of one block's 128 slots finds the first in-use slot whose name equals the name |
| LocalFs.LocalFileSystem.Write | project4/gunrock_web/LocalFileSystem.cpp:264-318 | returns the specified write result; on error the disk is unchanged, on success it is the read-modify-written blocks plus, if the file grew, the inode table with the new size |
| LocalFs.LocalFileSystem.WriteFileBlocks | project4/gunrock_web/LocalFileSystem.cpp:287-308 | writes chunk c of the first size bytes into block direct[c] by read-modify-write, for c < ceil(size / BS), and returns size |
| LocalFs.LocalFileSystem.StoreSize | project4/gunrock_web/LocalFileSystem.cpp:310-314 | the inode table read before the data writes, with record n's size set, is written over the inode region |
| LocalFs.LocalFileSystem.Create | project4/gunrock_web/LocalFileSystem.cpp:208-262 | returns the specified result of create's validation steps |
| LocalFs.LocalFileSystem.Unlink | project4/gunrock_web/LocalFileSystem.cpp:320-324 | returns 0 |
| WriteEffects.Targets | project4/gunrock_web/LocalFileSystem.cpp:290-300 | the pointers write goes through for size bytes: direct[0 .. ceil(size / BS)) |
| WriteEffects.WriteStoresData | project4/gunrock_web/LocalFileSystem.cpp:290-308 | when the target pointers are distinct and, if the file grows, none is in the inode region (a zero pointer, naming the superblock, is allowed), block direct[k / BS] holds input byte k at offset k % BS, and its bytes past the data keep their old value |
| WriteEffects.WriteOutsideInodeRegion | project4/gunrock_web/LocalFileSystem.cpp:310-314 | the size update touches only the inode region: every other block ends as the data writes left it |
| WriteEffects.WriteFrame | project4/gunrock_web/LocalFileSystem.cpp:290-314 | a block that no target names, and that lies outside the inode region when the file grew, is unchanged by write |
| WriteEffects.PatchSizeFields | project4/gunrock_web/LocalFileSystem.cpp:311-312 | setting record n's size changes record n's size only and leaves every other record unchanged |
| WriteEffects.WriteSetsSize | project4/gunrock_web/LocalFileSystem.cpp:310-314 | when no target pointer is zero or in the inode region and the inode region does not start at block 0 (pointers may repeat), after write the inode's size is max(old size, bytes written), so it never shrinks; its type and pointers, every other inode and the superblock are unchanged. A zero pointer or one into the inode region would overwrite the superblock or the table that the size update starts from |
| WriteEffects.WriteThenRead | project4/gunrock_web/LocalFileSystem.cpp:264-318 | with separate target pointers, reading |data| bytes after writing data returns |data| and exactly data |
| WriteEffects.WriteThroughZeroPointer | project4/gunrock_web/LocalFileSystem.cpp:299-305 | a write through a zero direct[0] overwrites the front of block 0, the superblock, with the data |
| Ds3ls.TrimRight | project4/gunrock_web/ds3ls.cpp:35 | the path up to its last byte that is not space, newline, CR or tab; every byte removed is one of those |
| Ds3ls.AfterLastSlash | project4/gunrock_web/ds3ls.cpp:97 | a suffix of the path without '/', preceded by '/' when shorter than the path |
| Ds3ls.NonEmpty | project4/gunrock_web/ds3ls.cpp:41-45 | the segments kept by the traversal are all non-empty |
| Ds3ls.NonEmptyMembers | project4/gunrock_web/ds3ls.cpp:41-45 | a segment is kept exactly when it is one of the path's segments and is not empty: the traversal skips only empty segments |
| Ds3ls.ResolveSkipsEmpty | project4/gunrock_web/ds3ls.cpp:41-45 | resolving the segments gives the same result as resolving only the non-empty ones |
| Ds3ls.ResolveAppend | project4/gunrock_web/ds3ls.cpp:41-54 | resolution is one lookup per segment in order: a + b resolves as a, then b from there, and fails if a fails |
| Ds3ls.Resolve | project4/gunrock_web/ds3ls.cpp:40-54 | the traversal's reference definition: a path made only of empty segments resolves to its start, and a walk that moves ends at a non-negative inode number |
| Ds3ls.Walk | project4/gunrock_web/ds3ls.cpp:37-54 | the traversal loop from the root inode returns the resolution of the segments, None on the first negative lookup |
| Ds3ls.Strcmp | project4/gunrock_web/ds3ls.cpp:20 | strcmp on two names as unsigned bytes: a difference of two bytes, so within [-255, 255], and 0 for equal names |
| Ds3ls.CompareByName | project4/gunrock_web/ds3ls.cpp:19-21 | compareByName puts a before b only when their names differ |
| Ds3ls.StrcmpIsLex | project4/gunrock_web/ds3ls.cpp:19-21 | strcmp(a, b) < 0 exactly when a is lexicographically less than b byte-wise, a proper prefix counting as less |
| Ds3ls.StrcmpSwap | project4/gunrock_web/ds3ls.cpp:19-21 | swapping the arguments of strcmp negates it |
| Ds3ls.StrcmpZero | project4/gunrock_web/ds3ls.cpp:19-21 | strcmp is 0 exactly for equal names |
| Ds3ls.StrcmpTrans | project4/gunrock_web/ds3ls.cpp:19-21 | strcmp < 0 is transitive |
| Ds3ls.CompareByNameOrder | project4/gunrock_web/ds3ls.cpp:19-21 | compareByName is irreflexive and transitive, and two entries are unordered by it exactly when their names are equal: the strict weak order std::sort needs |
| Ds3ls.NotAfterTrans | project4/gunrock_web/ds3ls.cpp:19-21 | "not after" under compareByName is transitive |
| Ds3ls.Occupied | project4/gunrock_web/ds3ls.cpp:80-86 | the kept entries all have inum != -1 and are no more than the slots |
| Ds3ls.OccupiedMembers | project4/gunrock_web/ds3ls.cpp:80-86 | an entry is kept exactly when some slot holds it and its inum != -1 |
| Ds3ls.UsedEntries | project4/gunrock_web/ds3ls.cpp:80-86 | the filter loop over the first size / 32 slots of the buffer keeps exactly the slots in use, in slot order |
| Ds3ls.Insert | project4/gunrock_web/ds3ls.cpp:90 | inserting adds exactly the one entry to the multiset |
| Ds3ls.SortByName | project4/gunrock_web/ds3ls.cpp:90 | the sorted list is a permutation of its input |
| Ds3ls.InsertSorted | project4/gunrock_web/ds3ls.cpp:90 | inserting into a sorted list keeps it sorted by compareByName |
| Ds3ls.SortByNameSorted | project4/gunrock_web/ds3ls.cpp:90 | the sorted list has no entry after one that compareByName puts before it |
| Ds3ls.DirContent | project4/gunrock_web/ds3ls.cpp:71-78 | the directory buffer after read has exactly size bytes |
| Ds3ls.ListDirectory | project4/gunrock_web/ds3ls.cpp:66-94 | Failure when the directory's read fails, else the used slots sorted by name |
| Ds3ls.ListingIsSortedOccupied | project4/gunrock_web/ds3ls.cpp:80-93 | a listing is sorted by name, is a permutation of the used slots among the first size / 32, and holds an entry exactly when such a slot does |
| Ds3ls.FileLineNamesLastComponent | project4/gunrock_web/ds3ls.cpp:94-97 | a regular file prints the resolved inode's number and `substr(find_last_of('/') + 1)` of the trimmed path, which is AfterLastSlash of it |
| Ds3ls.LastComponentShape | project4/gunrock_web/ds3ls.cpp:97 | AfterLastSlash's shape restated for FileLineNamesLastComponent's reader, with the path split around it: the text after the last '/' contains no '/', ends the path, and is preceded by '/' whenever it is shorter than the path |
| Ds3ls.FailureCases | project4/gunrock_web/ds3ls.cpp:41-105 | the tool exits with status 1 exactly when a lookup fails, stat rejects the number, the directory's read fails, or the type is neither directory nor file |
| Ds3ls.Ds3lsOutcome | project4/gunrock_web/ds3ls.cpp:34-105 | the tool's specified output: a regular file's line has a non-negative inode number and a name with no '/' (the listing's properties are stated by ListingIsSortedOccupied) |
| Ds3ls.Ds3lsMain | project4/gunrock_web/ds3ls.cpp:34-105 | the tool's output is the specified listing for the path |
| Ds3cat.NonZero | project4/gunrock_web/ds3cat.cpp:38-44 | the kept pointers are all non-zero and no more than the input |
| Ds3cat.NonZeroMembers | project4/gunrock_web/ds3cat.cpp:38-44 | a pointer is kept exactly when it is among the input and not zero |
| Ds3cat.FileBlocks | project4/gunrock_web/ds3cat.cpp:38-44 | the loop collects the non-zero pointers among direct[0 .. min(DIRECT_PTRS, requiredBlocks)), in order |
| Ds3cat.CatBuffer | project4/gunrock_web/ds3cat.cpp:47-54 | the data buffer has size + 1 bytes and its byte at index size is the terminator |
| Ds3cat.ReadIntoBuffer | project4/gunrock_web/ds3cat.cpp:46-54 | read's result, and on success that buffer |
| Ds3cat.CatFailureCases | project4/gunrock_web/ds3cat.cpp:28-54 | the tool exits with status 1 exactly when stat fails, the type is not a regular file, size <= 0, or read rejects the size |
| Ds3cat.CatBlockList | project4/gunrock_web/ds3cat.cpp:38-44 | requiredBlocks is ceil(size / BS); the list has at most min(DIRECT_PTRS, requiredBlocks) entries, all non-zero, and holds exactly the non-zero pointers of that prefix |
| Ds3cat.CatText | project4/gunrock_web/ds3cat.cpp:47-65 | the printed text is the data read up to its first NUL; with no NUL and a full read, exactly the file's size bytes |
| Ds3cat.CatBufferText | project4/gunrock_web/ds3cat.cpp:47-65 | the zeros after the bytes read and the terminator end the printed text at the same place |
| Ds3cat.CStringStops | project4/gunrock_web/ds3cat.cpp:65 | printing a C string stops at the first NUL, whatever follows it |
| Ds3cat.CStringWhole | project4/gunrock_web/ds3cat.cpp:65 | bytes with no NUL before the terminator are printed whole |
| Ds3cat.CatRegularFile | project4/gunrock_web/ds3cat.cpp:37-65 | for a regular file of positive size, the block list and text, or Failure when read fails |
| Ds3cat.CatOutcome | project4/gunrock_web/ds3cat.cpp:28-65 | the tool's specified output: at most 30 block numbers, none of them 0, and a text with no NUL |
| Ds3cat.Ds3catMain | project4/gunrock_web/ds3cat.cpp:28-65 | the tool's output is the specified outcome for the inode number |

## Left out

- The `Disk` class and its file I/O are not part of this model. The device is a sequence of blocks that `readBlock`/`writeBlock` copy whole.
- Output to `cout`/`cerr` and exit statuses are left out. The tools' results are the `Listing` and `CatOutput` values, with every exit status 1 as the failure value.
- The argument-count checks and `stoi` of the inode number are left out. The tools start from the parsed argument.
- `ufs.h` and `LocalFileSystem.h` are not part of this model. The record layouts (10-int superblock, 128-byte inode, 32-byte entry), the constants and the error-code values 2..7 are the standard ones, assumed.
- `StringUtils::split` is not part of this model. `Ds3ls.Ds3lsMain` takes the splitter as a parameter.
- LocalFs.LocalFileSystem.Stat: the range check `inodeNumber > num_inodes` lets `num_inodes` through and then indexes one past the inode table, which is undefined behaviour. So stat, and `create` and the tools that call it, require the number not to be `num_inodes`.
- LocalFs.LocalFileSystem.Read: requires the number not to be `num_inodes`, for the same off-by-one range check.
- LocalFs.LocalFileSystem.Write: requires the number not to be `num_inodes`, for the same off-by-one range check.
- Image.ImageOk: the geometry the layer trusts without checking is assumed, not modelled as errors. The regions lie on the disk, the inode region holds exactly `num_inodes` records (the size of the `new inode_t[num_inodes]` it is read into), and every direct pointer names a block of the disk.
- Fresh buffers that the code leaves uninitialised are taken as zero-filled: `ds3ls`'s `new unsigned char[size]` and `ds3cat`'s stack buffer past the bytes read. Otherwise their bytes are unspecified.
- Stack and variable-length-array limits (`unsigned char buffer[inode.size + 1]`, the bitmap array in `create`) are left out.
- Ds3cat.Ds3catMain: requires size + 4095 to fit in an int, because `inode.size + UFS_BLOCK_SIZE - 1` overflows otherwise.
- Ds3ls.Ds3lsMain: requires a resolved directory's size to be non-negative, because `new unsigned char[inode.size]` with a negative size throws.
- LocalFs.LocalFileSystem.Create: the source of `create` does not compile as written. It reads into `entries.data()` of an empty vector, and its existing-name loop is written as an `if`. The model reads the parent into a scratch buffer of its size and scans no entries, because the vector stays empty. It reads the inode bitmap into a byte buffer rather than the array of pointers the source declares. The allocation and linking that would follow validation are absent in the source, and so in the model.
- LocalFs.LocalFileSystem.Unlink: a stub in the source, and likewise in the model.
- LocalFs.LocalFileSystem.Lookup: the `bytesRead < 0` branch cannot be taken, since the parent has been checked to be a directory in range. The model proves this instead of modelling that branch.
- LocalFs.LocalFileSystem.WriteFileBlocks: the `-ENOTENOUGHSPACE` branch cannot be taken, because size is at most `MAX_FILE_SIZE`. The model proves this instead of modelling that branch.
- LocalFs.LocalFileSystem.Stat: on an error the caller's record is left as it was in the source. The model returns a zero record, which no caller uses.
- Ds3ls.SortByName: `std::sort` is not stable and leaves the order of entries with equal names unspecified. The model sorts by insertion, which is stable, so `Ds3lsOutcome`, `ListDirectory` and `Ds3lsMain` put such entries in slot order. The source promises only sortedness and the permutation, which `ListingIsSortedOccupied` states.
- Names without a NUL in all 28 bytes are read as all 28 bytes. The source's `strcmp` and string conversions would read past the field.
- Ds3ls.FileLineNamesLastComponent: states the printed name's relation to the trimmed path, not the printing itself.
