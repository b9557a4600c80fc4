/**
  ds3ls: resolve a path from the root directory one segment at a time with
  lookup, then list the resolved directory's entries in use sorted by name,
  or print a regular file's inode number and last path component.

  The path splitter (StringUtils) is not part of this model: it is a
  parameter. What the tool prints is the Listing value it produces, and
  every error exit (status 1) is Failure.
*/
module Ds3ls {
  import opened Ufs
  import opened Image
  import opened LocalFs

  const SLASH: byte := 47

  // ---------------------------------------------------------------------
  // The path argument

  predicate IsBlank(c: byte)
  {
    c == 32 || c == 10 || c == 13 || c == 9
  }

  /**
    erase(find_last_not_of(" \n\r\t") + 1): drops the trailing spaces,
    newlines, carriage returns and tabs; a path made only of those becomes
    empty.
  */
  function TrimRight(s: seq<byte>): (r: seq<byte>)
    ensures |r| <= |s| && r == s[..|r|]
    ensures r == [] || !IsBlank(r[|r| - 1])
    ensures forall i :: |r| <= i < |s| ==> IsBlank(s[i])
  {
    if s != [] && IsBlank(s[|s| - 1]) then TrimRight(s[..|s| - 1]) else s
  }

  /** substr(find_last_of('/') + 1): what follows the last '/', or all of s without one. */
  function AfterLastSlash(s: seq<byte>): (r: seq<byte>)
    ensures |r| <= |s| && r == s[|s| - |r|..]
    ensures forall i :: 0 <= i < |r| ==> r[i] != SLASH
    ensures |r| < |s| ==> s[|s| - |r| - 1] == SLASH
  {
    if s == [] || s[|s| - 1] == SLASH then []
    else AfterLastSlash(s[..|s| - 1]) + [s[|s| - 1]]
  }

  // ---------------------------------------------------------------------
  // Path traversal

  /**
    The inode the segments lead to from `cur`: an empty segment is
    skipped, any other is looked up in the current inode, and a negative
    lookup result ends the walk with None.
  */
  function Resolve(blocks: seq<Block>, items: seq<seq<byte>>, cur: int): (r: Option<int>)
    requires ImageOk(blocks)
    ensures (forall i :: 0 <= i < |items| ==> items[i] == []) ==> r == Some(cur)
    ensures r.Some? && r.value != cur ==> r.value >= 0
    decreases |items|
  {
    if items == [] then Some(cur)
    else if items[0] == [] then Resolve(blocks, items[1..], cur)
    else
      var next := LookupResult(blocks, cur, items[0]);
      if next < 0 then None else Resolve(blocks, items[1..], next)
  }

  /** The segments that are not empty, in order. */
  function NonEmpty(items: seq<seq<byte>>): (r: seq<seq<byte>>)
    ensures forall i :: 0 <= i < |r| ==> r[i] != []
  {
    if items == [] then []
    else if items[0] == [] then NonEmpty(items[1..])
    else [items[0]] + NonEmpty(items[1..])
  }

  /** A segment is kept exactly when it is one of the segments and is not empty. */
  lemma {:induction false} NonEmptyMembers(items: seq<seq<byte>>, s: seq<byte>)
    ensures s in NonEmpty(items) <==> s in items && s != []
    decreases |items|
  {
    if items != [] {
      NonEmptyMembers(items[1..], s);
      assert items == [items[0]] + items[1..];
    }
  }

  /** Empty segments ("//", a leading or trailing '/') change nothing. */
  lemma {:induction false} ResolveSkipsEmpty(blocks: seq<Block>, items: seq<seq<byte>>, cur: int)
    requires ImageOk(blocks)
    ensures Resolve(blocks, items, cur) == Resolve(blocks, NonEmpty(items), cur)
    decreases |items|
  {
    if items != [] {
      var rest := NonEmpty(items[1..]);
      if items[0] == [] {
        ResolveSkipsEmpty(blocks, items[1..], cur);
      } else {
        assert NonEmpty(items) == [items[0]] + rest;
        assert NonEmpty(items)[1..] == rest;
        var next := LookupResult(blocks, cur, items[0]);
        if next >= 0 {
          ResolveSkipsEmpty(blocks, items[1..], next);
        }
      }
    }
  }

  /**
    Resolution is one lookup per segment, in order: resolving a + b is
    resolving a, then b from where a led, and fails if a does.
  */
  lemma {:induction false} ResolveAppend(blocks: seq<Block>, a: seq<seq<byte>>, b: seq<seq<byte>>, cur: int)
    requires ImageOk(blocks)
    ensures Resolve(blocks, a + b, cur)
         == match Resolve(blocks, a, cur)
            case None => None
            case Some(mid) => Resolve(blocks, b, mid)
    decreases |a|
  {
    if a == [] {
      assert a + b == b;
    } else {
      assert (a + b)[0] == a[0] && (a + b)[1..] == a[1..] + b;
      if a[0] == [] {
        ResolveAppend(blocks, a[1..], b, cur);
      } else {
        var next := LookupResult(blocks, cur, a[0]);
        if next >= 0 {
          ResolveAppend(blocks, a[1..], b, next);
        }
      }
    }
  }

  // ---------------------------------------------------------------------
  // Names and their order

  /** A name as strcmp sees it: no NUL before its end. */
  predicate NameOk(s: seq<byte>)
  {
    forall i :: 0 <= i < |s| ==> s[i] != 0
  }

  /**
    strcmp on the bytes of two names before their terminators, as unsigned
    chars: the difference of the first pair of bytes that differ, the end of
    a name counting as the byte 0.
  */
  function Strcmp(a: seq<byte>, b: seq<byte>): (r: int)
    ensures -255 <= r <= 255
    ensures a == b ==> r == 0
    decreases |a|
  {
    if a == [] || b == [] || a[0] != b[0] then
      (if a == [] then 0 else a[0] as int) - (if b == [] then 0 else b[0] as int)
    else Strcmp(a[1..], b[1..])
  }

  /** compareByName: a's name is strictly before b's under strcmp. */
  predicate CompareByName(a: DirEnt, b: DirEnt)
    ensures CompareByName(a, b) ==> a.name != b.name
  {
    Strcmp(a.name, b.name) < 0
  }

  /**
    The byte-wise lexicographic order: a is a proper prefix of b, or has the
    smaller byte where the two first differ.
  */
  ghost predicate LexLess(a: seq<byte>, b: seq<byte>)
  {
    exists k :: 0 <= k <= |a| && k <= |b| && a[..k] == b[..k]
      && (if k == |a| then k < |b| else k < |b| && a[k] < b[k])
  }

  lemma PrefixAgrees(a: seq<byte>, b: seq<byte>, k: nat)
    requires k <= |a| && k <= |b| && a[..k] == b[..k]
    ensures forall i :: 0 <= i < k ==> a[i] == b[i]
  {
    forall i | 0 <= i < k
      ensures a[i] == b[i]
    {
      assert a[i] == a[..k][i];
    }
  }

  /** strcmp < 0 is exactly the lexicographic order on names. */
  lemma {:induction false} StrcmpIsLex(a: seq<byte>, b: seq<byte>)
    requires NameOk(b)
    ensures Strcmp(a, b) < 0 <==> LexLess(a, b)
    decreases |a|
  {
    if a == [] || b == [] || a[0] != b[0] {
      if Strcmp(a, b) < 0 {
        assert a[..0] == b[..0];
      }
      if LexLess(a, b) {
        var k :| 0 <= k <= |a| && k <= |b| && a[..k] == b[..k]
          && (if k == |a| then k < |b| else k < |b| && a[k] < b[k]);
        PrefixAgrees(a, b, k);
      }
    } else {
      StrcmpIsLex(a[1..], b[1..]);
      if LexLess(a[1..], b[1..]) {
        var k :| 0 <= k <= |a[1..]| && k <= |b[1..]| && a[1..][..k] == b[1..][..k]
          && (if k == |a[1..]| then k < |b[1..]| else k < |b[1..]| && a[1..][k] < b[1..][k]);
        assert a[..k + 1] == [a[0]] + a[1..][..k];
        assert b[..k + 1] == [b[0]] + b[1..][..k];
      }
      if LexLess(a, b) {
        var k :| 0 <= k <= |a| && k <= |b| && a[..k] == b[..k]
          && (if k == |a| then k < |b| else k < |b| && a[k] < b[k]);
        assert k > 0;
        assert a[1..][..k - 1] == a[..k][1..] == b[..k][1..] == b[1..][..k - 1];
      }
    }
  }

  /** Swapping the arguments negates strcmp. */
  lemma {:induction false} StrcmpSwap(a: seq<byte>, b: seq<byte>)
    ensures Strcmp(b, a) == -Strcmp(a, b)
    decreases |a|
  {
    if a != [] && b != [] && a[0] == b[0] {
      StrcmpSwap(a[1..], b[1..]);
    }
  }

  /** strcmp is 0 exactly for equal names. */
  lemma {:induction false} StrcmpZero(a: seq<byte>, b: seq<byte>)
    requires NameOk(a) && NameOk(b)
    ensures Strcmp(a, b) == 0 <==> a == b
    decreases |a|
  {
    if a != [] && b != [] && a[0] == b[0] {
      StrcmpZero(a[1..], b[1..]);
      assert a == [a[0]] + a[1..] && b == [b[0]] + b[1..];
    }
  }

  lemma {:induction false} StrcmpTrans(a: seq<byte>, b: seq<byte>, c: seq<byte>)
    requires NameOk(a) && NameOk(b) && NameOk(c)
    requires Strcmp(a, b) < 0 && Strcmp(b, c) < 0
    ensures Strcmp(a, c) < 0
    decreases |a|
  {
    if a != [] && b != [] && c != [] && a[0] == b[0] == c[0] {
      StrcmpTrans(a[1..], b[1..], c[1..]);
    }
  }

  /**
    compareByName is a strict weak order, as std::sort requires: never
    x before x, transitive, and two entries neither of which is before the
    other have the same name.
  */
  lemma CompareByNameOrder(x: DirEnt, y: DirEnt, z: DirEnt)
    requires NameOk(x.name) && NameOk(y.name) && NameOk(z.name)
    ensures !CompareByName(x, x)
    ensures CompareByName(x, y) && CompareByName(y, z) ==> CompareByName(x, z)
    ensures !CompareByName(x, y) && !CompareByName(y, x) <==> x.name == y.name
  {
    StrcmpSwap(x.name, x.name);
    StrcmpSwap(x.name, y.name);
    StrcmpZero(x.name, y.name);
    if CompareByName(x, y) && CompareByName(y, z) {
      StrcmpTrans(x.name, y.name, z.name);
    }
  }

  /** x not after y and y not after z: x not after z. */
  lemma NotAfterTrans(x: DirEnt, y: DirEnt, z: DirEnt)
    requires NameOk(x.name) && NameOk(y.name) && NameOk(z.name)
    requires !CompareByName(y, x) && !CompareByName(z, y)
    ensures !CompareByName(z, x)
  {
    StrcmpSwap(x.name, y.name);
    StrcmpSwap(y.name, z.name);
    StrcmpSwap(x.name, z.name);
    StrcmpZero(x.name, y.name);
    StrcmpZero(y.name, z.name);
    if Strcmp(x.name, y.name) < 0 && Strcmp(y.name, z.name) < 0 {
      StrcmpTrans(x.name, y.name, z.name);
    }
  }

  // ---------------------------------------------------------------------
  // Entries: filter and sort

  /** The slots in use (inum != -1), in slot order. */
  function Occupied(es: seq<DirEnt>): (r: seq<DirEnt>)
    ensures |r| <= |es|
    ensures forall i :: 0 <= i < |r| ==> r[i].inum != FREE_INUM
    decreases |es|
  {
    if es == [] then []
    else
      var last := es[|es| - 1];
      Occupied(es[..|es| - 1]) + (if last.inum != FREE_INUM then [last] else [])
  }

  /** An entry is listed exactly when some slot holds it and that slot is in use. */
  lemma {:induction false} OccupiedMembers(es: seq<DirEnt>, x: DirEnt)
    ensures x in Occupied(es) <==> x in es && x.inum != FREE_INUM
    decreases |es|
  {
    if es != [] {
      var front := es[..|es| - 1];
      OccupiedMembers(front, x);
      assert es == front + [es[|es| - 1]];
    }
  }

  predicate NamesOk(es: seq<DirEnt>)
  {
    forall i :: 0 <= i < |es| ==> NameOk(es[i].name)
  }

  /** No entry comes after one that compareByName puts before it. */
  predicate Sorted(es: seq<DirEnt>)
  {
    forall i, j :: 0 <= i < j < |es| ==> !CompareByName(es[j], es[i])
  }

  /** Places e in front of the first element that is not before it. */
  function Insert(e: DirEnt, s: seq<DirEnt>): (r: seq<DirEnt>)
    ensures multiset(r) == multiset(s) + multiset{e}
  {
    if s == [] || !CompareByName(s[0], e) then [e] + s
    else
      assert s == [s[0]] + s[1..];
      [s[0]] + Insert(e, s[1..])
  }

  /**
    The order std::sort leaves the entries in, up to the order of equal
    names, which sort does not fix: insertion by compareByName.
  */
  function SortByName(es: seq<DirEnt>): (r: seq<DirEnt>)
    ensures multiset(r) == multiset(es)
  {
    if es == [] then []
    else
      assert es == [es[0]] + es[1..];
      Insert(es[0], SortByName(es[1..]))
  }

  lemma {:induction false} InsertSorted(e: DirEnt, s: seq<DirEnt>)
    requires NamesOk(s) && NameOk(e.name) && Sorted(s)
    ensures Sorted(Insert(e, s))
    decreases |s|
  {
    var r := Insert(e, s);
    if s == [] || !CompareByName(s[0], e) {
      forall j | 1 <= j < |r|
        ensures !CompareByName(r[j], r[0])
      {
        if j > 1 {
          NotAfterTrans(e, s[0], s[j - 1]);
        }
      }
    } else {
      InsertSorted(e, s[1..]);
      var rest := Insert(e, s[1..]);
      forall j | 0 <= j < |rest|
        ensures !CompareByName(rest[j], s[0])
      {
        assert rest[j] in multiset(rest);
        if rest[j] == e {
          CompareByNameOrder(s[0], e, e);
          StrcmpSwap(s[0].name, e.name);
        } else {
          assert rest[j] in s[1..];
          var k :| 0 <= k < |s[1..]| && s[1..][k] == rest[j];
          assert s[k + 1] == rest[j];
        }
      }
    }
  }

  lemma {:induction false} SortByNameSorted(es: seq<DirEnt>)
    requires NamesOk(es)
    ensures Sorted(SortByName(es))
    decreases |es|
  {
    if es != [] {
      SortByNameSorted(es[1..]);
      var sorted := SortByName(es[1..]);
      forall i | 0 <= i < |sorted|
        ensures NameOk(sorted[i].name)
      {
        assert sorted[i] in multiset(es[1..]);
        var k :| 0 <= k < |es[1..]| && es[1..][k] == sorted[i];
      }
      InsertSorted(es[0], sorted);
    }
  }

  // ---------------------------------------------------------------------
  // The tool

  datatype Listing =
    | Entries(entries: seq<DirEnt>)        // one "inum\tname" line per entry
    | FileLine(inum: int, name: seq<byte>) // "inum\tname" for a regular file
    | Failure                              // "Directory not found", exit status 1

  /**
    The buffer ds3ls hands to read, after the call: the bytes read, then
    the rest of the fresh buffer, taken as zeros.
  */
  function DirContent(blocks: seq<Block>, n: int, size: int): (c: seq<byte>)
    requires ImageOk(blocks) && n != NumInodes(blocks) && ReadResult(blocks, n, size) >= 0
    ensures |c| == size
  {
    ReadOutcomes(blocks, n, size);
    ReadData(blocks, n, size) + seq(size - ReadResult(blocks, n, size), _ => 0)
  }

  /** The first size / sizeof(dir_ent_t) slots of the directory. */
  function Slots(blocks: seq<Block>, n: int): (es: seq<DirEnt>)
    requires ImageOk(blocks) && 0 <= n < NumInodes(blocks)
    requires ReadResult(blocks, n, InodeOf(blocks, n).size) >= 0
  {
    var size := InodeOf(blocks, n).size;
    DirEntries(DirContent(blocks, n, size), size / DIR_ENT_SIZE)
  }

  /**
    What the run needs from the image: the resolved inode is not
    num_inodes, which stat's range check would let through, and a resolved
    directory has a size that the buffer allocation accepts.
  */
  predicate Listable(blocks: seq<Block>, path: seq<byte>, split: seq<byte> -> seq<seq<byte>>)
    requires ImageOk(blocks)
  {
    match Resolve(blocks, split(TrimRight(path)), UFS_ROOT_DIRECTORY_INODE_NUMBER)
    case None => true
    case Some(n) =>
      && n != NumInodes(blocks)
      && (IsDirectory(blocks, n) ==> InodeOf(blocks, n).size >= 0)
  }

  /** What ds3ls prints for `path`, given the image and the splitter. */
  function Ds3lsOutcome(blocks: seq<Block>, path: seq<byte>, split: seq<byte> -> seq<seq<byte>>): (r: Listing)
    requires ImageOk(blocks) && Listable(blocks, path, split)
    ensures r.FileLine? ==> r.inum >= 0 && forall i :: 0 <= i < |r.name| ==> r.name[i] != SLASH
  {
    var directoryPath := TrimRight(path);
    match Resolve(blocks, split(directoryPath), UFS_ROOT_DIRECTORY_INODE_NUMBER)
    case None => Failure
    case Some(n) =>
      if OutOfRange(blocks, n) then Failure
      else
        var ino := InodeOf(blocks, n);
        if ino.fileType == UFS_DIRECTORY then
          if ReadResult(blocks, n, ino.size) < 0 then Failure
          else Entries(SortByName(Occupied(Slots(blocks, n))))
        else if ino.fileType == UFS_REGULAR_FILE then FileLine(n, AfterLastSlash(directoryPath))
        else Failure
  }

  /**
    A listing holds exactly the slots in use of the resolved directory,
    each once per slot, sorted by name.
  */
  lemma ListingIsSortedOccupied(blocks: seq<Block>, path: seq<byte>, split: seq<byte> -> seq<seq<byte>>)
    requires ImageOk(blocks) && Listable(blocks, path, split)
    ensures var out := Ds3lsOutcome(blocks, path, split);
      out.Entries? ==>
        var n := Resolve(blocks, split(TrimRight(path)), UFS_ROOT_DIRECTORY_INODE_NUMBER).value;
        && IsDirectory(blocks, n)
        && Sorted(out.entries)
        && multiset(out.entries) == multiset(Occupied(Slots(blocks, n)))
        && forall x :: x in out.entries <==> x in Slots(blocks, n) && x.inum != FREE_INUM
  {
    var out := Ds3lsOutcome(blocks, path, split);
    if out.Entries? {
      var n := Resolve(blocks, split(TrimRight(path)), UFS_ROOT_DIRECTORY_INODE_NUMBER).value;
      var slots := Slots(blocks, n);
      var used := Occupied(slots);
      forall i | 0 <= i < |used|
        ensures NameOk(used[i].name)
      {
        OccupiedMembers(slots, used[i]);
        var k :| 0 <= k < |slots| && slots[k] == used[i];
      }
      SortByNameSorted(used);
      forall x
        ensures x in out.entries <==> x in slots && x.inum != FREE_INUM
      {
        assert x in out.entries <==> x in multiset(out.entries);
        OccupiedMembers(slots, x);
      }
    }
  }

  /**
    A path that resolves to a regular file prints that inode's number and
    the text after the path's last '/', trailing blanks removed.
  */
  lemma FileLineNamesLastComponent(blocks: seq<Block>, path: seq<byte>, split: seq<byte> -> seq<seq<byte>>)
    requires ImageOk(blocks) && Listable(blocks, path, split)
    ensures var out := Ds3lsOutcome(blocks, path, split);
      out.FileLine? ==>
        && Resolve(blocks, split(TrimRight(path)), UFS_ROOT_DIRECTORY_INODE_NUMBER) == Some(out.inum)
        && 0 <= out.inum < NumInodes(blocks)
        && InodeOf(blocks, out.inum).fileType == UFS_REGULAR_FILE
        && out.name == AfterLastSlash(TrimRight(path))
  {
  }

  /**
    AfterLastSlash(p) is the part of p after its last '/': a suffix of p
    with no '/', preceded by '/' whenever it is shorter than p.
  */
  lemma LastComponentShape(p: seq<byte>)
    ensures var name := AfterLastSlash(p);
      && SLASH !in name
      && p == p[..|p| - |name|] + name
      && (|name| < |p| ==> p[|p| - |name| - 1] == SLASH)
  {
    var name := AfterLastSlash(p);
    assert p == p[..|p| - |name|] + p[|p| - |name|..];
  }

  /**
    ds3ls fails exactly when a segment's lookup fails, stat rejects the
    resolved number, the directory's read fails, or the inode is neither a
    directory nor a regular file.
  */
  lemma FailureCases(blocks: seq<Block>, path: seq<byte>, split: seq<byte> -> seq<seq<byte>>)
    requires ImageOk(blocks) && Listable(blocks, path, split)
    ensures var r := Resolve(blocks, split(TrimRight(path)), UFS_ROOT_DIRECTORY_INODE_NUMBER);
      Ds3lsOutcome(blocks, path, split).Failure? <==>
        || r.None?
        || OutOfRange(blocks, r.value)
        || (IsDirectory(blocks, r.value) && InodeOf(blocks, r.value).size > MAX_FILE_SIZE)
        || !ReadableType(InodeOf(blocks, r.value).fileType)
  {
    var r := Resolve(blocks, split(TrimRight(path)), UFS_ROOT_DIRECTORY_INODE_NUMBER);
    if r.Some? && !OutOfRange(blocks, r.value) {
      ReadOutcomes(blocks, r.value, InodeOf(blocks, r.value).size);
    }
  }

  /**
    The walk from the root: one lookup per segment that is not empty,
    stopping at the first that fails.
  */
  method Walk(fileSystem: LocalFileSystem, items: seq<seq<byte>>) returns (found: Option<int>)
    requires ImageOk(fileSystem.disk.blocks)
    ensures found == Resolve(fileSystem.disk.blocks, items, UFS_ROOT_DIRECTORY_INODE_NUMBER)
  {
    ghost var blocks := fileSystem.disk.blocks;
    var curInode := UFS_ROOT_DIRECTORY_INODE_NUMBER;
    for i := 0 to |items|
      invariant Resolve(blocks, items, UFS_ROOT_DIRECTORY_INODE_NUMBER) == Resolve(blocks, items[i..], curInode)
    {
      assert items[i..][0] == items[i] && items[i..][1..] == items[i + 1..];
      var curItem := items[i];
      if curItem == [] {
        continue;
      }
      var nextInode := fileSystem.Lookup(curInode, curItem);
      if nextInode < 0 {
        return None;
      }
      curInode := nextInode;
    }
    assert items[|items|..] == [];
    found := Some(curInode);
  }

  /** The filter loop: the slots in use among the first `count` of the buffer, in order. */
  method UsedEntries(buffer: array<byte>, count: nat) returns (entries: seq<DirEnt>)
    requires count * DIR_ENT_SIZE <= buffer.Length
    ensures entries == Occupied(DirEntries(buffer[..], count))
  {
    ghost var slots := DirEntries(buffer[..], count);
    entries := [];
    for i := 0 to count
      invariant entries == Occupied(slots[..i])
    {
      var entry := DecodeDirEnt(buffer[..], i * DIR_ENT_SIZE);
      assert entry == slots[i];
      assert slots[..i + 1][..i] == slots[..i];
      if entry.inum != FREE_INUM {
        entries := entries + [entry];
      }
    }
    assert slots[..count] == slots;
  }

  /** The directory branch: read the whole directory, keep the slots in use, sort them by name. */
  method ListDirectory(fileSystem: LocalFileSystem, inodeNum: int, inode: Inode) returns (out: Listing)
    requires ImageOk(fileSystem.disk.blocks) && IsDirectory(fileSystem.disk.blocks, inodeNum)
    requires inode == InodeOf(fileSystem.disk.blocks, inodeNum) && inode.size >= 0
    ensures ReadResult(fileSystem.disk.blocks, inodeNum, inode.size) < 0 ==> out == Failure
    ensures ReadResult(fileSystem.disk.blocks, inodeNum, inode.size) >= 0 ==>
      out == Entries(SortByName(Occupied(Slots(fileSystem.disk.blocks, inodeNum))))
  {
    ghost var blocks := fileSystem.disk.blocks;
    var buffer := new byte[inode.size](_ => 0);
    var readResult := fileSystem.Read(inodeNum, buffer, inode.size);
    if readResult < 0 {
      return Failure;
    }
    assert buffer[..] == DirContent(blocks, inodeNum, inode.size) by {
      assert buffer[..] == buffer[..readResult] + buffer[readResult..];
    }
    var entries := UsedEntries(buffer, inode.size / DIR_ENT_SIZE);
    entries := SortByName(entries);
    out := Entries(entries);
  }

  /**
    main of ds3ls, from the path argument on: trims it, walks it from the
    root with lookup, stats the result, and lists a directory or names a
    regular file.
  */
  method Ds3lsMain(fileSystem: LocalFileSystem, path: seq<byte>, split: seq<byte> -> seq<seq<byte>>)
    returns (out: Listing)
    requires ImageOk(fileSystem.disk.blocks) && Listable(fileSystem.disk.blocks, path, split)
    ensures out == Ds3lsOutcome(fileSystem.disk.blocks, path, split)
  {
    ghost var blocks := fileSystem.disk.blocks;
    var directoryPath := TrimRight(path);
    var items := split(directoryPath);
    var found := Walk(fileSystem, items);
    if found.None? {
      return Failure;
    }
    var inodeNum := found.value;
    var statResult, inode := fileSystem.Stat(inodeNum);
    if statResult < 0 {
      return Failure;
    }
    if inode.fileType == UFS_DIRECTORY {
      out := ListDirectory(fileSystem, inodeNum, inode);
    } else if inode.fileType == UFS_REGULAR_FILE {
      out := FileLine(inodeNum, AfterLastSlash(directoryPath));
    } else {
      out := Failure;
    }
  }
}
