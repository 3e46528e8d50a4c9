/** The mounted file system: the in-memory tables, the current directory and the disk, changed in place
    by the operations the kernel offers. */
module FileSystem {
  import opened Bytes
  import opened Options
  import opened FsLayout
  import opened FsTree
  import opened FsVolume
  import opened FsState
  import opened FsOps
  import opened FsRemove
  import opened FsMove
  import opened FsData
  import opened FsFormat
  import opened FsRuns
  import opened FsOutcomes

  class Volume {
    var inodes: seq<INode>
    var bitmap: seq<bool>
    var freeBlocksCount: int
    var currentDir: nat
    const disk: array<Block>
    /** How far the count is from the number of clear bits; only formatting and mounting set it. */
    ghost var skew: int

    constructor (d: array<Block>)
      ensures disk == d && currentDir == 0
    {
      disk, inodes, bitmap, freeBlocksCount, currentDir, skew := d, [], [], 0, 0, 0;
    }

    /** A snapshot of everything the operations change. */
    ghost function S(): State
      reads this, disk
    {
      State(inodes, bitmap, freeBlocksCount - skew, currentDir, disk[..])
    }

    // ----- blocks -----

    /** Marks the lowest free block as used; -1 when the disk is full. */
    method AllocateBlock() returns (found: int)
      requires |bitmap| == TOTAL_BLOCKS == disk.Length
      modifies this`bitmap, this`freeBlocksCount, disk
      ensures found == -1 <==> ClearBits(old(bitmap)) == 0
      ensures found == -1 ==> S() == old(S())
      ensures found != -1 ==> found >= 0 && BlockAllocated(old(S()), S(), found)
    {
      found := -1;
      for i := 0 to TOTAL_BLOCKS
        invariant forall b :: 0 <= b < i ==> bitmap[b]
        invariant found == -1
      {
        if !bitmap[i] {
          found := i;
          break;
        }
      }
      ClearBitsZero(bitmap);
      if found == -1 {
        return;
      }
      bitmap := bitmap[found := true];
      freeBlocksCount := freeBlocksCount - 1;
      disk[BITMAP_START + found / 4096] := PackBits(BitmapSlice(bitmap, found / 4096));
      assert disk[..] == old(disk[..])[BITMAP_START + found / 4096 := PackBits(BitmapSlice(bitmap, found / 4096))];
    }

    /** Clears the bit of a block its owner gives up. The bit index is reduced modulo 4096, so the right
        bit is cleared exactly for block numbers below 4096. */
    method FreeBlock(blockNum: nat)
      requires |bitmap| == TOTAL_BLOCKS == disk.Length && blockNum < TOTAL_BLOCKS && bitmap[blockNum]
      modifies this`bitmap, this`freeBlocksCount, disk
      ensures BlockFreed(old(S()), S(), blockNum)
      ensures bitmap == old(bitmap)[blockNum := false] <==> blockNum < 4096
    {
      var bitmapBlockIndex := blockNum / 4096;
      var bitIndex := blockNum % 4096;
      bitmap := bitmap[bitIndex := false];
      freeBlocksCount := freeBlocksCount + 1;
      disk[BITMAP_START + bitmapBlockIndex] := PackBits(BitmapSlice(bitmap, bitmapBlockIndex));
      assert disk[..] == old(disk[..])[BITMAP_START
        + bitmapBlockIndex := PackBits(BitmapSlice(bitmap, bitmapBlockIndex))];
      if blockNum >= 4096 {
        assert bitmap[blockNum] && !old(bitmap)[blockNum := false][blockNum];
      }
    }

    /** Writes the whole inode table to its blocks. */
    method FlushInodeTable()
      requires disk.Length == TOTAL_BLOCKS && |inodes| == MAX_FILES && Encodable(inodes)
      modifies disk
      ensures Flushed(old(S()), S())
    {
      for i := 0 to TABLE_BLOCKS
        invariant forall j :: 0 <= j < i ==> disk[TABLE_START + j] == TableSlice(inodes, j)
        invariant forall b :: 0 <= b < TABLE_START || BITMAP_START <= b < TOTAL_BLOCKS ==> disk[b] == old(disk[b])
      {
        disk[TABLE_START + i] := TableSlice(inodes, i);
      }
    }

    // ----- directories -----

    /** Scans the slots of one directory block that are in use for a name. */
    method ScanBlock(block: Block, used: nat, name: Name) returns (e: nat)
      requires used <= 7
      ensures e <= used
      ensures e < used ==> DecodeSlot(Slot(block, e)).name == name
      ensures forall j :: 0 <= j < e ==> DecodeSlot(Slot(block, j)).name != name
    {
      e := 0;
      while e < used && DecodeSlot(Slot(block, e)).name != name
        invariant e <= used
        invariant forall j :: 0 <= j < e ==> DecodeSlot(Slot(block, j)).name != name
      {
        e := e + 1;
      }
    }

    /** The search FindFile and RemoveDirEntry share, over the directory `dir` with contents `node`: the
        position of the first entry with this name, or the number of entries when there is none. */
    method Search(dir: INode, ghost node: Node, name: Name) returns (k: nat)
      requires |dir.blocks| == MAX_BLOCKS && disk.Length == TOTAL_BLOCKS && node == NodeOf(dir, disk[..])
      requires GoodListing(node)
      ensures k == FindEntry(Listing(node), name) <= EntryCount(node)
    {
      var totalEntries := dir.fileSize / 68;
      var entriesRead := 0;
      var b := 0;
      while b < MAX_BLOCKS && entriesRead < totalEntries
        invariant b <= MAX_BLOCKS && entriesRead <= totalEntries
        invariant entriesRead == 7 * b || entriesRead == totalEntries
        invariant forall j :: 0 <= j < entriesRead ==> Listing(node)[j].name != name
      {
        BlockEntry(node, b, 0);
        if dir.blocks[b] == 0 {
          break;
        }
        var block := disk[dir.blocks[b]];
        assert node.image[b] == Some(block);
        var left := totalEntries - entriesRead;
        var used := if left < 7 then left else 7;
        var e := ScanBlock(block, used, name);
        NotBelow(node, b, used, e, block, name);
        if e < used {
          k := 7 * b + e;
          return;
        }
        b := b + 1;
        entriesRead := entriesRead + used;
      }
      k := totalEntries;
    }

    static lemma NotBelow(n: Node, b: nat, used: nat, e: nat, block: Block, name: Name)
      requires GoodListing(n) && e <= used <= 7 && 7 * b + used <= EntryCount(n)
      requires b < MAX_BLOCKS && n.image[b] == Some(block)
      requires forall j :: 0 <= j < 7 * b ==> Listing(n)[j].name != name
      requires forall j :: 0 <= j < e ==> DecodeSlot(Slot(block, j)).name != name
      requires e < used ==> DecodeSlot(Slot(block, e)).name == name
      ensures forall j :: 0 <= j < 7 * b + e ==> Listing(n)[j].name != name
      ensures e < used ==> Listing(n)[7 * b + e].name == name
    {
      forall j | 7 * b <= j < 7 * b + e ensures Listing(n)[j].name != name {
        BlockEntry(n, b, j - 7 * b);
      }
      if e < used {
        BlockEntry(n, b, e);
      }
    }

    /** The inode number the current directory lists under this name, or -1. */
    method FindFile(name: Name, ghost nodes: seq<Node>) returns (r: int)
      requires IsListable(S(), nodes, currentDir)
      ensures r == Lookup(Listing(nodes[currentDir]), name)
    {
      ListableInode(S(), nodes, currentDir);
      var dir := inodes[currentDir];
      var k := Search(dir, nodes[currentDir], name);
      if k == dir.fileSize / 68 {
        return -1;
      }
      ListableOwns(S(), nodes, currentDir, k);
      return DecodeSlot(Slot(disk[dir.blocks[k / 7]], k % 7)).inode;
    }

    /** Overwrites block k of inode i. */
    method PutBlock(i: nat, k: nat, c: Block)
      requires Owns(S(), i, k)
      modifies disk
      ensures S() == Write(old(S()), i, k, c)
    {
      ghost var disk0 := disk[..];
      disk[inodes[i].blocks[k]] := c;
      assert disk[..] == disk0[inodes[i].blocks[k] := c];
    }

    method GetBlock(i: nat, k: nat) returns (c: Block)
      requires Owns(S(), i, k)
      ensures c == BlockOf(S(), i, k)
    {
      c := disk[inodes[i].blocks[k]];
    }

    method PutSize(i: nat, size: nat)
      requires i < |inodes|
      modifies this`inodes
      ensures S() == Resize(old(S()), i, size)
    {
      inodes := inodes[i := inodes[i].(fileSize := size)];
    }

    /** The block for the next entry of the current directory, allocated when a new one starts. */
    method SlotBlock(ghost nodes: seq<Node>) returns (ok: bool, block: Block)
      requires IsListable(S(), nodes, currentDir)
      modifies this`inodes, this`bitmap, this`freeBlocksCount, disk
      ensures ok <==> Room(EntryCount(nodes[currentDir]), ClearBits(old(bitmap)))
      ensures !ok ==> S() == old(S())
      ensures ok ==> SlotReady(old(S()), nodes, currentDir, S(), block)
    {
      hide Consistent, GoodListing, SlotReady, Shows, IsListable;
      ListableInode(S(), nodes, currentDir);
      var totalEntries := inodes[currentDir].fileSize / 68;
      var blockIndex := totalEntries / 7;
      block := Zeros(512);
      if totalEntries % 7 == 0 {
        if blockIndex >= MAX_BLOCKS {
          return false, block;
        }
        var newBlock := AllocateBlock();
        if newBlock == -1 {
          return false, block;
        }
        ghost var taken := S();
        SlotInNewBlock(old(S()), nodes, currentDir, taken, newBlock, block);
        var blocks := inodes[currentDir].blocks[blockIndex := newBlock];
        inodes := inodes[currentDir := inodes[currentDir].(blocks := blocks)];
        assert S() == Record(taken, currentDir, blockIndex, newBlock);
      } else {
        SlotInLastBlock(S(), nodes, currentDir);
        LastSlotOwned(S(), nodes, currentDir);
        block := disk[inodes[currentDir].blocks[blockIndex]];
      }
      ok := true;
    }

    /** Writes the entry into its slot and counts it. */
    method StoreEntry(block: Block, fileInode: nat, name: Name, ghost nodes: seq<Node>, ghost s0: State)
      requires IsListable(s0, nodes, currentDir) && SlotReady(s0, nodes, currentDir, S(), block)
      requires ValidName(name) && fileInode < MAX_FILES
      modifies this`inodes, disk
      ensures EntryAdded(s0, nodes, currentDir, Entry(fileInode, name), S())
    {
      hide IsListable, SlotReady, EntryAdded, Shows, Consistent, Listing, GoodListing, NodeAt, Grown, Flushed,
        Encodable;
      ghost var s1 := S();
      SlotFacts(s0, nodes, currentDir, s1, block);
      var totalEntries := inodes[currentDir].fileSize / 68;
      var patched := Patch(block, 68 * (totalEntries % 7), SlotBytes(Entry(fileInode, name)));
      hide Patch, SlotBytes, Owns;
      PutBlock(currentDir, totalEntries / 7, patched);
      PutSize(currentDir, inodes[currentDir].fileSize + 68);
      assert S() == Stored(s1, nodes, currentDir, patched);
      GrownListing(s0, nodes, currentDir, s1, block, Entry(fileInode, name));
      StoredShows(s0, nodes, currentDir, s1, block, patched);
      ShowsEncodable(S(), Grown(nodes, currentDir, patched));
      FlushInodeTable();
      EntryStored(s0, nodes, currentDir, s1, block, Entry(fileInode, name), patched, S());
    }

    /** Appends an entry to the current directory, with the first 63 bytes of the name. Fails, changing
        nothing, when there is no room. */
    method AddDirEntry(fileInode: nat, name: Name, ghost nodes: seq<Node>) returns (ok: bool)
      requires IsListable(S(), nodes, currentDir) && IsString(name) && fileInode < MAX_FILES
      modifies this`inodes, this`bitmap, this`freeBlocksCount, disk
      ensures ok <==> Room(EntryCount(nodes[currentDir]), ClearBits(old(bitmap)))
      ensures !ok ==> S() == old(S())
      ensures ok ==> EntryAdded(old(S()), nodes, currentDir, Entry(fileInode, Kept(name)), S())
    {
      hide IsListable, SlotReady, EntryAdded, ValidName, Room, Kept;
      ghost var s0 := S();
      ListableInode(s0, nodes, currentDir);
      var block;
      ok, block := SlotBlock(nodes);
      if ok {
        StoreEntry(block, fileInode, Kept(name), nodes, s0);
      }
    }

    /** Writes block l of the current directory, unless `once`, then block b, then the size. */
    method PutTwo(b: nat, p: Block, l: nat, c: Block, once: bool, size: nat)
      requires Owns(S(), currentDir, b) && Owns(S(), currentDir, l)
      modifies this`inodes, disk
      ensures S() == TwoWrites(old(S()), currentDir, b, p, l, c, once, size)
    {
      if !once {
        PutBlock(currentDir, l, c);
        assert Owns(S(), currentDir, b);
      }
      hide Owns, Write, Resize;
      PutBlock(currentDir, b, p);
      PutSize(currentDir, size);
    }

    /** Writes what the removal of entry k changes: the last block first, unless k is the last entry. */
    method DropEntry(k: nat, last: nat, ghost nodes: seq<Node>)
      requires IsListable(S(), nodes, currentDir) && k <= last == EntryCount(NodeAt(nodes, currentDir)) - 1
      modifies this`inodes, disk
      ensures S() == Removing(old(S()), NodeAt(nodes, currentDir), currentDir, k)
    {
      hide IsListable, NodeAt, FillHole, ClearSlot, BlockOf, Owns, TwoWrites, Removing;
      RemovingIs(S(), nodes, currentDir, k, last);
      var block := GetBlock(currentDir, k / 7);
      var lastBuf := GetBlock(currentDir, last / 7);
      var filled, cleared := FillHole(block, lastBuf, k, last), ClearSlot(lastBuf, last);
      PutTwo(k / 7, filled, last / 7, cleared, k == last, inodes[currentDir].fileSize - 68);
    }

    /** Removes the first entry with this name; the last entry takes its slot. */
    method RemoveDirEntry(name: Name, ghost nodes: seq<Node>) returns (ok: bool)
      requires IsListable(S(), nodes, currentDir)
      modifies this`inodes, disk
      ensures ok <==> FindEntry(Listing(nodes[currentDir]), name) < EntryCount(nodes[currentDir])
      ensures !ok ==> S() == old(S())
      ensures ok ==> EntryRemoved(old(S()), nodes, currentDir, FindEntry(Listing(nodes[currentDir]), name), S())
    {
      ListableInode(S(), nodes, currentDir);
      var dir := inodes[currentDir];
      var totalEntries := dir.fileSize / 68;
      var k := Search(dir, nodes[currentDir], name);
      ok := k < totalEntries;
      if ok {
        hide Listing, GoodListing, Shows, Encodable, Removing, Flushed, EntryRemoved;
        DropEntry(k, totalEntries - 1, nodes);
        RemovingEncodable(old(S()), nodes, currentDir, k);
        FlushInodeTable();
        EntryDropped(old(S()), nodes, currentDir, k, S());
      }
    }

    // ----- files and directories -----

    /** The lowest inode not in use, or MAX_FILES. */
    method FindFreeInode() returns (i: nat)
      requires |inodes| == MAX_FILES
      ensures i <= MAX_FILES
      ensures if i < MAX_FILES then FirstFree(S(), i) else AllUsed(S())
    {
      i := 0;
      while i < MAX_FILES && inodes[i].isUsed
        invariant i <= MAX_FILES && forall j :: 0 <= j < i ==> inodes[j].isUsed
      {
        i := i + 1;
      }
    }

    /** Gives a described inode back. */
    method ReleaseInode(i: nat, kind: FileType, ghost s0: State)
      requires Usable(s0) && FirstFree(s0, i) && S() == FreshState(s0, i, kind)
      modifies this`inodes, disk
      ensures Unchanged(s0, S())
    {
      UndoneShows(s0, i, kind);
      hide Usable, TreeInv, Shows, Unchanged, Encodable, Flushed, Nodes;
      inodes := inodes[i := inodes[i].(isUsed := false)];
      ghost var n := Fresh(s0.inodes[i], kind, s0.currentDir).(isUsed := false);
      assert S() == Describe(s0, i, n);
      ShowsEncodable(S(), Nodes(s0)[i := FreshNode(Nodes(s0)[i], kind, s0.currentDir).(isUsed := false)]);
      FlushInodeTable();
      CreationUndone(s0, i, kind, S());
    }

    /** Describes free inode i and lists it in the current directory, or puts everything back. */
    method InsertInode(i: nat, name: Name, kind: FileType) returns (added: bool)
      requires Usable(S()) && IsString(name) && FirstFree(S(), i)
      modifies this`inodes, this`bitmap, this`freeBlocksCount, disk
      ensures added <==> Room(|HereEntries(old(S()))|, ClearBits(old(bitmap)))
      ensures !added ==> Unchanged(old(S()), S())
      ensures added ==> InodeCreated(old(S()), i, Kept(name), kind, S())
    {
      hide Usable, TreeInv, IsListable, Shows, Unchanged, InodeCreated, EntryAdded, Flushed, Encodable, Listing,
        HereEntries, Nodes, FreshNodes, FirstFree, Room, IsString, Kept;
      ghost var s0 := S();
      UsableBasics(s0);
      FreshListable(s0, i, kind);
      ghost var nodes1 := FreshNodes(s0, i, kind);
      inodes := inodes[i := Fresh(inodes[i], kind, currentDir)];
      ghost var s1 := S();
      assert s1 == FreshState(s0, i, kind);
      added := AddDirEntry(i, name, nodes1);
      if added {
        ghost var s2 := S();
        CreatedFlushable(s1, nodes1, currentDir, Entry(i, Kept(name)), s2);
        FlushInodeTable();
        CreationDone(s0, i, Kept(name), kind, s2, S());
      } else {
        ReleaseInode(i, kind, s0);
      }
    }

    /** Creates a file or directory in the current directory and returns its inode, or -1. The whole name is
        looked up but only the first 63 bytes are kept, so two long names may end up the same. */
    method CreateFile(name: Name, kind: FileType) returns (r: int)
      requires Usable(S()) && IsString(name)
      modifies this`inodes, this`bitmap, this`freeBlocksCount, disk
      ensures r >= -1 && (r != -1 <==> CanCreate(old(S()), name))
      ensures r != -1 <==>
        && (forall k :: 0 <= k < |HereEntries(old(S()))| ==> HereEntries(old(S()))[k].name != name)
        && (exists i :: 0 <= i < |Tree(old(S()))| && !Tree(old(S()))[i].used)
        && (|HereEntries(old(S()))| % 7 != 0
          || (|HereEntries(old(S()))| < 448 && exists b :: 0 <= b < |old(bitmap)| && !old(bitmap)[b]))
      ensures r == -1 ==> Unchanged(old(S()), S())
      ensures r != -1 ==> InodeCreated(old(S()), r, Kept(name), kind, S())
      ensures Valid(old(S())) && r != -1 && kind == File ==>
        (Valid(S()) <==> Lookup(HereEntries(old(S())), Kept(name)) == -1)
    {
      hide Usable, TreeInv, IsListable, Unchanged, InodeCreated, Listing, HereEntries, Nodes, Room, Lookup, FindEntry;
      ghost var s0 := S();
      UsableBasics(s0);
      UnchangedSelf(s0);
      CreatesWhen(s0, name);
      var found := FindFile(name, Nodes(s0));
      assert S() == s0 && found == Lookup(HereEntries(s0), name);
      if found != -1 {
        return -1;
      }
      var i := FindFreeInode();
      assert S() == s0;
      if i == MAX_FILES {
        return -1;
      }
      assert !AllUsed(s0);
      var added := InsertInode(i, name, kind);
      if !added {
        return -1;
      }
      if Valid(s0) && kind == File {
        CreatedFileValidIff(s0, i, Kept(name), S());
      }
      return i;
    }

    /** Gives directory i, freshly created in s1, its block b and writes the dots into it. */
    method FurnishDirectory(i: nat, b: nat, name: Name, ghost s0: State, ghost s1: State)
      requires Usable(s0) && InodeCreated(s0, i, name, Directory, s1)
      requires BlockAllocated(s1, S(), b) && i < |inodes| && |inodes[i].blocks| == MAX_BLOCKS
      modifies this`inodes, disk
      ensures Usable(S()) && Tree(S()) == Created(Tree(s0), s0.currentDir, i, name, true)
      ensures SameContents(Nodes(s0), Nodes(S())) && currentDir == s0.currentDir && bitmap == old(bitmap)
    {
      hide Usable, TreeInv, Consistent, Shows, Flushed, Encodable, HereEntries, Nodes, InodeCreated, SetSize,
        SetBlock, DotBlock, Lookup, SameContents, Tree, Created;
      ghost var s2, d := S(), s0.currentDir;
      CreatedBasics(s0, i, name, Directory, s1);
      CreatedShows(s0, i, name, Directory, s1);
      FurnishedShows(s1, Nodes(s1), i, s2, b);
      ghost var nodes3 := SetSize(SetBlock(Nodes(s1), i, 0, s2.disk[b]), i, 136);
      inodes := inodes[i := inodes[i].(blocks := inodes[i].blocks[0 := b], fileSize := 136, parent := currentDir)];
      assert S() == Furnished(s2, i, b);
      ShowsEncodable(S(), nodes3);
      FlushInodeTable();
      ghost var s4 := S();
      DotsWritten(Furnished(s2, i, b), Nodes(s1), i, s2.disk[b], s4, d);
      assert s4 == Furnished(s2, i, b).(disk := s4.disk) by {
      }
      assert Owns(s4, i, 0);
      PutBlock(i, 0, DotBlock(i, currentDir));
      assert S() == Write(s4, i, 0, DotBlock(i, d));
      DirectoryTree(s0, i, name, s1, S());
      DirectoryContents(s0, i, name, s1, S());
      DirectoryUsable(s0, i, name, s1, S());
    }

    /** Creates a directory in the current directory. When the disk runs out between the two blocks it
        needs, a directory without dots stays behind; everything else is as it should be. */
    method CreateDir(name: Name) returns (ok: bool, ghost i: nat)
      requires Usable(S()) && IsString(name)
      modifies this`inodes, this`bitmap, this`freeBlocksCount, disk
      ensures ok <==> CanCreate(old(S()), name) && !RunsDry(old(S()), name)
      ensures !CanCreate(old(S()), name) ==> Unchanged(old(S()), S())
      ensures RunsDry(old(S()), name) ==> InodeCreated(old(S()), i, Kept(name), Directory, S())
      ensures ok ==> DirectoryMade(old(S()), i, Kept(name), S())
      ensures Valid(old(S())) ==>
        (Valid(S()) <==>
          !RunsDry(old(S()), name) && (ok ==> Lookup(HereEntries(old(S())), Kept(name)) == -1))
    {
      hide Usable, TreeInv, IsListable, Listing, HereEntries, Nodes, Room, Lookup, FindEntry, SameContents, Tree,
        Created, InodeCreated, AllUsed, Unchanged, Take, Kept;
      i := 0;
      ghost var s0 := S();
      UsableBasics(s0);
      UnchangedSelf(s0);
      var found := FindFile(name, Nodes(s0));
      assert S() == s0 && found == Lookup(HereEntries(s0), name);
      if found != -1 {
        return false, 0;
      }
      var r := CreateFile(name, Directory);
      if r == -1 {
        if Valid(s0) {
          UnchangedValid(s0, S());
        }
        return false, 0;
      }
      i := r;
      ghost var s1 := S();
      CreatedBasics(s0, i, Kept(name), Directory, s1);
      var b := AllocateBlock();
      if b == -1 {
        assert S() == s1;
        if Valid(s0) {
          DryDirectory(s0, i, Kept(name), s1);
        }
        return false, i;
      }
      ClearBitsUpdate(s1.bitmap, b, true);
      TakenNext(s1, S(), b, s0.bitmap, Needed(|HereEntries(s0)|));
      FurnishDirectory(r, b, Kept(name), s0, s1);
      ok := true;
      if Valid(s0) {
        MadeValidIff(s0, i, Kept(name), S());
      }
    }

    /** Changes the current directory. */
    method Cd(name: Name) returns (ok: bool)
      requires Usable(S())
      modifies this`currentDir
      ensures ok <==> CdTarget(old(S()), name) != -1
      ensures S() == if ok then old(S()).(currentDir := CdTarget(old(S()), name)) else old(S())
      ensures Valid(old(S())) ==> Valid(S()) && (ok <==> IsTarget(old(S()), name))
      ensures Valid(old(S())) && ok ==> currentDir == Lookup(HereEntries(old(S())), name)
    {
      hide Usable, TreeInv, IsListable, Listing, HereEntries, Nodes, Lookup, FindEntry, Tree, Consistent, IsTarget;
      ghost var s0 := S();
      UsableBasics(s0);
      if Valid(s0) {
        CdResolves(s0, name);
      }
      if name == DOT {
        return true;
      }
      if name == DOTDOT {
        currentDir := inodes[currentDir].parent;
        return true;
      }
      var found := FindFile(name, Nodes(s0));
      if found == -1 {
        NoTarget(s0, name);
        return false;
      }
      FileInode(s0, name);
      if inodes[found].kind != Directory {
        return false;
      }
      currentDir := found;
      ok := true;
    }

    // ----- deleting -----

    /** Gives back every block of inode i. */
    method EmptyInode(i: nat)
      requires Consistent(S()) && i < |inodes| && |inodes[i].blocks| == MAX_BLOCKS
      requires forall k :: 0 <= k < MAX_BLOCKS ==> inodes[i].blocks[k] < 4096
      modifies this`inodes, this`bitmap, this`freeBlocksCount, disk
      ensures Emptied(old(S()), i, MAX_BLOCKS, S())
    {
      hide Consistent, Emptied, Shows, Nodes, Owns, BlockFreed, Given;
      ghost var s0 := S();
      EmptiedStart(s0, i);
      for b := 0 to MAX_BLOCKS
        invariant Emptied(s0, i, b, S())
      {
        ghost var s := S();
        EmptiedBasics(s0, i, b, s);
        if inodes[i].blocks[b] != 0 {
          GiveBlock(s0, i, b);
        } else {
          EmptiedSkip(s0, i, b, s);
        }
      }
    }

    /** Frees block b of inode i and clears its slot. */
    method GiveBlock(ghost s0: State, i: nat, b: nat)
      requires Emptied(s0, i, b, S()) && b < MAX_BLOCKS && i < |inodes| && b < |inodes[i].blocks|
        && inodes[i].blocks[b] != 0
      requires inodes[i].blocks[b] < 4096
      modifies this`inodes, this`bitmap, this`freeBlocksCount, disk
      ensures Emptied(s0, i, b + 1, S())
    {
      hide Consistent, Emptied, Shows, Nodes, Owns;
      ghost var s := S();
      EmptiedBasics(s0, i, b, s);
      EmptiedOwns(s0, i, b, s);
      FreeBlock(inodes[i].blocks[b]);
      ghost var s1 := S();
      inodes := inodes[i := inodes[i].(blocks := inodes[i].blocks[b := 0])];
      assert S() == Given(s1, i, b);
      EmptiedNext(s0, i, b, s, s1);
    }

    /** Deletes the named file or directory of the current directory. The caller must have checked that it
        is not the current directory, and the blocks must be below 4096. That a directory is empty is not
        checked either; in a tree, the result is one exactly when it was. */
    method DeleteFile(name: Name) returns (ok: bool)
      requires Usable(S()) && (Victim(S(), name) != -1 ==> Removable(S(), Victim(S(), name)))
      modifies this`inodes, this`bitmap, this`freeBlocksCount, disk
      ensures ok <==> Victim(old(S()), name) != -1
      ensures !ok ==> S() == old(S())
      ensures ok ==> DeletedBy(old(S()), name, S())
      ensures Valid(old(S())) && ok ==>
        && 0 <= Victim(old(S()), name) < |Tree(old(S()))|
        && (Valid(S()) <==> Childless(Tree(old(S())), Victim(old(S()), name)))
    {
      hide Usable, TreeInv, IsListable, Nodes, FindEntry, Tree, Consistent, Emptied, Shows, Listing, HereEntries,
        DeletedBy, EntryRemoved, Flushed, Encodable, Childless, TreeOf;
      ghost var s0, k := S(), FindEntry(HereEntries(S()), name);
      UsableBasics(s0);
      var found := FindFile(name, Nodes(s0));
      assert S() == s0 && found == Lookup(HereEntries(s0), name);
      if found == -1 {
        return false;
      }
      if name == DOT || name == DOTDOT {
        return false;
      }
      if found == 0 {
        return false;
      }
      FoundInode(s0, name, k);
      assert found == HereEntries(s0)[k].inode == Victim(s0, name);
      RemovableBlocks(s0, found);
      EmptyInode(found);
      ghost var s1 := S();
      EmptiedBasics(s0, found, MAX_BLOCKS, s1);
      ghost var r := FreedReady(s0, name, k, found, s1);
      inodes := inodes[found := inodes[found].(isUsed := false)];
      ghost var s2, nodes1 := S(), Nodes(s0)[found := r];
      assert s2 == Describe(s1, found, s1.inodes[found].(isUsed := false));
      assert currentDir == s0.currentDir;
      var removed := RemoveDirEntry(name, nodes1);
      ghost var s3 := S();
      assert EntryRemoved(s2, nodes1, s0.currentDir, k, s3);
      RemovedFlushable(s2, nodes1, s0.currentDir, k, s3);
      FlushInodeTable();
      DeletionResult(s0, name, k, s2, r, s3, S());
      ok := true;
      if Valid(s0) {
        DeletedValidIff(s0, name, S());
      }
    }

    // ----- renaming -----

    /** Drops the entry and adds one with the new name for the same inode. When the last block of entries
        empties and no block is free, the entry is lost; everything else is as it should be. */
    method RenameFile(oldName: Name, newName: Name) returns (ok: bool)
      requires Usable(S()) && IsString(newName)
      modifies this`inodes, this`bitmap, this`freeBlocksCount, disk
      ensures ok <==> MayRename(old(S()), oldName, newName) && !LosesEntry(old(S()), oldName, newName)
      ensures ok <==>
        && (exists k :: 0 <= k < |HereEntries(old(S()))| && HereEntries(old(S()))[k].name == oldName)
        && (forall k :: 0 <= k < |HereEntries(old(S()))| ==> HereEntries(old(S()))[k].name != newName)
        && (|HereEntries(old(S()))| % 7 != 1 || exists b :: 0 <= b < |old(bitmap)| && !old(bitmap)[b])
      ensures !MayRename(old(S()), oldName, newName) ==> S() == old(S())
      ensures LosesEntry(old(S()), oldName, newName) ==>
        LostBy(old(S()), FindEntry(HereEntries(old(S())), oldName), S())
      ensures ok ==> RenamedBy(old(S()), FindEntry(HereEntries(old(S())), oldName), Kept(newName), S())
      ensures Valid(old(S())) ==>
        (Valid(S()) <==> !LosesEntry(old(S()), oldName, newName) && (ok ==> Renames(old(S()), oldName, newName)))
    {
      hide Usable, TreeInv, IsListable, Nodes, FindEntry, Tree, Consistent, Shows, Listing, HereEntries, EntryRemoved,
        EntryAdded, DroppedNodes;
      ghost var s0, k := S(), FindEntry(HereEntries(S()), oldName);
      UsableBasics(s0);
      RenamesWhen(s0, oldName, newName);
      var found := FindFile(oldName, Nodes(s0));
      assert S() == s0 && found == Lookup(HereEntries(s0), oldName);
      if found == -1 {
        return false;
      }
      var clash := FindFile(newName, Nodes(s0));
      assert S() == s0 && clash == Lookup(HereEntries(s0), newName);
      if clash != -1 {
        return false;
      }
      FoundInode(s0, oldName, k);
      var removed := RemoveDirEntry(oldName, Nodes(s0));
      ghost var s1 := S();
      DroppedReady(s0, k, s1);
      ok := AddDirEntry(found, newName, DroppedNodes(s0, k));
      if ok {
        RenameDone(s0, k, Kept(newName), s1, S());
      } else {
        assert S() == s1;
        LostDone(s0, k, s1);
      }
      if Valid(s0) {
        if ok {
          NewNameIs(s0, newName);
          RenamedValidIff(s0, k, oldName, Kept(newName), S());
        } else {
          RenameLost(s0, k, S());
        }
      }
    }

    // ----- moving -----

    /** Walks from directory d up to the root, looking for inode m. */
    method LiesBelow(d: nat, m: nat) returns (inside: bool)
      requires Usable(S()) && d < MAX_FILES && m > 0 && WalkEnds(inodes, d, m)
      ensures inside <==> Meets(inodes, d, m)
      ensures Valid(S()) && IsDirectory(Tree(S()), d) ==> (inside <==> !NotInside(Tree(S()), d, m))
    {
      hide Usable, TreeInv, Tree, IsDirectory, Up, WalkEnds, NotInside;
      ghost var n := 0;
      ghost var depth := StepsOf(inodes, d, m);
      UpStart(inodes, d);
      UsableConsistent(S());
      var x := d;
      while x != m && x != 0
        invariant x == Up(inodes, d, n) && n <= depth && x < |inodes|
        invariant forall j: nat :: j < n ==> Up(inodes, d, j) != m
        decreases depth - n
      {
        UpStep(inodes, d, n, x);
        ParentExists(S(), x);
        x := inodes[x].parent;
        n := n + 1;
      }
      inside := x == m;
      if !inside {
        WalkedToRoot(inodes, d, m, n);
      }
      if Valid(S()) && IsDirectory(Tree(S()), d) {
        TreeWalks(S(), d, m);
      }
    }

    /** Whether inode `found` may go to directory dest, space permitting. */
    method MayGo(found: nat, name: Name, dest: nat) returns (may: bool)
      requires Usable(S()) && 0 < found < MAX_FILES && found == Lookup(HereEntries(S()), name)
      requires name != DOT && name != DOTDOT && MoveEnds(S(), name, dest)
      modifies this`currentDir
      ensures S() == old(S())
      ensures may <==> CanGo(S(), found, name, dest)
    {
      hide Usable, TreeInv, Tree, IsDirectory, HereEntries, Nodes, IsListable, Lookup, FindEntry, Listing, GoodListing,
        WalkEnds, Meets;
      ghost var s0 := S();
      DirectoryIs(s0, dest);
      if dest >= MAX_FILES {
        return false;
      }
      if !inodes[dest].isUsed || inodes[dest].kind != Directory {
        return false;
      }
      if dest == currentDir {
        return false;
      }
      if inodes[found].kind == Directory {
        var inside := LiesBelow(dest, found);
        if inside {
          return false;
        }
      }
      AtListable(s0, dest);
      var src := currentDir;
      currentDir := dest;
      var clash := FindFile(name, Nodes(s0));
      currentDir := src;
      may := clash == -1;
    }

    /** Points a moved inode at its new parent, in the table and in its own "..". */
    method LinkMoved(i: nat, dest: nat, ghost nodes: seq<Node>)
      requires Shows(S(), nodes) && i < MAX_FILES && dest < MAX_FILES
      modifies this`inodes, disk
      ensures Flushed(Relink(old(S()), i, dest), S())
    {
      hide Shows, Flushed, Encodable, Repoint;
      ghost var s2 := S();
      ShowsUsed(s2, nodes, i);
      ShowsTable(s2, nodes);
      inodes := inodes[i := inodes[i].(parent := dest)];
      if inodes[i].kind == Directory && inodes[i].blocks[0] != 0 {
        var block := GetBlock(i, 0);
        PutBlock(i, 0, Repoint(block, dest));
      }
      assert S() == Relink(s2, i, dest);
      RelinkShows(s2, nodes, i, dest);
      ShowsEncodable(S(), nodes[i := Relinked(nodes[i], dest)]);
      FlushInodeTable();
    }

    /** Lists inode `found` in dest, unlists it here and relinks it. */
    method Relocate(found: nat, name: Name, dest: nat, ghost k: nat) returns (ok: bool)
      requires Usable(S()) && Found(S(), name, k) && found == HereEntries(S())[k].inode
      requires CanGo(S(), found, name, dest)
      modifies this`inodes, this`bitmap, this`freeBlocksCount, this`currentDir, disk
      ensures ok <==> CanMove(old(S()), name, dest)
      ensures !ok ==> S() == old(S())
      ensures ok ==> MovedOn(old(S()), k, dest, S())
    {
      hide Usable, TreeInv, Tree, CanGo, CanMove, HereEntries, Nodes, IsListable, Lookup, FindEntry, Listing,
        EntryAdded, EntryRemoved, IsString, Kept, Shows, Flushed, Room, MovedOn, RemovedNode, Relink, GoodListing;
      ghost var s0, nodes := S(), Nodes(S());
      GoingFacts(s0, found, name, dest, k);
      var src := currentDir;
      currentDir := dest;
      ok := AddDirEntry(found, name, nodes);
      ghost var sa := S();
      currentDir := src;
      if !ok {
        return;
      }
      ghost var r := DestinationAdded(s0, dest, HereEntries(s0)[k], sa);
      ghost var nodes1 := nodes[dest := r];
      assert S() == At(sa, src);
      var removed := RemoveDirEntry(name, nodes1);
      ghost var s2 := S();
      RemovedShows(At(sa, src), nodes1, src, k, s2);
      LinkMoved(found, dest, nodes1[src := RemovedNode(nodes1[src], k)]);
      MoveDone(s0, name, k, dest, r, s2, S());
    }

    /** Moves the named entry of the current directory to directory dest. The walk that keeps a directory
        out of itself must end; in a tree it always does. */
    method MoveFile(name: Name, dest: nat) returns (ok: bool)
      requires Usable(S()) && MoveEnds(S(), name, dest)
      modifies this`inodes, this`bitmap, this`freeBlocksCount, this`currentDir, disk
      ensures ok <==> CanMove(old(S()), name, dest)
      ensures Valid(old(S())) ==>
        (ok <==>
          exists k ::
            && 2 <= k < |HereEntries(old(S()))| && HereEntries(old(S()))[k].name == name
            && dest < |Tree(old(S()))| && Tree(old(S()))[dest].used && Tree(old(S()))[dest].isDir
            && dest != old(currentDir)
            && (forall n: nat :: Above(Tree(old(S())), dest, n) != HereEntries(old(S()))[k].inode)
            && (forall j :: 0 <= j < |Tree(old(S()))[dest].entries| ==> Tree(old(S()))[dest].entries[j].name != name)
            && (|Tree(old(S()))[dest].entries| % 7 != 0
              || (|Tree(old(S()))[dest].entries| < 448 && exists b :: 0 <= b < |old(bitmap)| && !old(bitmap)[b])))
      ensures !ok ==> S() == old(S())
      ensures ok ==> MovedOn(old(S()), FindEntry(HereEntries(old(S())), name), dest, S())
      ensures Valid(old(S())) && ok ==> MovedBy(old(S()), FindEntry(HereEntries(old(S())), name), dest, S())
    {
      hide Usable, TreeInv, Tree, HereEntries, Nodes, IsListable, FindEntry, Listing, MovedBy, MovedOn, MoveEnds, Meets;
      ghost var s0, k := S(), FindEntry(HereEntries(S()), name);
      UsableBasics(s0);
      if Valid(s0) {
        MovesWhen(s0, name, dest);
      }
      var found := FindFile(name, Nodes(s0));
      assert S() == s0 && found == Lookup(HereEntries(s0), name);
      GoingStart(s0, name);
      if found == -1 {
        return false;
      }
      if found == 0 || name == DOT || name == DOTDOT {
        return false;
      }
      var may := MayGo(found, name, dest);
      if !may {
        return false;
      }
      ok := Relocate(found, name, dest, k);
      if Valid(s0) && ok {
        MovedInTree(s0, name, k, dest, S());
      }
    }

    // ----- contents -----

    /** Copies up to `size` bytes of inode i into the buffer, block by block. */
    method ReadBlocks(i: nat, buffer: array<u8>, size: nat)
      requires Usable(S()) && i < |inodes| && size <= buffer.Length
      modifies buffer
      ensures ReadInto(S(), i, size, old(buffer[..]), buffer[..])
    {
      hide Usable, TreeInv, Nodes, Owns, ReadFrom, ReadOn, Overlaid;
      ghost var s0 := S();
      UsableBasics(s0);
      FileImage(s0, i, 0);
      ghost var image, was, read := Nodes(s0)[i].image, buffer[..], [];
      var b, bytesRead := 0, 0;
      ReadStart(image, size);
      OverlaidStart(was);
      while b < MAX_BLOCKS && bytesRead < size
        invariant b <= MAX_BLOCKS && bytesRead == if 512 * b < size then 512 * b else size
        invariant |read| == bytesRead && Overlaid(was, read, buffer[..])
        invariant ReadFrom(image, 0, size) == read + ReadOn(image, b, size)
      {
        FileImage(s0, i, b);
        if inodes[i].blocks[b] == 0 {
          break;
        }
        var block := GetBlock(i, b);
        var toCopy := if size - bytesRead < 512 then size - bytesRead else 512;
        Overlay(buffer, bytesRead, block[..toCopy], was, read);
        ReadMore(image, b, size, toCopy, read);
        read := read + block[..toCopy];
        bytesRead := bytesRead + toCopy;
        b := b + 1;
      }
      ReadEnd(image, b, size);
      assert read + [] == read;
    }

    /** Copies up to `size` bytes of the named file into the buffer, stopping at the first missing block. */
    method ReadFile(name: Name, buffer: array<u8>, size: nat) returns (ok: bool)
      requires Usable(S()) && size <= buffer.Length
      modifies buffer
      ensures ok <==> IsFile(S(), name)
      ensures !ok ==> buffer[..] == old(buffer[..])
      ensures ok ==> ReadInto(S(), Lookup(HereEntries(S()), name), size, old(buffer[..]), buffer[..])
    {
      hide Usable, TreeInv, Nodes, IsFile, Lookup, FindEntry, HereEntries, Listing, IsListable, ReadInto;
      ghost var s0 := S();
      UsableBasics(s0);
      var found := FindFile(name, Nodes(s0));
      if found == -1 {
        NotAFile(s0, name);
        return false;
      }
      FileInode(s0, name);
      if inodes[found].kind != File {
        return false;
      }
      ReadBlocks(found, buffer, size);
      ok := true;
    }

    /** Fills block b of file i with its piece of the data, taking a new block when it has none. */
    method WriteBlock(i: nat, data: seq<u8>, b: nat, ghost s0: State) returns (ok: bool)
      requires Writing(s0, i, data, b, S()) && b < MAX_BLOCKS && i < |s0.inodes| && s0.inodes[i].isUsed
      modifies this`inodes, this`bitmap, this`freeBlocksCount, disk
      ensures ok ==> Writing(s0, i, data, b + 1, S())
      ensures !ok ==>
        S() == old(S()) && i < |inodes| && b < |inodes[i].blocks| && inodes[i].blocks[b] == 0 && ClearBits(bitmap) == 0
    {
      hide Writing, Chunk, Owns, Record, Write;
      ghost var s := S();
      WritingBasics(s0, i, data, b, s);
      if inodes[i].blocks[b] == 0 {
        var newBlock := AllocateBlock();
        if newBlock == -1 {
          return false;
        }
        ghost var s1 := S();
        inodes := inodes[i := inodes[i].(blocks := inodes[i].blocks[b := newBlock])];
        RecordIs(s1, i, b, newBlock);
        WritingNew(s0, i, data, b, s, s1, newBlock);
      } else {
        WritingOwns(s0, i, data, b, s);
        WritingReuse(s0, i, data, b, s);
      }
      PutBlock(i, b, Chunk(data, b));
      ok := true;
    }

    /** Writes the data to the named file from its start. When the disk runs out, what fits is kept and
        the size says how much that is. */
    method WriteFile(name: Name, data: seq<u8>) returns (ok: bool, ghost w: nat)
      requires Usable(S()) && NamesUsed(S(), name)
      modifies this`inodes, this`bitmap, this`freeBlocksCount, disk
      ensures !IsFile(old(S()), name) ==> !ok && S() == old(S())
      ensures IsFile(old(S()), name) ==>
        StoredBy(old(S()), name, data, w, S()) && (ok <==> w == |data|)
      ensures Valid(old(S())) ==> Valid(S())
    {
      hide Usable, TreeInv, Nodes, Lookup, FindEntry, HereEntries, Listing, IsListable, Consistent, Writing,
        WrittenBy, Fits, IsFile, Flushed, Encodable, NamesUsed, Tree;
      w := 0;
      ghost var s0 := S();
      UsableBasics(s0);
      var found := FindFile(name, Nodes(s0));
      if found == -1 {
        NotAFile(s0, name);
        return false, 0;
      }
      FileInode(s0, name);
      if inodes[found].kind != File {
        return false, 0;
      }
      UsedFile(s0, name);
      var bytesWritten, b := 0, 0;
      WritingStart(s0, found, data);
      while b < MAX_BLOCKS && bytesWritten < |data|
        invariant Writing(s0, found, data, b, S()) && b <= MAX_BLOCKS
        invariant bytesWritten == (if 512 * b < |data| then 512 * b else |data|) && BlocksFor(bytesWritten) == b
      {
        var filled := WriteBlock(found, data, b, s0);
        if !filled {
          break;
        }
        var toWrite := if |data| - bytesWritten < 512 then |data| - bytesWritten else 512;
        bytesWritten := bytesWritten + toWrite;
        b := b + 1;
      }
      ghost var s := S();
      WritingBasics(s0, found, data, b, s);
      WroteAll(s0, found, data, b, s, bytesWritten);
      PutSize(found, bytesWritten);
      WritingEncodable(s0, found, data, b, s, bytesWritten);
      FlushInodeTable();
      WritingDone(s0, found, data, b, s, bytesWritten, S());
      ok := bytesWritten == |data|;
      w := bytesWritten;
      if Valid(s0) {
        WrittenValid(s0, found, data, w, S());
      }
    }

    // ----- formatting -----

    /** Marks the blocks up to and including the superblock and those of the two tables, and writes the
        whole bitmap out. */
    method InitializeBitmap()
      requires disk.Length == TOTAL_BLOCKS
      modifies this`bitmap, disk
      ensures MarkedBelow(bitmap, DATA_START) && BitmapCopy(bitmap, disk[..])
      ensures forall b :: 0 <= b < BITMAP_START || DATA_START <= b < TOTAL_BLOCKS ==> disk[b] == old(disk[b])
    {
      bitmap := seq(204800, _ => false);
      for i := 0 to SUPERBLOCK + 1
        invariant MarkedBelow(bitmap, i)
        modifies this`bitmap
      {
        bitmap := bitmap[i := true];
      }
      for i := TABLE_START to TABLE_START + TABLE_BLOCKS
        invariant MarkedBelow(bitmap, i)
        modifies this`bitmap
      {
        bitmap := bitmap[i := true];
      }
      for i := BITMAP_START to BITMAP_START + BITMAP_BLOCKS
        invariant MarkedBelow(bitmap, i)
        modifies this`bitmap
      {
        bitmap := bitmap[i := true];
      }
      for i := 0 to BITMAP_BLOCKS
        invariant MarkedBelow(bitmap, DATA_START)
        invariant forall j :: 0 <= j < i ==> disk[BITMAP_START + j] == PackBits(BitmapSlice(bitmap, j))
        invariant forall b :: 0 <= b < BITMAP_START || DATA_START <= b < TOTAL_BLOCKS ==> disk[b] == old(disk[b])
      {
        disk[BITMAP_START + i] := PackBits(BitmapSlice(bitmap, i));
      }
    }

    /** Every inode becomes all zeros, in memory and on disk. */
    method InitializeINodeMap()
      requires disk.Length == TOTAL_BLOCKS
      modifies this`inodes, disk
      ensures |inodes| == MAX_FILES && forall i :: 0 <= i < MAX_FILES ==> IsBlank(inodes[i])
      ensures InodeCopy(inodes, disk[..])
      ensures forall b :: 0 <= b < TABLE_START || BITMAP_START <= b < TOTAL_BLOCKS ==> disk[b] == old(disk[b])
    {
      var blank := Blank();
      inodes := seq(128, _ => blank);
      hide TableSlice;
      FlushInodeTable();
    }

    /** createFile("root") on a blank table: inode 0 lists itself in the block that is given up next. */
    method CreateRootFile() returns (root: nat)
      requires Formatted(S())
      modifies this`inodes, this`bitmap, this`freeBlocksCount, disk
      ensures root == 0 && RootListed(old(S()), S())
    {
      hide Formatted, GoodListing, Listing, IsListable, EntryAdded, Flushed, RootListed, Encodable, FirstFree,
        AllUsed, Nodes, FreshNodes;
      ghost var s0 := S();
      RootDescribed(s0);
      RootFresh(s0);
      NotAllUsed(s0);
      var k := Search(inodes[currentDir], Nodes(s0)[0], ROOT_NAME);
      root := FindFreeInode();
      assert S() == s0;
      FirstIsRoot(s0, root);
      inodes := inodes[root := Fresh(inodes[root], Directory, currentDir)];
      ghost var nodes1 := FreshNodes(s0, 0, Directory);
      assert S() == FreshState(s0, 0, Directory);
      var added := AddDirEntry(root, ROOT_NAME, nodes1);
      ghost var s1 := S();
      CreatedFlushable(FreshState(s0, 0, Directory), nodes1, 0, Entry(0, ROOT_NAME), s1);
      FlushInodeTable();
      RootAdded(s0, s1, S());
    }

    method CreateRootDirectory()
      requires Formatted(S())
      modifies this`inodes, this`bitmap, this`freeBlocksCount, disk
      ensures Valid(S()) && Tree(S()) == EmptyTree() && ClearBits(bitmap) == TOTAL_BLOCKS - DATA_START - 2
      ensures MarkedBelow(bitmap, DATA_START + 2)
    {
      hide Formatted, Flushed, RootListed, Encodable, Shows, Nodes, Usable, TreeInv, Tree, EmptyTree, Owns, DotBlock,
        Consistent;
      ghost var s0 := S();
      var root := CreateRootFile();
      ghost var s1 := S();
      RootListedFacts(s0, s1);
      var b := AllocateBlock();
      ghost var s2 := S();
      inodes := inodes[root := inodes[root].(parent := root, fileSize := 136, blocks := inodes[root].blocks[0 := b])];
      assert S() == Furnished(s2, 0, b);
      RootFurnished(s0, s1, b, s2);
      FlushInodeTable();
      ghost var s4 := S();
      RootFlushed(s2, b, s4);
      PutBlock(0, 0, DotBlock(0, 0));
      RootDone(s0, s1, b, s2, s4, S());
    }

    /** Formats the disk. The count is set for one block more than there are clear bits. */
    method CreateSuperBlock()
      requires disk.Length == TOTAL_BLOCKS && currentDir == 0
      modifies this, disk
      ensures Valid(S()) && Tree(S()) == EmptyTree() && currentDir == 0 && MarkedBelow(bitmap, DATA_START + 2)
      ensures skew == 1 && freeBlocksCount == TOTAL_BLOCKS - DATA_START - 1
    {
      hide Usable, TreeInv, SuperblockBytes, Word, PackBits, BitmapSlice, Tree, EmptyTree;
      freeBlocksCount := TOTAL_BLOCKS - (SUPERBLOCK + TABLE_BLOCKS + BITMAP_BLOCKS);
      var total := Word(disk[SUPERBLOCK], 2);
      disk[SUPERBLOCK] := SuperblockBytes(freeBlocksCount, total);
      SuperblockIsSound(freeBlocksCount, total);
      InitializeBitmap();
      ClearAbove(bitmap, DATA_START);
      ghost var bits, before := bitmap, disk[..];
      InitializeINodeMap();
      skew := 1;
      CreateRootDirectory();
      CountIs(S());
    }

    // ----- mounting -----

    method LoadInodeTable()
      requires disk.Length == TOTAL_BLOCKS
      modifies this`inodes
      ensures inodes == DecodeTable(Region(disk[..], TABLE_START, TABLE_BLOCKS))
    {
      var bytes: seq<u8> := [];
      for i := 0 to TABLE_BLOCKS
        invariant bytes == Region(disk[..], TABLE_START, i)
      {
        bytes := bytes + disk[TABLE_START + i];
      }
      inodes := DecodeTable(bytes);
    }

    method LoadBitmap()
      requires disk.Length == TOTAL_BLOCKS
      modifies this`bitmap
      ensures bitmap == UnpackBits(Region(disk[..], BITMAP_START, BITMAP_BLOCKS))
    {
      var bytes: seq<u8> := [];
      for i := 0 to BITMAP_BLOCKS
        invariant bytes == Region(disk[..], BITMAP_START, i)
      {
        bytes := bytes + disk[BITMAP_START + i];
      }
      bitmap := UnpackBits(bytes);
    }

    /** Mounts a disk: one without the magic number is formatted; of one that an earlier session left, the
        tables, the tree and every inode's contents come back as they were. The free count is the one of the
        formatting, whatever has been allocated since. */
    method LoadSuperBlock(ghost was: State)
      requires disk.Length == TOTAL_BLOCKS && currentDir == 0
      requires Word(disk[SUPERBLOCK], 0) == MAGIC_NUMBER ==> Usable(was) && was.disk == disk[..]
      modifies this, disk
      ensures Usable(S()) && currentDir == 0
      ensures if Word(old(disk[SUPERBLOCK]), 0) == MAGIC_NUMBER
              then S() == was.(currentDir := 0) && Nodes(S()) == Nodes(was) && Tree(S()) == Tree(was)
                && freeBlocksCount == STALE_COUNT && (Valid(was) ==> Valid(S()))
              else Valid(S()) && Tree(S()) == EmptyTree()
    {
      hide Usable, TreeInv, Word, DecodeTable, UnpackBits, Region, Tree, EmptyTree;
      var magic := Word(disk[SUPERBLOCK], 0);
      ghost var s0 := was;
      freeBlocksCount := Word(disk[SUPERBLOCK], 1);
      if magic != MAGIC_NUMBER {
        CreateSuperBlock();
        s0 := S();
      }
      TablesOnDisk(s0);
      UsableAtRoot(s0);
      LoadInodeTable();
      LoadBitmap();
      skew := freeBlocksCount - ClearBits(bitmap);
      assert S() == s0.(currentDir := 0);
    }

    // ----- runs -----

    /** Whether a write to the name goes to a used inode. */
    method Writable(name: Name) returns (may: bool)
      requires Usable(S())
      ensures may <==> NamesUsed(S(), name)
    {
      hide Usable, Nodes, Lookup, FindEntry, HereEntries, Listing, IsListable, Consistent;
      UsableBasics(S());
      var found := FindFile(name, Nodes(S()));
      if found == -1 {
        return true;
      }
      FileInode(S(), name);
      may := inodes[found].isUsed;
    }

    /** Whether the named inode may be deleted: blocks below 4096, and not the current directory. */
    method Deletable(name: Name) returns (may: bool)
      requires Usable(S())
      ensures may <==> MayServe(S(), Delete(name))
    {
      hide Usable, Nodes, Lookup, FindEntry, HereEntries, Listing, IsListable, Consistent;
      UsableBasics(S());
      var found := FindFile(name, Nodes(S()));
      if found == -1 || found == 0 || name == DOT || name == DOTDOT {
        return true;
      }
      FileInode(S(), name);
      may := found != currentDir && forall k :: 0 <= k < MAX_BLOCKS ==> inodes[found].blocks[k] < 4096;
    }

    /** Whether the walk of a move ends: it comes to the root or to the moved directory before it comes back
        to where it has been. */
    method Movable(name: Name, dest: nat) returns (may: bool)
      requires Usable(S())
      ensures may <==> MoveEnds(S(), name, dest)
    {
      hide Usable, Nodes, Tree, Lookup, FindEntry, HereEntries, Listing, IsListable, Consistent, IsDirectory, Up,
        WalkEnds;
      UsableBasics(S());
      DirectoryIs(S(), dest);
      var found := FindFile(name, Nodes(S()));
      if found == -1 || found == 0 || name == DOT || name == DOTDOT {
        return true;
      }
      FileInode(S(), name);
      if inodes[found].kind != Directory || dest >= MAX_FILES || !inodes[dest].isUsed || inodes[dest].kind != Directory
        || dest == currentDir
      {
        return true;
      }
      may := Returns(dest, found);
    }

    /** Follows the parent links from d until the root, m or an inode seen before. */
    method Returns(d: nat, m: nat) returns (ends: bool)
      requires Usable(S()) && d < MAX_FILES
      ensures ends <==> WalkEnds(inodes, d, m)
    {
      hide Usable, Up, Meets;
      ghost var n := 0;
      UsableConsistent(S());
      UpStart(inodes, d);
      var x, seen := d, {};
      while x != m && x != 0 && x !in seen
        invariant x == Up(inodes, d, n) && x < |inodes|
        invariant forall j: nat :: j < n ==> Up(inodes, d, j) != m && Up(inodes, d, j) != 0
        invariant forall y :: y in seen ==> y < MAX_FILES && exists j: nat :: j < n && Up(inodes, d, j) == y
        decreases Below(MAX_FILES) - seen
      {
        UpStep(inodes, d, n, x);
        ParentExists(S(), x);
        seen := seen + {x};
        x := inodes[x].parent;
        n := n + 1;
      }
      ends := x == m || x == 0;
      if ends {
        WalkEnded(inodes, d, m, n);
      } else {
        ghost var a: nat :| a < n && Up(inodes, d, a) == x;
        WalkCircles(inodes, d, m, a, n);
      }
    }

    /** Whether cd would go to a used directory, if anywhere. */
    method Enterable(name: Name) returns (may: bool)
      requires Usable(S())
      ensures may <==> MayServe(S(), ChangeDirectory(name))
    {
      hide Usable, Nodes, Tree, Lookup, FindEntry, HereEntries, Listing, IsListable, Consistent, IsDirectory;
      UsableBasics(S());
      ParentExists(S(), currentDir);
      if name == DOT {
        DirectoryIs(S(), currentDir);
        return inodes[currentDir].isUsed && inodes[currentDir].kind == Directory;
      }
      if name == DOTDOT {
        var up := inodes[currentDir].parent;
        DirectoryIs(S(), up);
        return inodes[up].isUsed && inodes[up].kind == Directory;
      }
      var found := FindFile(name, Nodes(S()));
      if found == -1 {
        return true;
      }
      FileInode(S(), name);
      DirectoryIs(S(), found);
      may := inodes[found].kind == Directory ==> inodes[found].isUsed;
    }

    /** Serves one request, unless it is one the operations leave to their callers to rule out. */
    method Serve(r: Request)
      requires Usable(S())
      modifies this`inodes, this`bitmap, this`freeBlocksCount, this`currentDir, disk
      ensures Step(old(S()), r, S()) && Usable(S())
    {
      hide Usable, CanCreate, RunsDry, MayRename, LosesEntry, Nodes, HereEntries, Lookup, Tree, InodeCreated,
        DirectoryMade, DeletedBy, RenamedBy, LostBy, MovedOn, StoredBy, IsFile, CanMove, NamesUsed, MoveEnds,
        Removable, Victim, FindEntry, Unchanged, CdTarget;
      ghost var s0 := S();
      var may := true;
      match r {
        case Create(name) =>
          may := IsString(name);
          if may {
            var i := CreateFile(name, File);
          }
        case MakeDirectory(name) =>
          may := IsString(name);
          if may {
            var ok, i := CreateDir(name);
            DryCreates(s0, name);
          }
        case Store(name, data) =>
          may := Writable(name);
          if may {
            var ok, w := WriteFile(name, data);
          }
        case Delete(name) =>
          may := Deletable(name);
          if may {
            var ok := DeleteFile(name);
          }
        case Rename(name, newName) =>
          may := IsString(newName);
          if may {
            var ok := RenameFile(name, newName);
          }
        case Move(name, dest) =>
          may := Movable(name, dest);
          if may {
            var ok := MoveFile(name, dest);
          }
        case ChangeDirectory(name) =>
          may := Enterable(name);
          if may {
            var ok := Cd(name);
            CdSomewhere(s0, name);
          }
      }
      if may {
        ServedUsable(s0, r, S());
      }
    }

    /** Serves a run of requests, with the states it goes through. The free count stays at its distance from
        the number of clear bits. What the run keeps follows in FsRuns. */
    method Run(rs: seq<Request>) returns (ghost states: seq<State>)
      requires Usable(S())
      modifies this`inodes, this`bitmap, this`freeBlocksCount, this`currentDir, disk
      ensures IsRun(states, rs) && states[0] == old(S()) && states[|rs|] == S()
      ensures Usable(S()) && freeBlocksCount - ClearBits(bitmap) == old(freeBlocksCount - ClearBits(bitmap))
      ensures Valid(old(S())) && Clean(states, rs, |rs|) ==> Valid(S())
    {
      hide Usable, Valid, Step;
      CountIs(S());
      states := [S()];
      for i := 0 to |rs|
        invariant |states| == i + 1 && states[0] == old(S()) && states[i] == S() && Usable(S())
        invariant forall j :: 0 <= j < i ==> Step(states[j], rs[j], states[j + 1])
      {
        Serve(rs[i]);
        states := states + [S()];
      }
      CountIs(S());
      if Valid(old(S())) {
        RunValidIff(states, rs, |rs|);
      }
    }

    /** A new session on the disk that a run has left, whatever failed in it: the same tables, tree and
        contents, and the free count of the formatting. */
    static method Remount(rs: seq<Request>, v: Volume) returns (u: Volume, ghost states: seq<State>)
      requires Usable(v.S())
      modifies v`inodes, v`bitmap, v`freeBlocksCount, v`currentDir, v.disk
      ensures fresh(u) && u.disk == v.disk && Usable(u.S()) && IsRun(states, rs) && states[0] == old(v.S())
      ensures u.S() == states[|rs|].(currentDir := 0)
      ensures Nodes(u.S()) == Nodes(states[|rs|]) && Tree(u.S()) == Tree(states[|rs|])
      ensures u.freeBlocksCount == STALE_COUNT
      ensures Valid(old(v.S())) && Clean(states, rs, |rs|) ==> Valid(u.S())
    {
      hide Usable, TreeInv, Nodes, Tree, DecodeTable, UnpackBits, Region, Word, Step;
      states := v.Run(rs);
      u := new Volume(v.disk);
      DiskIsSound(v.S());
      SoundMagic(v.disk[SUPERBLOCK]);
      u.LoadSuperBlock(v.S());
    }
  }
}
