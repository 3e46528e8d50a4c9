/** Formatting and mounting: the first state of a volume, and reading one back from its disk. */
module FsFormat {
  import opened Bytes
  import opened TwosComplement
  import opened FsLayout
  import opened FsTree
  import opened FsVolume
  import opened FsState
  import opened FsOps

  const ROOT_NAME: Name := [114, 111, 111, 116]

  /** An inode of all zero bytes. */
  ghost predicate IsBlank(n: INode) {
    && n.kind == File && n.fileSize == 0 && !n.isUsed && n.parent == 0
    && |n.blocks| == MAX_BLOCKS && forall k :: 0 <= k < MAX_BLOCKS ==> n.blocks[k] == 0
  }

  function Blank(): (n: INode)
    ensures IsBlank(n)
  {
    INode(File, 0, seq(64, _ => 0), false, 0)
  }

  /** The superblock as it is written: seven words, the rest zero. */
  function SuperblockBytes(free: nat, total: nat): Block {
    EncodeWords([MAGIC_NUMBER, free, total, TABLE_START, TABLE_BLOCKS, BITMAP_START, BITMAP_BLOCKS]) + Zeros(484)
  }

  lemma {:induction false} EncodedWord(ws: seq<nat>, k: nat)
    requires k < |ws| && ws[k] < 0x1_0000_0000
    ensures LeVal(EncodeWords(ws)[4 * k..4 * k + 4]) == ws[k]
  {
    var s := EncodeWords(ws);
    if k == 0 {
      assert s[0..4] == LeBytes(ws[0], 4);
      Pow2Values();
      LeValOfBytes(ws[0], 4);
    } else {
      EncodedWord(ws[1..], k - 1);
      assert s[4..] == EncodeWords(ws[1..]);
      assert s[4 * k..4 * k + 4] == s[4..][4 * (k - 1)..4 * (k - 1) + 4];
    }
  }

  lemma SuperblockIsSound(free: nat, total: nat)
    requires free == STALE_COUNT
    ensures SuperblockSound(SuperblockBytes(free, total))
  {
    var ws := [MAGIC_NUMBER, free, total, TABLE_START, TABLE_BLOCKS, BITMAP_START, BITMAP_BLOCKS];
    var b := SuperblockBytes(free, total);
    forall k | 0 <= k < 7 && k != 2 ensures Word(b, k) == ws[k] {
      EncodedWord(ws, k);
      assert b[4 * k..4 * k + 4] == EncodeWords(ws)[4 * k..4 * k + 4];
    }
    hide SuperblockBytes, Word;
    assert Word(b, 0) == ws[0] && Word(b, 1) == ws[1] && Word(b, 3) == ws[3] && Word(b, 4) == ws[4]
      && Word(b, 5) == ws[5] && Word(b, 6) == ws[6];
  }

  /** Exactly the first n blocks are marked. */
  ghost predicate MarkedBelow(bitmap: seq<bool>, n: nat) {
    |bitmap| == TOTAL_BLOCKS && forall b :: 0 <= b < TOTAL_BLOCKS ==> (bitmap[b] <==> b < n)
  }

  lemma {:induction false} ClearAbove(bits: seq<bool>, n: nat)
    requires forall b :: 0 <= b < |bits| ==> (bits[b] <==> b < n)
    ensures ClearBits(bits) == if n <= |bits| then |bits| - n else 0
  {
    if bits != [] {
      ClearAbove(bits[..|bits| - 1], n);
    }
  }

  /** The tables after formatting, before the root exists. */
  ghost predicate Formatted(s: State) {
    && MarkedBelow(s.bitmap, DATA_START) && BitmapCopy(s.bitmap, s.disk) && s.currentDir == 0
    && |s.inodes| == MAX_FILES && (forall i :: 0 <= i < MAX_FILES ==> IsBlank(s.inodes[i]))
    && s.free == ClearBits(s.bitmap) && |s.disk| == TOTAL_BLOCKS && SuperblockSound(s.disk[SUPERBLOCK])
  }

  lemma FormattedShows(s: State)
    requires Formatted(s)
    ensures Shows(s, Nodes(s)) && |Nodes(s)| == MAX_FILES && ClearBits(s.bitmap) == TOTAL_BLOCKS - DATA_START
      && MarkedBelow(s.bitmap, DATA_START)
    ensures forall i :: 0 <= i < MAX_FILES ==> !Nodes(s)[i].isUsed && |Nodes(s)[i].image| == MAX_BLOCKS
  {
    ClearAbove(s.bitmap, DATA_START);
    forall i | 0 <= i < MAX_FILES ensures GoodInode(s.inodes[i], s.bitmap) {
    }
    forall i, k, j, l | 0 <= i < MAX_FILES && 0 <= j < MAX_FILES && 0 <= k < MAX_BLOCKS && 0 <= l < MAX_BLOCKS
      ensures SameOwner(s.inodes, i, k, j, l)
    {
    }
  }

  /** The root inode is described but lists nothing yet. */
  lemma RootDescribed(s: State)
    requires Formatted(s)
    ensures IsListable(FreshState(s, 0, Directory), FreshNodes(s, 0, Directory), 0)
      && EntryCount(FreshNodes(s, 0, Directory)[0]) == 0
    ensures FreshState(s, 0, Directory).bitmap == s.bitmap && |s.inodes| == MAX_FILES && EntryCount(Nodes(s)[0]) == 0
      && GoodListing(Nodes(s)[0])
    ensures Nodes(s)[0] == NodeOf(s.inodes[0], s.disk) && |s.inodes[0].blocks| == MAX_BLOCKS && |s.disk| == TOTAL_BLOCKS
  {
    FormattedShows(s);
    FreshShows(s, Nodes(s), 0, Directory, 0);
    hide Consistent;
  }

  lemma FirstIsRoot(s: State, i: nat)
    requires Formatted(s) && FirstFree(s, i)
    ensures i == 0
  {
    assert IsBlank(s.inodes[0]);
  }

  lemma NotAllUsed(s: State)
    requires Formatted(s)
    ensures !AllUsed(s)
  {
    assert !s.inodes[0].isUsed;
  }

  /** After "root" has been added to the root inode itself. */
  ghost predicate RootListed(s0: State, s: State) {
    && Formatted(s0) && |s.inodes| == MAX_FILES && s.currentDir == 0
    && ClearBits(s.bitmap) == TOTAL_BLOCKS - DATA_START - 1 && |s.bitmap| == TOTAL_BLOCKS == |s.disk|
    && s.inodes[0].isUsed && s.inodes[0].parent == 0 && s.inodes[0].kind == Directory
    && |s.inodes[0].blocks| == MAX_BLOCKS && MarkedBelow(s.bitmap, DATA_START + 1)
    && exists r: Node ::
      r.isUsed && r.kind == Directory && r.parent == 0 && |r.image| == MAX_BLOCKS && Shows(s, Nodes(s0)[0 := r])
  }

  lemma RootAdded(s0: State, s1: State, s: State)
    requires Formatted(s0) && EntryAdded(FreshState(s0, 0, Directory), FreshNodes(s0, 0, Directory), 0,
      Entry(0, ROOT_NAME), s1)
    requires Flushed(s1, s)
    ensures RootListed(s0, s)
  {
    hide Consistent, Flushed, EntryAdded, Listing, GoodListing, IsListable, Formatted, InodeCopy, MarkedBelow, Take;
    FormattedShows(s0);
    RootDescribed(s0);
    RootFresh(s0);
    var r := AddedNode(FreshState(s0, 0, Directory), FreshNodes(s0, 0, Directory), 0, Entry(0, ROOT_NAME), s1);
    var nodes := FreshNodes(s0, 0, Directory)[0 := r];
    FlushKeeps(s1, nodes, s);
    assert nodes == Nodes(s0)[0 := r];
    RootInode(s, nodes);
    AddedRest(FreshState(s0, 0, Directory), FreshNodes(s0, 0, Directory), 0, Entry(0, ROOT_NAME), s1);
    FlushedState(s1, s);
    TakenBelow(s0.bitmap, DATA_START, 1);
  }

  /** Of a map marked below n, the next blocks taken are those from n on. */
  lemma {:induction false} TakenBelow(bits: seq<bool>, n: nat, c: nat)
    requires MarkedBelow(bits, n) && n + c <= TOTAL_BLOCKS
    ensures MarkedBelow(Take(bits, c), n + c)
  {
    if c > 0 {
      TakenBelow(bits, n, c - 1);
      assert !Take(bits, c - 1)[n + c - 1];
      assert Lowest(Take(bits, c - 1)) == n + c - 1;
    }
  }

  lemma AllocatedBelow(s0: State, s: State, found: nat, n: nat)
    requires BlockAllocated(s0, s, found) && MarkedBelow(s0.bitmap, n) && n < TOTAL_BLOCKS
    ensures MarkedBelow(s.bitmap, n + 1)
  {
    assert found == n;
  }

  lemma RootFresh(s: State)
    requires Formatted(s)
    ensures |Nodes(s)| == MAX_FILES == |s.inodes| && s.currentDir == 0
    ensures var n := FreshNodes(s, 0, Directory)[0];
      n.isUsed && n.kind == Directory && n.parent == 0 && |n.image| == MAX_BLOCKS
    ensures FreshState(s, 0, Directory).currentDir == 0 && ClearBits(s.bitmap) == TOTAL_BLOCKS - DATA_START
  {
    FormattedShows(s);
  }

  lemma RootInode(s: State, nodes: seq<Node>)
    requires Shows(s, nodes)
    ensures |nodes| == MAX_FILES == |s.inodes| && |s.bitmap| == TOTAL_BLOCKS == |s.disk|
    ensures s.inodes[0].isUsed == nodes[0].isUsed && s.inodes[0].parent == nodes[0].parent
      && s.inodes[0].kind == nodes[0].kind
    ensures |s.inodes[0].blocks| == MAX_BLOCKS
  {
    assert GoodInode(s.inodes[0], s.bitmap);
  }

  lemma FlushedState(s0: State, s: State)
    requires Flushed(s0, s)
    ensures s.currentDir == s0.currentDir && s.bitmap == s0.bitmap && InodeCopy(s.inodes, s.disk)
  {
  }

  // ----- the finished volume -----

  /** A tree with nothing in it. */
  function EmptyTree(): seq<TNode> {
    seq(MAX_FILES, i => if i == 0 then TNode(true, true, 0, [Entry(0, DOT), Entry(0, DOTDOT)]) else FREE_NODE)
  }

  lemma EmptyTreeHolds()
    ensures TreeInv(EmptyTree()) && IsDirectory(EmptyTree(), 0)
  {
    var t := EmptyTree();
    assert Ancestor(t, 0, 0) == 0;
    assert GoodDirectory(t, 0);
  }

  lemma RootTree(s0: State, r: Node, s: State)
    requires Formatted(s0) && r.isUsed && r.kind == Directory && r.parent == 0 && |r.image| == MAX_BLOCKS
    requires |Nodes(s0)| == MAX_FILES && Shows(s, SetSize(SetBlock(Nodes(s0)[0 := r], 0, 0, DotBlock(0, 0)), 0, 136))
    ensures Tree(s) == EmptyTree()
  {
    hide Consistent, DotBlock, GoodListing, Listing, Formatted;
    FormattedShows(s0);
    var q := r.(image := SetContent(r.image, 0, DotBlock(0, 0)), fileSize := 136);
    var nodes := Nodes(s0)[0 := q];
    assert SetSize(SetBlock(Nodes(s0)[0 := r], 0, 0, DotBlock(0, 0)), 0, 136) == nodes;
    DotListing(q, 0, 0);
    forall i | 0 <= i < MAX_FILES ensures TNodeOf(nodes[i]) == EmptyTree()[i] {
    }
    assert TreeOf(nodes) == EmptyTree();
  }

  lemma RootDone(s0: State, s1: State, b: nat, s2: State, s4: State, s: State)
    requires Formatted(s0) && RootListed(s0, s1) && BlockAllocated(s1, s2, b) && Flushed(Furnished(s2, 0, b), s4)
    requires s == Write(s4, 0, 0, DotBlock(0, 0))
    ensures Valid(s) && Tree(s) == EmptyTree() && ClearBits(s.bitmap) == TOTAL_BLOCKS - DATA_START - 2
    ensures MarkedBelow(s.bitmap, DATA_START + 2)
  {
    hide Consistent, DotBlock, Formatted, Flushed, Furnished, SetSize, SetBlock, Nodes, Write, AllocInv, BitmapCopy,
      InodeCopy, TreeInv, Tree, Shows;
    FormattedShows(s0);
    var r: Node :| r.isUsed && r.kind == Directory && r.parent == 0 && |r.image| == MAX_BLOCKS
      && Shows(s1, Nodes(s0)[0 := r]);
    var nodes := Nodes(s0)[0 := r];
    FurnishedShows(s1, nodes, 0, s2, b);
    DotsWritten(Furnished(s2, 0, b), nodes, 0, s2.disk[b], s4, 0);
    RootInode(s1, nodes);
    RootTree(s0, r, s);
    EmptyTreeHolds();
    AllocationKeeps(s1, nodes, s2, b);
    AllocatedBelow(s1, s2, b, DATA_START + 1);
    RootRest(s2, b, s4, s);
    RootValid(s, SetSize(SetBlock(nodes, 0, 0, DotBlock(0, 0)), 0, 136));
  }

  lemma RootRest(s2: State, b: nat, s4: State, s: State)
    requires Flushed(Furnished(s2, 0, b), s4) && s == Write(s4, 0, 0, DotBlock(0, 0))
    ensures s.currentDir == s2.currentDir && s.bitmap == s2.bitmap
  {
    hide DotBlock;
  }

  lemma RootValid(s: State, nodes: seq<Node>)
    requires Shows(s, nodes) && InodeCopy(s.inodes, s.disk) && Tree(s) == EmptyTree() && s.currentDir == 0
    ensures Valid(s)
  {
    hide InodeCopy, AllocInv, BitmapCopy, AllList, Tree;
    EmptyTreeHolds();
    IsValid(s);
  }

  lemma RootListedFacts(s0: State, s: State)
    requires RootListed(s0, s)
    ensures |s.bitmap| == TOTAL_BLOCKS == |s.disk| && ClearBits(s.bitmap) > 0 && |s.inodes| == MAX_FILES
      && |s.inodes[0].blocks| == MAX_BLOCKS
    ensures s.inodes[0].parent == 0
  {
  }

  lemma RootFurnished(s0: State, s1: State, b: nat, s2: State)
    requires Formatted(s0) && RootListed(s0, s1) && BlockAllocated(s1, s2, b)
    ensures var r := Furnished(s2, 0, b);
      |r.disk| == TOTAL_BLOCKS && |r.inodes| == MAX_FILES && Encodable(r.inodes) && Owns(r, 0, 0)
  {
    hide Consistent, Formatted, Encodable, Furnished, SetSize, SetBlock, Nodes, Shows;
    FormattedShows(s0);
    var r: Node :| r.isUsed && r.kind == Directory && r.parent == 0 && |r.image| == MAX_BLOCKS
      && Shows(s1, Nodes(s0)[0 := r]);
    var nodes := Nodes(s0)[0 := r];
    FurnishedShows(s1, nodes, 0, s2, b);
    ShowsEncodable(Furnished(s2, 0, b), SetSize(SetBlock(nodes, 0, 0, s2.disk[b]), 0, 136));
  }

  lemma RootFlushed(s2: State, b: nat, s4: State)
    requires Flushed(Furnished(s2, 0, b), s4) && Owns(Furnished(s2, 0, b), 0, 0)
    ensures Owns(s4, 0, 0)
  {
  }

  lemma CountIs(s: State)
    requires Usable(s)
    ensures s.free == ClearBits(s.bitmap)
  {
  }

  // ----- mounting -----

  /** The superblock is sound and the tables decode from the disk. */
  ghost predicate OnDisk(inodes: seq<INode>, bitmap: seq<bool>, disk: seq<Block>) {
    && |disk| == TOTAL_BLOCKS && SuperblockSound(disk[SUPERBLOCK])
    && DecodeTable(Region(disk, TABLE_START, TABLE_BLOCKS)) == inodes
    && UnpackBits(Region(disk, BITMAP_START, BITMAP_BLOCKS)) == bitmap
  }

  /** What loading does not change: the tables are those on the disk. */
  lemma TablesOnDisk(s: State)
    requires Usable(s)
    ensures OnDisk(s.inodes, s.bitmap, s.disk)
  {
    hide AllList, Tree;
    CopiesDetermineTables(s.inodes, s.bitmap, s.disk);
  }

  /** What one session leaves usable, or valid, is so for the next, which starts at the root. */
  lemma UsableAtRoot(was: State)
    requires Usable(was)
    ensures Usable(was.(currentDir := 0)) && was.free == ClearBits(was.bitmap)
    ensures Tree(was.(currentDir := 0)) == Tree(was)
  {
    hide AllList, TreeOf, AllocInv, BitmapCopy, InodeCopy;
  }

  lemma DiskIsSound(s: State)
    requires Usable(s)
    ensures |s.disk| == TOTAL_BLOCKS && SuperblockSound(s.disk[SUPERBLOCK])
  {
  }

  lemma SoundMagic(b: Block)
    requires SuperblockSound(b)
    ensures Word(b, 0) == MAGIC_NUMBER && Word(b, 1) == STALE_COUNT
  {
  }
}
