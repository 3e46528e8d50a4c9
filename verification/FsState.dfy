/** The whole state of a mounted volume as one value, and what each change to it does. The imperative
    code in FileSystem takes a snapshot before and after its steps; the reasoning is done here. */
module FsState {
  import opened Options
  import opened FsLayout
  import opened FsTree
  import opened FsVolume

  datatype State = State(inodes: seq<INode>, bitmap: seq<bool>, free: int, currentDir: nat, disk: seq<Block>)

  /** What holds even in the middle of an operation: ownership, the bitmap's copy on disk, the superblock,
      and the free count, taken less its fixed distance from the number of clear bits. */
  ghost predicate Consistent(s: State) {
    && AllocInv(s.inodes, s.bitmap) && BitmapCopy(s.bitmap, s.disk)
    && s.free == ClearBits(s.bitmap) && |s.disk| == TOTAL_BLOCKS && SuperblockSound(s.disk[SUPERBLOCK])
  }

  ghost function Nodes(s: State): (r: seq<Node>)
    ensures |r| == |s.inodes|
  {
    NodesOf(s.inodes, s.disk)
  }

  ghost function Tree(s: State): (t: seq<TNode>)
    ensures |t| == |s.inodes|
  {
    TreeOf(Nodes(s))
  }

  /** A directory node can be searched, and the inode numbers it lists exist. */
  ghost predicate Lists(n: Node) {
    GoodListing(n) && forall k :: 0 <= k < |Listing(n)| ==> Listing(n)[k].inode < MAX_FILES
  }

  ghost predicate AllList(nodes: seq<Node>) {
    forall d :: 0 <= d < |nodes| && nodes[d].isUsed && nodes[d].kind == Directory ==> Lists(nodes[d])
  }

  /** What holds between operations even after one of them has broken the tree: ownership, the copies on disk,
      and every directory can be worked on. */
  ghost predicate Usable(s: State) {
    && Consistent(s) && InodeCopy(s.inodes, s.disk) && AllList(Nodes(s))
    && IsDirectory(Tree(s), 0) && IsDirectory(Tree(s), s.currentDir)
  }

  /** What holds between operations. */
  ghost predicate Valid(s: State) {
    Usable(s) && TreeInv(Tree(s))
  }

  /** A consistent state whose inodes, seen through the disk, are these. */
  ghost predicate Shows(s: State, nodes: seq<Node>) {
    Consistent(s) && |s.inodes| == MAX_FILES && Nodes(s) == nodes
  }

  function NodeAt(nodes: seq<Node>, i: nat): Node {
    if i < |nodes| then nodes[i] else Node(File, 0, false, 0, [])
  }

  function SetBlock(nodes: seq<Node>, i: nat, k: nat, c: Block): (r: seq<Node>)
    ensures |r| == |nodes|
  {
    if i < |nodes| then nodes[i := nodes[i].(image := SetContent(nodes[i].image, k, c))] else nodes
  }

  function SetSize(nodes: seq<Node>, i: nat, size: nat): (r: seq<Node>)
    ensures |r| == |nodes|
  {
    if i < |nodes| then nodes[i := nodes[i].(fileSize := size)] else nodes
  }

  lemma SetBlockTwice(nodes: seq<Node>, i: nat, k: nat, c: Block, d: Block)
    ensures SetBlock(SetBlock(nodes, i, k, c), i, k, d) == SetBlock(nodes, i, k, d)
  {
    if i < |nodes| {
      assert SetContent(SetContent(nodes[i].image, k, c), k, d) == SetContent(nodes[i].image, k, d);
    }
  }

  // ----- single steps -----

  ghost predicate BlockAllocated(s0: State, s: State, found: nat) {
    && |s0.bitmap| == TOTAL_BLOCKS == |s0.disk| && found < TOTAL_BLOCKS && !s0.bitmap[found]
    && (forall b :: 0 <= b < found ==> s0.bitmap[b])
    && s == s0.(bitmap := s0.bitmap[found := true], free := s0.free - 1,
                disk := s0.disk[BITMAP_START
                  + found / 4096 := PackBits(BitmapSlice(s0.bitmap[found := true], found / 4096))])
  }

  lemma AllocationKeeps(s0: State, nodes: seq<Node>, s: State, found: nat)
    requires Shows(s0, nodes) && BlockAllocated(s0, s, found)
    ensures Shows(s, nodes)
    ensures DATA_START <= found && Unowned(s.inodes, found)
    ensures ClearBits(s.bitmap) == ClearBits(s0.bitmap) - 1
  {
    ClearBitsUpdate(s0.bitmap, found, true);
    ClearIsUnowned(s0.inodes, s0.bitmap, found);
    MarkBlock(s0.inodes, s0.bitmap, found);
    BitmapCopyUpdate(s0.bitmap, s0.disk, found, true, s.disk);
    SameData(s0.inodes, s0.bitmap, s0.disk, s.disk);
  }

  /** The block allocated is the lowest free one. */
  lemma TakenNext(s0: State, s: State, found: nat, bits: seq<bool>, c: nat)
    requires BlockAllocated(s0, s, found) && s0.bitmap == Take(bits, c)
    ensures s.bitmap == Take(bits, c + 1)
  {
    assert Lowest(s0.bitmap) == found;
  }

  lemma TakenOne(s0: State, s: State, found: nat)
    requires BlockAllocated(s0, s, found)
    ensures s.bitmap == Take(s0.bitmap, 1)
  {
    TakenNext(s0, s, found, s0.bitmap, 0);
  }

  /** The bit index is reduced modulo 4096 while the block of the copy is not. */
  ghost predicate BlockFreed(s0: State, s: State, b: nat) {
    && |s0.bitmap| == TOTAL_BLOCKS == |s0.disk| && b < TOTAL_BLOCKS
    && s == s0.(bitmap := s0.bitmap[b % 4096 := false], free := s0.free + 1,
                disk := s0.disk[BITMAP_START
                  + b / 4096 := PackBits(BitmapSlice(s0.bitmap[b % 4096 := false], b / 4096))])
  }

  function Record(s: State, i: nat, k: nat, b: nat): State {
    if i >= |s.inodes| || k >= |s.inodes[i].blocks| then s
    else s.(inodes := s.inodes[i := s.inodes[i].(blocks := s.inodes[i].blocks[k := b])])
  }

  lemma RecordKeeps(s: State, nodes: seq<Node>, i: nat, k: nat, b: nat)
    requires Shows(s, nodes) && i < MAX_FILES && k < MAX_BLOCKS && s.inodes[i].isUsed
    requires DATA_START <= b < TOTAL_BLOCKS && s.bitmap[b] && Unowned(s.inodes, b)
    ensures b < |s.disk| && Shows(Record(s, i, k, b), SetBlock(nodes, i, k, s.disk[b]))
    ensures Owns(Record(s, i, k, b), i, k)
  {
    assert GoodInode(s.inodes[i], s.bitmap);
    TakeBlock(s.inodes, s.bitmap, i, k, b);
    RecordBlock(s.inodes[i], s.disk, k, b);
    UpdateInode(s.inodes, s.disk, i, s.inodes[i].(blocks := s.inodes[i].blocks[k := b]));
  }

  /** How many of the first n slots have no block yet. */
  function Lacking(blocks: seq<nat>, n: nat): (c: nat)
    ensures c <= n
  {
    if n == 0 then 0 else Lacking(blocks, n - 1) + (if n <= |blocks| && blocks[n - 1] == 0 then 1 else 0)
  }

  /** Slot k of inode i has a block. */
  ghost predicate Owns(s: State, i: nat, k: nat) {
    i < |s.inodes| && k < |s.inodes[i].blocks| == MAX_BLOCKS && 0 < s.inodes[i].blocks[k] < |s.disk|
  }

  function Write(s: State, i: nat, k: nat, c: Block): State {
    if i >= |s.inodes| || k >= |s.inodes[i].blocks| || s.inodes[i].blocks[k] >= |s.disk| then s
    else s.(disk := s.disk[s.inodes[i].blocks[k] := c])
  }

  lemma WriteKeeps(s: State, nodes: seq<Node>, i: nat, k: nat, c: Block)
    requires Shows(s, nodes) && Owns(s, i, k)
    ensures Shows(Write(s, i, k, c), SetBlock(nodes, i, k, c))
  {
    assert GoodInode(s.inodes[i], s.bitmap);
    WriteOwned(s.inodes, s.bitmap, s.disk, i, k, c);
  }

  function Describe(s: State, i: nat, n: INode): State {
    if i >= |s.inodes| then s else s.(inodes := s.inodes[i := n])
  }

  /** Everything but the block list of inode i may change; a freed inode must own no block. */
  lemma DescribeKeeps(s: State, nodes: seq<Node>, i: nat, n: INode)
    requires Shows(s, nodes) && i < MAX_FILES
    requires n.blocks == s.inodes[i].blocks && n.parent < MAX_FILES && n.fileSize <= MAX_BLOCKS * 512
    requires n.isUsed || !s.inodes[i].isUsed || forall k :: 0 <= k < |n.blocks| ==> n.blocks[k] == 0
    ensures Shows(Describe(s, i, n),
      nodes[i := nodes[i].(kind := n.kind, fileSize := n.fileSize, isUsed := n.isUsed, parent := n.parent)])
  {
    SameBlocksKeepsAlloc(s.inodes, s.bitmap, i, n);
    UpdateInode(s.inodes, s.disk, i, n);
  }

  function Resize(s: State, i: nat, size: nat): State {
    if i >= |s.inodes| then s else s.(inodes := s.inodes[i := s.inodes[i].(fileSize := size)])
  }

  lemma ResizeKeeps(s: State, nodes: seq<Node>, i: nat, size: nat)
    requires Shows(s, nodes) && i < MAX_FILES && size <= MAX_BLOCKS * 512
    ensures Shows(Resize(s, i, size), SetSize(nodes, i, size))
  {
    assert GoodInode(s.inodes[i], s.bitmap);
    DescribeKeeps(s, nodes, i, s.inodes[i].(fileSize := size));
  }

  /** The inode table, and nothing else on disk, is written out. */
  ghost predicate Flushed(s0: State, s: State) {
    && s == s0.(disk := s.disk) && |s.disk| == TOTAL_BLOCKS == |s0.disk| && InodeCopy(s.inodes, s.disk)
    && forall b :: 0 <= b < TABLE_START || BITMAP_START <= b < TOTAL_BLOCKS ==> s.disk[b] == s0.disk[b]
  }

  lemma FlushKeeps(s0: State, nodes: seq<Node>, s: State)
    requires Shows(s0, nodes) && Flushed(s0, s)
    ensures Shows(s, nodes)
  {
    SameData(s0.inodes, s0.bitmap, s0.disk, s.disk);
  }

  // ----- adding an entry to a directory -----

  ghost predicate IsListable(s: State, nodes: seq<Node>, d: nat) {
    Shows(s, nodes) && d < MAX_FILES && s.inodes[d].isUsed && GoodListing(NodeAt(nodes, d))
  }

  lemma ListableOwns(s: State, nodes: seq<Node>, d: nat, k: nat)
    requires IsListable(s, nodes, d) && k < EntryCount(NodeAt(nodes, d))
    ensures k / 7 < MAX_BLOCKS && Owns(s, d, k / 7)
    ensures NodeAt(nodes, d).image[k / 7] == Some(s.disk[s.inodes[d].blocks[k / 7]])
  {
    assert GoodInode(s.inodes[d], s.bitmap);
    assert HasSlot(NodeAt(nodes, d), k);
  }

  lemma ListableInode(s: State, nodes: seq<Node>, d: nat)
    requires IsListable(s, nodes, d)
    ensures d < |s.inodes| && s.inodes[d].fileSize == NodeAt(nodes, d).fileSize && |s.inodes[d].blocks| == MAX_BLOCKS
    ensures |s.disk| == TOTAL_BLOCKS == |s.bitmap| && |s.inodes| == MAX_FILES == |nodes|
      && NodeAt(nodes, d).fileSize <= 30464
  {
    assert GoodInode(s.inodes[d], s.bitmap);
  }

  /** One more entry fits: a slot in the last block, or a block to be had for a new one. */
  ghost predicate Room(count: nat, clearBits: nat) {
    count % 7 != 0 || (count < 448 && clearBits > 0)
  }

  /** The bits an added entry uses up. */
  function Needed(count: nat): nat {
    if count % 7 == 0 then 1 else 0
  }

  /** The slot for the next entry of d is there: s1 is s0, possibly with a new block at the end. */
  ghost predicate SlotReady(s0: State, nodes: seq<Node>, d: nat, s1: State, block: Block) {
    var n := EntryCount(NodeAt(nodes, d));
    && d < |s0.inodes| && n < 448 && Owns(s1, d, n / 7)
    && s1 == s0.(inodes := s0.inodes[d := s0.inodes[d].(blocks := s1.inodes[d].blocks)], bitmap := s1.bitmap,
                 free := s1.free, disk := s1.disk)
    && ClearBits(s1.bitmap) == ClearBits(s0.bitmap) - Needed(n) && s1.bitmap == Take(s0.bitmap, Needed(n))
    && (n % 7 != 0 ==> Content(NodeAt(nodes, d).image, n / 7) == block)
    && exists c :: Shows(s1, SetBlock(nodes, d, n / 7, c))
  }

  lemma SlotFacts(s0: State, nodes: seq<Node>, d: nat, s1: State, block: Block)
    requires IsListable(s0, nodes, d) && SlotReady(s0, nodes, d, s1, block)
    ensures d < |s1.inodes| == MAX_FILES && s1.inodes[d].fileSize == NodeAt(nodes, d).fileSize <= 30464
    ensures Owns(s1, d, EntryCount(NodeAt(nodes, d)) / 7)
  {
    hide Consistent, GoodListing, Shows;
    ListableInode(s0, nodes, d);
  }

  lemma SlotInLastBlock(s: State, nodes: seq<Node>, d: nat)
    requires IsListable(s, nodes, d) && EntryCount(NodeAt(nodes, d)) % 7 != 0
    ensures EntryCount(NodeAt(nodes, d)) / 7 < MAX_BLOCKS
    ensures SlotReady(s, nodes, d, s, Content(NodeAt(nodes, d).image, EntryCount(NodeAt(nodes, d)) / 7))
  {
    var n := EntryCount(NodeAt(nodes, d));
    var block := Content(NodeAt(nodes, d).image, n / 7);
    ListableOwns(s, nodes, d, n - 1);
    assert (n - 1) / 7 == n / 7;
    assert SetContent(nodes[d].image, n / 7, block) == nodes[d].image;
    assert SetBlock(nodes, d, n / 7, block) == nodes;
    assert s.inodes == s.inodes[d := s.inodes[d].(blocks := s.inodes[d].blocks)];
  }

  lemma LastSlotOwned(s: State, nodes: seq<Node>, d: nat)
    requires IsListable(s, nodes, d) && EntryCount(NodeAt(nodes, d)) % 7 != 0
    ensures Owns(s, d, EntryCount(NodeAt(nodes, d)) / 7)
    ensures Content(NodeAt(nodes, d).image, EntryCount(NodeAt(nodes, d)) / 7)
      == s.disk[s.inodes[d].blocks[EntryCount(NodeAt(nodes, d)) / 7]]
  {
    var n := EntryCount(NodeAt(nodes, d));
    ListableOwns(s, nodes, d, n - 1);
    assert (n - 1) / 7 == n / 7;
  }

  lemma SlotInNewBlock(s0: State, nodes: seq<Node>, d: nat, s: State, found: nat, block: Block)
    requires IsListable(s0, nodes, d) && EntryCount(NodeAt(nodes, d)) % 7 == 0
      && EntryCount(NodeAt(nodes, d)) / 7 < MAX_BLOCKS
    requires BlockAllocated(s0, s, found)
    ensures SlotReady(s0, nodes, d, Record(s, d, EntryCount(NodeAt(nodes, d)) / 7, found), block)
  {
    hide Take, Lowest, ClearBits, Nodes, Terminated, SlotAt;
    AllocationKeeps(s0, nodes, s, found);
    TakenOne(s0, s, found);
    assert GoodInode(s.inodes[d], s.bitmap);
    RecordKeeps(s, nodes, d, EntryCount(NodeAt(nodes, d)) / 7, found);
  }

  /** The state after the block with the new entry is written and the size is up, before the flush. */
  function Stored(s1: State, nodes: seq<Node>, d: nat, patched: Block): State {
    Resize(Write(s1, d, EntryCount(NodeAt(nodes, d)) / 7, patched), d, NodeAt(nodes, d).fileSize + 68)
  }

  function Grown(nodes: seq<Node>, d: nat, patched: Block): seq<Node> {
    SetSize(SetBlock(nodes, d, EntryCount(NodeAt(nodes, d)) / 7, patched), d, NodeAt(nodes, d).fileSize + 68)
  }

  lemma StoredShows(s0: State, nodes: seq<Node>, d: nat, s1: State, block: Block, patched: Block)
    requires SlotReady(s0, nodes, d, s1, block) && d < MAX_FILES && NodeAt(nodes, d).fileSize + 68 <= 30464
    ensures Shows(Stored(s1, nodes, d, patched), Grown(nodes, d, patched))
  {
    hide Shows, SetBlock, Write, SetSize, Resize, NodeAt, EntryCount;
    var k := EntryCount(NodeAt(nodes, d)) / 7;
    var c :| Shows(s1, SetBlock(nodes, d, k, c));
    WriteKeeps(s1, SetBlock(nodes, d, k, c), d, k, patched);
    SetBlockTwice(nodes, d, k, c, patched);
    ResizeKeeps(Write(s1, d, k, patched), SetBlock(nodes, d, k, patched), d, NodeAt(nodes, d).fileSize + 68);
  }

  lemma GrownListing(s0: State, nodes: seq<Node>, d: nat, s1: State, block: Block, e: Entry)
    requires IsListable(s0, nodes, d) && SlotReady(s0, nodes, d, s1, block) && ValidName(e.name) && e.inode < MAX_FILES
    ensures var n := NodeAt(nodes, d);
      var r := NodeAt(Grown(nodes, d, Patch(block, 68 * (EntryCount(n) % 7), SlotBytes(e))), d);
      GoodListing(r) && Listing(r) == Listing(n) + [e] && n.fileSize + 68 <= 30464
  {
    var n := NodeAt(nodes, d);
    var r := NodeAt(Grown(nodes, d, Patch(block, 68 * (EntryCount(n) % 7), SlotBytes(e))), d);
    ListableInode(s0, nodes, d);
    if EntryCount(n) % 7 != 0 {
      ListableOwns(s0, nodes, d, EntryCount(n) - 1);
      assert (EntryCount(n) - 1) / 7 == EntryCount(n) / 7;
    }
    hide Shows, Owns;
    AppendSlot(n, r, block, e);
  }

  /** What appending entry e to directory d does, all of it. */
  ghost predicate EntryAdded(s0: State, nodes: seq<Node>, d: nat, e: Entry, s: State) {
    && |s.inodes| == |s0.inodes| && s.currentDir == s0.currentDir
    && (forall i :: 0 <= i < |s.inodes| && i != d ==> s.inodes[i] == s0.inodes[i])
    && InodeCopy(s.inodes, s.disk)
    && ClearBits(s.bitmap) == ClearBits(s0.bitmap) - Needed(EntryCount(NodeAt(nodes, d)))
    && s.bitmap == Take(s0.bitmap, Needed(EntryCount(NodeAt(nodes, d))))
    && exists r :: GoodListing(r) && Listing(r) == Listing(NodeAt(nodes, d)) + [e]
         && r == NodeAt(nodes, d).(fileSize := r.fileSize, image := r.image)
         && d < |nodes| && Shows(s, nodes[d := r])
  }

  lemma EntryStored(s0: State, nodes: seq<Node>, d: nat, s1: State, block: Block, e: Entry,
      patched: Block, s: State)
    requires IsListable(s0, nodes, d) && SlotReady(s0, nodes, d, s1, block) && ValidName(e.name) && e.inode < MAX_FILES
    requires patched == Patch(block, 68 * (EntryCount(NodeAt(nodes, d)) % 7), SlotBytes(e))
    requires Flushed(Stored(s1, nodes, d, patched), s)
    ensures EntryAdded(s0, nodes, d, e, s)
  {
    GrownListing(s0, nodes, d, s1, block, e);
    StoredShows(s0, nodes, d, s1, block, patched);
    FlushKeeps(Stored(s1, nodes, d, patched), Grown(nodes, d, patched), s);
    StoredInodes(s0, nodes, d, s1, block, patched, s);
    GrownNode(nodes, d, patched);
    hide Shows, Grown, Stored, GoodListing, Listing, InodeCopy, SlotReady, Flushed, Patch, SlotBytes;
    var r := NodeAt(Grown(nodes, d, patched), d);
    assert Shows(s, nodes[d := r]);
  }

  lemma GrownNode(nodes: seq<Node>, d: nat, patched: Block)
    requires d < |nodes|
    ensures var r := NodeAt(Grown(nodes, d, patched), d);
      Grown(nodes, d, patched) == nodes[d := r] && r == NodeAt(nodes, d).(fileSize := r.fileSize, image := r.image)
  {
  }

  lemma StoredInodes(s0: State, nodes: seq<Node>, d: nat, s1: State, block: Block, patched: Block,
      s: State)
    requires SlotReady(s0, nodes, d, s1, block) && Flushed(Stored(s1, nodes, d, patched), s)
    ensures InodeCopy(s.inodes, s.disk) && s.currentDir == s0.currentDir && |s.inodes| == |s0.inodes|
    ensures forall i :: 0 <= i < |s.inodes| && i != d ==> s.inodes[i] == s0.inodes[i]
    ensures ClearBits(s.bitmap) == ClearBits(s0.bitmap) - Needed(EntryCount(NodeAt(nodes, d)))
    ensures s.bitmap == Take(s0.bitmap, Needed(EntryCount(NodeAt(nodes, d))))
  {
    hide Shows, InodeCopy, EntryCount, Take;
  }

  // ----- removing an entry from a directory -----

  ghost predicate EntryRemoved(s0: State, nodes: seq<Node>, d: nat, k: nat, s: State) {
    && s == s0.(inodes := s.inodes, disk := s.disk) && |s.inodes| == |s0.inodes|
    && (forall i :: 0 <= i < |s.inodes| && i != d ==> s.inodes[i] == s0.inodes[i])
    && InodeCopy(s.inodes, s.disk)
    && d < |nodes| && Shows(s, nodes[d := RemovedNode(nodes[d], k)])
  }

  /** The block with entry k after its slot has taken the last entry's bytes, or zeros for the last entry. */
  function FillHole(block: Block, lastBuf: Block, k: nat, last: nat): Block {
    Patch(block, 68 * (k % 7), if k == last then Zeros(68) else Slot(lastBuf, last % 7))
  }

  function ClearSlot(block: Block, k: nat): Block {
    Patch(block, 68 * (k % 7), Zeros(68))
  }

  function LastEntry(n: Node): nat {
    if EntryCount(n) == 0 then 0 else EntryCount(n) - 1
  }

  function PatchedHole(n: Node, k: nat): Block {
    FillHole(Content(n.image, k / 7), Content(n.image, LastEntry(n) / 7), k, LastEntry(n))
  }

  /** The last block with its last slot cleared. */
  function ClearedLast(n: Node): Block {
    ClearSlot(Content(n.image, LastEntry(n) / 7), LastEntry(n))
  }

  /** Block l is written first, unless `once`; then block b; then the size changes. */
  function TwoWrites(s: State, d: nat, b: nat, p: Block, l: nat, c: Block, once: bool, size: nat): State {
    Resize(Write(if once then s else Write(s, d, l, c), d, b, p), d, size)
  }

  function TwoBlocks(nodes: seq<Node>, d: nat, b: nat, p: Block, l: nat, c: Block, once: bool, size: nat): seq<Node> {
    SetSize(SetBlock(if once then nodes else SetBlock(nodes, d, l, c), d, b, p), d, size)
  }

  lemma TwoWritesShow(s: State, nodes: seq<Node>, d: nat, b: nat, p: Block, l: nat, c: Block,
      once: bool, size: nat)
    requires Shows(s, nodes) && d < MAX_FILES && Owns(s, d, b) && Owns(s, d, l) && size <= 30464
    ensures Shows(TwoWrites(s, d, b, p, l, c, once, size), TwoBlocks(nodes, d, b, p, l, c, once, size))
  {
    if !once {
      WriteKeeps(s, nodes, d, l, c);
    }
    var s1 := if once then s else Write(s, d, l, c);
    var nodes1 := if once then nodes else SetBlock(nodes, d, l, c);
    assert Owns(s1, d, b);
    hide Shows, SetBlock, SetSize, Write, Resize;
    WriteKeeps(s1, nodes1, d, b, p);
    ResizeKeeps(Write(s1, d, b, p), SetBlock(nodes1, d, b, p), d, size);
  }

  lemma TwoBlocksNode(nodes: seq<Node>, d: nat, b: nat, p: Block, l: nat, c: Block, once: bool,
      size: nat)
    requires d < |nodes|
    ensures TwoBlocks(nodes, d, b, p, l, c, once, size) == nodes[d := nodes[d].(
      image := SetContent(if once then nodes[d].image else SetContent(nodes[d].image, l, c), b, p), fileSize := size)]
  {
    hide SetContent;
  }

  /** The writes that remove entry k of the directory n at inode d. */
  function Removing(s: State, n: Node, d: nat, k: nat): State {
    var last := LastEntry(n);
    TwoWrites(s, d, k / 7, PatchedHole(n, k), last / 7, ClearedLast(n), k == last, if n.fileSize < 68 then 0
      else n.fileSize - 68)
  }

  lemma RemovedNodeIs(n: Node, k: nat)
    requires GoodListing(n) && k < EntryCount(n)
    ensures var last := EntryCount(n) - 1;
      RemovedNode(n, k) == n.(
        image := SetContent(if k == last then n.image
          else SetContent(n.image, last / 7, ClearedLast(n)), k / 7, PatchedHole(n, k)),
        fileSize := n.fileSize - 68) && n.fileSize >= 68
  {
    hide Patch, Slot, SetContent, GoodListing, Content;
    var last := EntryCount(n) - 1;
    assert k == last <==> k / 7 == last / 7 && k % 7 == last % 7;
    assert n.fileSize >= 68;
    assert RemovedNode(n, k).image == RemovedFrom(n.image, k / 7, k % 7, last / 7, last % 7);
  }

  lemma RemovalOwns(s: State, nodes: seq<Node>, d: nat, k: nat)
    requires IsListable(s, nodes, d) && k < EntryCount(NodeAt(nodes, d))
    ensures Shows(s, nodes) && d < |nodes| && d < MAX_FILES && NodeAt(nodes, d) == nodes[d] && GoodListing(nodes[d])
    ensures Owns(s, d, k / 7) && Owns(s, d, (EntryCount(nodes[d]) - 1) / 7) && nodes[d].fileSize <= 30464
  {
    ListableInode(s, nodes, d);
    ListableOwns(s, nodes, d, k);
    ListableOwns(s, nodes, d, EntryCount(nodes[d]) - 1);
  }

  lemma RemovingShows(s: State, nodes: seq<Node>, d: nat, k: nat)
    requires IsListable(s, nodes, d) && k < EntryCount(NodeAt(nodes, d))
    ensures d < |nodes| && Shows(Removing(s, NodeAt(nodes, d), d, k), nodes[d := RemovedNode(nodes[d], k)])
  {
    hide IsListable, NodeAt, Shows, TwoWrites, TwoBlocks, Owns, PatchedHole, ClearedLast, RemovedNode, SetContent,
      GoodListing;
    RemovalOwns(s, nodes, d, k);
    RemovedNodeIs(nodes[d], k);
    var n := nodes[d];
    var last := EntryCount(n) - 1;
    var p, c, size := PatchedHole(n, k), ClearedLast(n), n.fileSize - 68;
    TwoWritesShow(s, nodes, d, k / 7, p, last / 7, c, k == last, size);
    TwoBlocksNode(nodes, d, k / 7, p, last / 7, c, k == last, size);
  }

  lemma RemovingInodes(s: State, n: Node, d: nat, k: nat)
    ensures var r := Removing(s, n, d, k);
      && r == s.(inodes := r.inodes, disk := r.disk) && |r.inodes| == |s.inodes|
      && forall i :: 0 <= i < |r.inodes| && i != d ==> r.inodes[i] == s.inodes[i]
  {
    hide PatchedHole, ClearedLast;
  }

  lemma EntryDropped(s0: State, nodes: seq<Node>, d: nat, k: nat, s: State)
    requires IsListable(s0, nodes, d) && k < EntryCount(NodeAt(nodes, d))
    requires Flushed(Removing(s0, NodeAt(nodes, d), d, k), s)
    ensures EntryRemoved(s0, nodes, d, k, s)
  {
    RemovingShows(s0, nodes, d, k);
    RemovingInodes(s0, nodes[d], d, k);
    hide Shows, Removing, RemovedNode, InodeCopy;
    FlushKeeps(Removing(s0, nodes[d], d, k), nodes[d := RemovedNode(nodes[d], k)], s);
  }

  lemma ShowsEncodable(s: State, nodes: seq<Node>)
    requires Shows(s, nodes)
    ensures |s.disk| == TOTAL_BLOCKS && |s.inodes| == MAX_FILES && Encodable(s.inodes)
  {
    EncodableInodes(s.inodes, s.bitmap);
  }

  /** The content of block k of inode i. */
  function BlockOf(s: State, i: nat, k: nat): Block {
    if i < |s.inodes| && k < |s.inodes[i].blocks|
      && s.inodes[i].blocks[k] < |s.disk| then s.disk[s.inodes[i].blocks[k]] else Zeros(512)
  }

  lemma ReadsContent(s: State, nodes: seq<Node>, d: nat, k: nat)
    requires IsListable(s, nodes, d) && k < EntryCount(NodeAt(nodes, d))
    ensures Owns(s, d, k / 7) && BlockOf(s, d, k / 7) == Content(NodeAt(nodes, d).image, k / 7)
  {
    ListableOwns(s, nodes, d, k);
  }

  lemma RemovingIs(s: State, nodes: seq<Node>, d: nat, k: nat, last: nat)
    requires IsListable(s, nodes, d) && k <= last == EntryCount(NodeAt(nodes, d)) - 1
    ensures d < |s.inodes| && s.inodes[d].fileSize >= 68 && Owns(s, d, k / 7) && Owns(s, d, last / 7)
    ensures Removing(s, NodeAt(nodes, d), d, k)
      == TwoWrites(s, d, k / 7, FillHole(BlockOf(s, d, k / 7), BlockOf(s, d, last / 7), k, last),
      last / 7, ClearSlot(BlockOf(s, d, last / 7), last), k == last, s.inodes[d].fileSize - 68)
  {
    ListableInode(s, nodes, d);
    ReadsContent(s, nodes, d, k);
    ReadsContent(s, nodes, d, last);
    hide TwoWrites, FillHole, ClearSlot, BlockOf, Content, Owns;
    assert LastEntry(NodeAt(nodes, d)) == last;
  }

  lemma RemovingEncodable(s: State, nodes: seq<Node>, d: nat, k: nat)
    requires IsListable(s, nodes, d) && k < EntryCount(NodeAt(nodes, d))
    ensures var r := Removing(s, NodeAt(nodes, d), d, k);
      |r.disk| == TOTAL_BLOCKS && |r.inodes| == MAX_FILES && Encodable(r.inodes)
  {
    hide Removing, RemovedNode, Shows, IsListable;
    RemovingShows(s, nodes, d, k);
    ShowsEncodable(Removing(s, NodeAt(nodes, d), d, k), nodes[d := RemovedNode(nodes[d], k)]);
  }
}
