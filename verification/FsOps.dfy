/** What each file-system operation does to the tree and to file contents, from what it does to the
    nodes. */
module FsOps {
  import opened Options
  import opened FsLayout
  import opened FsTree
  import opened FsVolume
  import opened FsState

  /** Every file keeps its size and its blocks' contents; it may be listed elsewhere. */
  ghost predicate SameContents(n0: seq<Node>, n1: seq<Node>) {
    |n0| == |n1| && forall j :: 0 <= j < |n0| && n0[j].isUsed && n0[j].kind == File ==> SameContent(n0[j], n1[j])
  }

  ghost predicate SameContent(a: Node, b: Node) {
    b.isUsed && b.kind == File && b.fileSize == a.fileSize && b.image == a.image
  }

  lemma TreeUpdate(nodes: seq<Node>, i: nat, n: Node)
    requires i < |nodes|
    ensures TreeOf(nodes[i := n]) == TreeOf(nodes)[i := TNodeOf(n)]
  {
  }

  /** The directories of a tree can all be worked on. */
  lemma IsValid(s: State)
    requires Consistent(s) && InodeCopy(s.inodes, s.disk) && TreeInv(Tree(s)) && IsDirectory(Tree(s), s.currentDir)
    ensures Valid(s)
  {
    hide Consistent, InodeCopy;
    forall d | 0 <= d < |Nodes(s)| && Nodes(s)[d].isUsed && Nodes(s)[d].kind == Directory ensures Lists(Nodes(s)[d]) {
      ValidLists(s, d);
    }
  }

  lemma ValidLists(s: State, d: nat)
    requires TreeInv(Tree(s)) && d < |s.inodes| && Nodes(s)[d].isUsed && Nodes(s)[d].kind == Directory
    ensures Lists(Nodes(s)[d])
  {
    assert TNodeOf(Nodes(s)[d]) == Tree(s)[d];
    assert GoodDirectory(Tree(s), d);
    hide Nodes;
    assert d == 0 || Listed(Tree(s), d);
    forall k | 0 <= k < |Listing(Nodes(s)[d])| ensures Listing(Nodes(s)[d])[k].inode < MAX_FILES {
      if k >= 2 {
        assert GoodEntry(Tree(s), d, k);
      }
    }
  }

  /** Every directory of a valid volume can be searched and changed. */
  lemma DirectoryListable(s: State, d: nat)
    requires Usable(s) && IsDirectory(Tree(s), d)
    ensures IsListable(s, Nodes(s), d) && Tree(s)[d].entries == Listing(Nodes(s)[d])
    ensures |Tree(s)[d].entries| == EntryCount(Nodes(s)[d]) && Nodes(s)[d].kind == Directory && Lists(Nodes(s)[d])
  {
    hide InodeCopy, TreeOf;
    DirectoryNodeOf(s, d);
    UsedIs(s, d);
    hide GoodListing, NodesOf;
  }

  lemma DirectoryNodeOf(s: State, d: nat)
    requires IsDirectory(Tree(s), d)
    ensures d < |s.inodes| && Nodes(s)[d].isUsed && Nodes(s)[d].kind == Directory
    ensures Tree(s)[d].entries == Listing(Nodes(s)[d])
  {
    assert TNodeOf(Nodes(s)[d]) == Tree(s)[d];
  }

  lemma UsedIs(s: State, i: nat)
    requires Consistent(s) && i < |s.inodes|
    ensures Tree(s)[i].used == s.inodes[i].isUsed
    ensures Tree(s)[i].used ==>
      Tree(s)[i].isDir == (s.inodes[i].kind == Directory) && Tree(s)[i].parent == s.inodes[i].parent
    ensures !Tree(s)[i].used ==> Tree(s)[i] == FREE_NODE
  {
    assert TNodeOf(Nodes(s)[i]) == Tree(s)[i];
  }

  // ----- what keeps a volume usable -----

  ghost predicate DirectoryNodeAt(nodes: seq<Node>, d: nat) {
    d < |nodes| && nodes[d].isUsed && nodes[d].kind == Directory
  }

  lemma IsUsable(s: State, nodes: seq<Node>)
    requires Shows(s, nodes) && InodeCopy(s.inodes, s.disk) && AllList(nodes)
    requires DirectoryNodeAt(nodes, 0) && DirectoryNodeAt(nodes, s.currentDir)
    ensures Usable(s)
  {
    hide Consistent, InodeCopy, AllList, NodesOf;
    assert TNodeOf(Nodes(s)[0]) == Tree(s)[0];
    assert TNodeOf(Nodes(s)[s.currentDir]) == Tree(s)[s.currentDir];
  }

  lemma UsableConsistent(s: State)
    requires Usable(s)
    ensures Consistent(s) && |s.inodes| == MAX_FILES
  {
  }

  lemma UsableNodes(s: State)
    requires Usable(s)
    ensures Shows(s, Nodes(s)) && AllList(Nodes(s)) && |Nodes(s)| == MAX_FILES
    ensures DirectoryNodeAt(Nodes(s), 0) && DirectoryNodeAt(Nodes(s), s.currentDir)
  {
    hide InodeCopy, AllList, NodesOf, BitmapCopy;
    DirectoryNodeOf(s, 0);
    DirectoryNodeOf(s, s.currentDir);
  }

  lemma AllListUpdate(nodes: seq<Node>, i: nat, n: Node)
    requires AllList(nodes) && i < |nodes| && (n.isUsed && n.kind == Directory ==> Lists(n))
    ensures AllList(nodes[i := n])
  {
    hide Lists;
  }

  lemma NothingListed(n: Node)
    requires |n.image| == MAX_BLOCKS && n.fileSize == 0
    ensures Lists(n)
  {
    assert EntryCount(n) == 0;
  }

  lemma GrownLists(n: Node, r: Node, e: Entry)
    requires Lists(n) && GoodListing(r) && Listing(r) == Listing(n) + [e] && e.inode < MAX_FILES
    ensures Lists(r)
  {
    hide GoodListing, Listing;
  }

  // ----- creating -----

  /** The lowest inode not in use. */
  ghost predicate FirstFree(s: State, i: nat) {
    i < |s.inodes| && !s.inodes[i].isUsed && forall j :: 0 <= j < i ==> s.inodes[j].isUsed
  }

  ghost predicate AllUsed(s: State) {
    forall j :: 0 <= j < |s.inodes| ==> s.inodes[j].isUsed
  }

  function Fresh(n: INode, kind: FileType, parent: nat): INode {
    n.(kind := kind, fileSize := 0, isUsed := true, parent := parent)
  }

  function FreshNode(n: Node, kind: FileType, parent: nat): Node {
    n.(kind := kind, fileSize := 0, isUsed := true, parent := parent)
  }

  /** The new inode is described in the table; its entry is still missing. */
  function FreshState(s: State, i: nat, kind: FileType): State {
    if i < |s.inodes| then Describe(s, i, Fresh(s.inodes[i], kind, s.currentDir)) else s
  }

  ghost function FreshNodes(s: State, i: nat, kind: FileType): (r: seq<Node>)
    ensures |r| == |s.inodes|
  {
    if i < |s.inodes| then Nodes(s)[i := FreshNode(Nodes(s)[i], kind, s.currentDir)] else Nodes(s)
  }

  lemma FreshShows(s: State, nodes: seq<Node>, i: nat, kind: FileType, d: nat)
    requires Shows(s, nodes) && i < MAX_FILES && d < MAX_FILES
    ensures Shows(Describe(s, i, Fresh(s.inodes[i], kind, d)), nodes[i := FreshNode(nodes[i], kind, d)])
  {
    DescribeKeeps(s, nodes, i, Fresh(s.inodes[i], kind, d));
  }

  /** Taking the inode back after there was no room for its entry. */
  lemma FreshUndone(s: State, nodes: seq<Node>, i: nat, kind: FileType, d: nat)
    requires Shows(s, nodes) && i < MAX_FILES && d < MAX_FILES && !s.inodes[i].isUsed
    ensures Shows(Describe(s, i, Fresh(s.inodes[i], kind, d).(isUsed := false)),
      nodes[i := FreshNode(nodes[i], kind, d).(isUsed := false)])
  {
    assert GoodInode(s.inodes[i], s.bitmap);
    DescribeKeeps(s, nodes, i, Fresh(s.inodes[i], kind, d).(isUsed := false));
  }

  /** A free inode's description does not matter. */
  lemma FreeNodeIgnored(nodes: seq<Node>, i: nat, n: Node)
    requires i < |nodes| && !nodes[i].isUsed && !n.isUsed
    ensures TreeOf(nodes[i := n]) == TreeOf(nodes) && SameContents(nodes, nodes[i := n])
  {
    TreeUpdate(nodes, i, n);
    assert TreeOf(nodes)[i] == TNodeOf(nodes[i]);
  }

  /** A fresh node followed by an added entry is the tree step of creating. */
  // Automatic induction over the sequence only gets in the way here.
  lemma {:induction false} CreatedTree(nodes: seq<Node>, i: nat, kind: FileType, d: nat, name: Name, r: Node)
    requires i < |nodes| && d < |nodes| && i != d && nodes[d].isUsed && nodes[d].kind == Directory
    requires !nodes[i].isUsed && |nodes[i].image| == MAX_BLOCKS
    requires r == nodes[d].(fileSize := r.fileSize, image := r.image)
      && Listing(r) == Listing(nodes[d]) + [Entry(i, name)]
    ensures var after := nodes[i := FreshNode(nodes[i], kind, d)][d := r];
      TreeOf(after) == BareCreated(TreeOf(nodes), d, i, name, kind == Directory)
  {
    var n := FreshNode(nodes[i], kind, d);
    TreeUpdate(nodes, i, n);
    TreeUpdate(nodes[i := n], d, r);
    assert EntryCount(n) == 0 && Listing(n) == [];
  }

  lemma CreatedContents(nodes: seq<Node>, i: nat, n: Node, d: nat, r: Node)
    requires i < |nodes| && d < |nodes| && !nodes[i].isUsed && nodes[d].kind == Directory
    ensures SameContents(nodes, nodes[i := n][d := r])
  {
  }

  // ----- outcomes of whole operations -----

  /** What the current directory lists. */
  ghost function HereEntries(s: State): seq<Entry> {
    if s.currentDir < |s.inodes| then Tree(s)[s.currentDir].entries else []
  }

  /** Names that resolve to nothing, a free inode and room for an entry: what createFile needs. */
  ghost predicate CanCreate(s: State, name: Name) {
    var es := HereEntries(s);
    Lookup(es, name) == -1 && !AllUsed(s) && Room(|es|, ClearBits(s.bitmap))
  }

  /** An operation that failed: the tree, the files and the free blocks are as before. */
  ghost predicate Unchanged(s0: State, s: State) {
    && Usable(s) && Tree(s) == Tree(s0) && s.currentDir == s0.currentDir && s.bitmap == s0.bitmap
    && SameContents(Nodes(s0), Nodes(s))
  }

  lemma UnchangedSelf(s: State)
    requires Usable(s)
    ensures Unchanged(s, s)
  {
  }

  /** Inode i was created in the current directory, empty; a directory does not have its dots yet. */
  ghost predicate InodeCreated(s0: State, i: nat, name: Name, kind: FileType, s: State) {
    && FirstFree(s0, i) && Usable(s) && s.currentDir == s0.currentDir < |s0.inodes|
    && Tree(s) == BareCreated(Tree(s0), s0.currentDir, i, name, kind == Directory)
    && SameContents(Nodes(s0), Nodes(s))
    && ClearBits(s.bitmap) == ClearBits(s0.bitmap) - Needed(|HereEntries(s0)|)
    && s.bitmap == Take(s0.bitmap, Needed(|HereEntries(s0)|))
    && i < |s.inodes| && s.inodes[i].isUsed && s.inodes[i].kind == kind && s.inodes[i].parent == s.currentDir
    && s.inodes[i].fileSize == 0
    && forall k :: 0 <= k < |s.inodes[i].blocks| ==> s.inodes[i].blocks[k] == 0
  }

  lemma AddedNode(s0: State, nodes: seq<Node>, d: nat, e: Entry, s: State) returns (r: Node)
    requires EntryAdded(s0, nodes, d, e, s)
    ensures d < |nodes| && Listing(r) == Listing(nodes[d]) + [e] && Shows(s, nodes[d := r])
    ensures r == nodes[d].(fileSize := r.fileSize, image := r.image) && GoodListing(r)
  {
    hide Shows, GoodListing, Listing;
    r :| GoodListing(r) && Listing(r) == Listing(NodeAt(nodes, d)) + [e]
         && r == NodeAt(nodes, d).(fileSize := r.fileSize, image := r.image)
         && d < |nodes| && Shows(s, nodes[d := r]);
  }

  lemma AddedRest(s0: State, nodes: seq<Node>, d: nat, e: Entry, s: State)
    requires EntryAdded(s0, nodes, d, e, s)
    ensures s.currentDir == s0.currentDir
      && ClearBits(s.bitmap) == ClearBits(s0.bitmap) - Needed(EntryCount(NodeAt(nodes, d)))
      && s.bitmap == Take(s0.bitmap, Needed(EntryCount(NodeAt(nodes, d))))
  {
  }

  lemma CreationTree(s0: State, i: nat, name: Name, kind: FileType, s: State, r: Node)
    requires Usable(s0) && FirstFree(s0, i)
    requires s0.currentDir < |s0.inodes| && Shows(s, FreshNodes(s0, i, kind)[s0.currentDir := r])
    requires r == FreshNodes(s0, i, kind)[s0.currentDir].(fileSize := r.fileSize, image := r.image)
    requires Listing(r) == Listing(FreshNodes(s0, i, kind)[s0.currentDir]) + [Entry(i, name)]
    ensures Tree(s) == BareCreated(Tree(s0), s0.currentDir, i, name, kind == Directory)
    ensures SameContents(Nodes(s0), Nodes(s))
  {
    var nodes, d := Nodes(s0), s0.currentDir;
    DirectoryListable(s0, d);
    CreationImage(s0, i);
    NotHere(s0, i);
    hide Listing, GoodListing, TreeOf, NodesOf, TreeInv;
    CreatedTree(nodes, i, kind, d, name, r);
    CreatedContents(nodes, i, FreshNode(nodes[i], kind, d), d, r);
  }

  lemma NotHere(s: State, i: nat)
    requires Usable(s) && i < |s.inodes| && !s.inodes[i].isUsed
    ensures i != s.currentDir < |s.inodes| && s.inodes[s.currentDir].isUsed && Nodes(s)[s.currentDir].isUsed
  {
    UsedIs(s, i);
    UsedIs(s, s.currentDir);
  }

  /** Only the new inode and the current directory's change in the table; bits only go to the entry. */
  lemma CreationInodes(s0: State, i: nat, name: Name, kind: FileType, s2: State, s: State)
    requires Usable(s0) && FirstFree(s0, i)
    requires EntryAdded(FreshState(s0, i, kind), FreshNodes(s0, i, kind), s0.currentDir, Entry(i, name), s2)
    requires Flushed(s2, s)
    ensures s.currentDir == s0.currentDir < |s0.inodes| && InodeCopy(s.inodes, s.disk)
    ensures i < |s.inodes| == MAX_FILES && s.inodes[i] == Fresh(s0.inodes[i], kind, s0.currentDir)
    ensures ClearBits(s.bitmap) == ClearBits(s0.bitmap) - Needed(|HereEntries(s0)|)
    ensures s.bitmap == Take(s0.bitmap, Needed(|HereEntries(s0)|))
  {
    hide Take, Usable, TreeInv, Shows, InodeCopy, GoodListing, Listing, Tree, Nodes, FreshNodes, HereEntries;
    UsableBasics(s0);
    FreshListable(s0, i, kind);
    NotHere(s0, i);
  }

  lemma CreationEffect(s0: State, i: nat, name: Name, kind: FileType, s2: State, s: State)
    requires Usable(s0) && FirstFree(s0, i)
    requires EntryAdded(FreshState(s0, i, kind), FreshNodes(s0, i, kind), s0.currentDir, Entry(i, name), s2)
    requires Flushed(s2, s)
    ensures Consistent(s) && s0.currentDir < |Tree(s0)|
    ensures Tree(s) == BareCreated(Tree(s0), s0.currentDir, i, name, kind == Directory)
    ensures SameContents(Nodes(s0), Nodes(s))
  {
    hide Usable, TreeInv, Consistent, Listing, InodeCopy, Tree, EntryAdded, Flushed, FirstFree, BareCreated,
      SameContents, Nodes, FreshNodes, FreshState;
    var r := AddedNode(FreshState(s0, i, kind), FreshNodes(s0, i, kind), s0.currentDir, Entry(i, name), s2);
    FlushKeeps(s2, FreshNodes(s0, i, kind)[s0.currentDir := r], s);
    CreationTree(s0, i, name, kind, s, r);
  }

  lemma CreationUsable(s0: State, i: nat, name: Name, kind: FileType, s2: State, s: State)
    requires Usable(s0) && FirstFree(s0, i)
    requires EntryAdded(FreshState(s0, i, kind), FreshNodes(s0, i, kind), s0.currentDir, Entry(i, name), s2)
    requires Flushed(s2, s)
    ensures Usable(s)
  {
    hide Usable, Lists, AllList, Shows, InodeCopy, Tree, Nodes, EntryAdded, Flushed, Listing, GoodListing;
    var d, n := s0.currentDir, FreshNode(Nodes(s0)[i], kind, s0.currentDir);
    UsableNodes(s0);
    NotHere(s0, i);
    CreationImage(s0, i);
    CreationInodes(s0, i, name, kind, s2, s);
    NothingListed(n);
    var r := AddedNode(FreshState(s0, i, kind), FreshNodes(s0, i, kind), d, Entry(i, name), s2);
    ListsAt(Nodes(s0), d);
    GrownLists(Nodes(s0)[d], r, Entry(i, name));
    AllListUpdate(Nodes(s0), i, n);
    AllListUpdate(Nodes(s0)[i := n], d, r);
    FlushKeeps(s2, FreshNodes(s0, i, kind)[d := r], s);
    IsUsable(s, Nodes(s0)[i := n][d := r]);
  }

  lemma ListsAt(nodes: seq<Node>, d: nat)
    requires AllList(nodes) && DirectoryNodeAt(nodes, d)
    ensures Lists(nodes[d])
  {
    hide Lists;
  }

  lemma CreationDone(s0: State, i: nat, name: Name, kind: FileType, s2: State, s: State)
    requires Usable(s0) && FirstFree(s0, i)
    requires EntryAdded(FreshState(s0, i, kind), FreshNodes(s0, i, kind), s0.currentDir, Entry(i, name), s2)
    requires Flushed(s2, s)
    ensures InodeCreated(s0, i, name, kind, s)
  {
    hide Usable, TreeInv, Consistent, InodeCopy, Tree, EntryAdded, Flushed, BareCreated, SameContents, HereEntries,
      Nodes, FreshNodes, FreshState;
    CreationImage(s0, i);
    CreationInodes(s0, i, name, kind, s2, s);
    CreationEffect(s0, i, name, kind, s2, s);
    CreationUsable(s0, i, name, kind, s2, s);
  }

  lemma CreationImage(s: State, i: nat)
    requires Usable(s) && i < |s.inodes| && !s.inodes[i].isUsed
    ensures |Nodes(s)[i].image| == MAX_BLOCKS && !Nodes(s)[i].isUsed
    ensures |s.inodes[i].blocks| == MAX_BLOCKS && forall k :: 0 <= k < MAX_BLOCKS ==> s.inodes[i].blocks[k] == 0
  {
    assert GoodInode(s.inodes[i], s.bitmap);
  }

  lemma UsableBasics(s: State)
    requires Usable(s)
    ensures |s.inodes| == MAX_FILES && s.currentDir < MAX_FILES && |s.disk| == TOTAL_BLOCKS
      && |s.bitmap| == TOTAL_BLOCKS
    ensures IsListable(s, Nodes(s), s.currentDir) && HereEntries(s) == Listing(Nodes(s)[s.currentDir])
    ensures |HereEntries(s)| == EntryCount(Nodes(s)[s.currentDir])
  {
    DirectoryListable(s, s.currentDir);
  }

  /** After the new inode is described the current directory can still be added to. */
  lemma FreshListable(s0: State, i: nat, kind: FileType)
    requires Usable(s0) && FirstFree(s0, i)
    ensures IsListable(FreshState(s0, i, kind), FreshNodes(s0, i, kind), s0.currentDir)
    ensures i < |s0.inodes| && s0.currentDir < |s0.inodes|
      && FreshNodes(s0, i, kind)[s0.currentDir] == Nodes(s0)[s0.currentDir]
  {
    var d := s0.currentDir;
    DirectoryListable(s0, d);
    NotHere(s0, i);
    FreshShows(s0, Nodes(s0), i, kind, d);
    hide Shows, Usable, TreeInv, Tree, GoodListing;
  }

  lemma CreatedFlushable(s1: State, nodes: seq<Node>, d: nat, e: Entry, s2: State)
    requires EntryAdded(s1, nodes, d, e, s2)
    ensures |s2.disk| == TOTAL_BLOCKS && |s2.inodes| == MAX_FILES && Encodable(s2.inodes)
  {
    var r := AddedNode(s1, nodes, d, e, s2);
    ShowsEncodable(s2, nodes[d := r]);
  }

  lemma UndoneShows(s0: State, i: nat, kind: FileType)
    requires Usable(s0) && FirstFree(s0, i)
    ensures var n := Fresh(s0.inodes[i], kind, s0.currentDir).(isUsed := false);
      var r := FreshNode(Nodes(s0)[i], kind, s0.currentDir).(isUsed := false);
      Shows(Describe(s0, i, n), Nodes(s0)[i := r])
        && Describe(Describe(s0, i, Fresh(s0.inodes[i], kind, s0.currentDir)), i, n) == Describe(s0, i, n)
  {
    hide Consistent, TreeInv, Tree, NodesOf, HereEntries;
    FreshUndone(s0, Nodes(s0), i, kind, s0.currentDir);
  }

  lemma CreationUndone(s0: State, i: nat, kind: FileType, s: State)
    requires Usable(s0) && FirstFree(s0, i)
    requires Flushed(Describe(s0, i, Fresh(s0.inodes[i], kind, s0.currentDir).(isUsed := false)), s)
    ensures Unchanged(s0, s)
  {
    var n := Fresh(s0.inodes[i], kind, s0.currentDir).(isUsed := false);
    var r := FreshNode(Nodes(s0)[i], kind, s0.currentDir).(isUsed := false);
    UndoneShows(s0, i, kind);
    CreationImage(s0, i);
    FlushKeeps(Describe(s0, i, n), Nodes(s0)[i := r], s);
    FreeNodeIgnored(Nodes(s0), i, r);
    hide SameContents, TreeInv, NodesOf, TreeOf, InodeCopy, AllocInv, BitmapCopy;
  }

  /** A new file keeps the tree exactly when its name, as kept, is not listed yet. */
  lemma CreatedFileValidIff(s0: State, i: nat, name: Name, s: State)
    requires Valid(s0) && InodeCreated(s0, i, name, File, s)
    ensures Valid(s) <==> Lookup(HereEntries(s0), name) == -1
  {
    hide Usable, TreeInv, Tree, Nodes, Created, BareCreated, FindEntry;
    var t, d := Tree(s0), s0.currentDir;
    FreeHere(s0, i);
    CreatedKeepsTreeIff(t, d, i, name, false);
    BareFile(t, d, i, name);
  }

  lemma BareFile(t: seq<TNode>, d: nat, i: nat, name: Name)
    requires d < |t| && i < |t|
    ensures Created(t, d, i, name, false) == BareCreated(t, d, i, name, false)
  {
  }

  lemma CreatedShows(s0: State, i: nat, name: Name, kind: FileType, s: State)
    requires Usable(s0) && InodeCreated(s0, i, name, kind, s)
    ensures Shows(s, Nodes(s)) && i < MAX_FILES && s.inodes[i].isUsed && s.inodes[i].parent == s.currentDir
  {
  }

  lemma CreatedBasics(s0: State, i: nat, name: Name, kind: FileType, s: State)
    requires Usable(s0) && InodeCreated(s0, i, name, kind, s)
    ensures |s.bitmap| == TOTAL_BLOCKS == |s.disk| && i < |s.inodes| && |s.inodes[i].blocks| == MAX_BLOCKS
      && s.currentDir == s0.currentDir < |s0.inodes|
    ensures ClearBits(s.bitmap) == ClearBits(s0.bitmap) - Needed(|HereEntries(s0)|) && FirstFree(s0, i)
    ensures s.bitmap == Take(s0.bitmap, Needed(|HereEntries(s0)|))
  {
    assert GoodInode(s.inodes[i], s.bitmap);
  }

  // ----- creating a directory -----

  /** The first block of a new directory: "." and "..". */
  function DotBlock(i: nat, d: nat): Block {
    Patch(Patch(Zeros(512), 0, SlotBytes(Entry(i, DOT))), 68, SlotBytes(Entry(d, DOTDOT)))
  }

  lemma DotListing(n: Node, i: nat, d: nat)
    requires |n.image| == MAX_BLOCKS && n.image[0] == Some(DotBlock(i, d)) && n.fileSize == 136 && i < MAX_FILES
      && d < MAX_FILES
    ensures GoodListing(n) && Listing(n) == [Entry(i, DOT), Entry(d, DOTDOT)]
  {
    var b1 := Patch(Zeros(512), 0, SlotBytes(Entry(i, DOT)));
    PatchSlot(Zeros(512), 0, SlotBytes(Entry(i, DOT)), 0);
    PatchSlot(b1, 1, SlotBytes(Entry(d, DOTDOT)), 0);
    PatchSlot(b1, 1, SlotBytes(Entry(d, DOTDOT)), 1);
    SlotRoundTrip(Entry(i, DOT));
    SlotRoundTrip(Entry(d, DOTDOT));
    hide Patch, SlotBytes, Slot, DotBlock, DecodeSlot;
    assert EntryCount(n) == 2;
    DotSlots(n, i, d, b1);
    var es := Listing(n);
    assert es == [es[0], es[1]];
  }

  lemma DotSlots(n: Node, i: nat, d: nat, b1: Block)
    requires |n.image| == MAX_BLOCKS && n.image[0] == Some(DotBlock(i, d)) && n.fileSize == 136 && i < MAX_FILES
      && d < MAX_FILES
    requires b1 == Patch(Zeros(512), 0, SlotBytes(Entry(i, DOT)))
    ensures forall k :: 0 <= k < 2 ==>
      HasSlot(n, k) && SlotAt(n, k) == SlotBytes(if k == 0 then Entry(i, DOT) else Entry(d, DOTDOT))
        && Terminated(SlotAt(n, k))
    ensures DecodeSlot(SlotBytes(Entry(i, DOT))) == Entry(i, DOT)
      && DecodeSlot(SlotBytes(Entry(d, DOTDOT))) == Entry(d, DOTDOT)
  {
    PatchSlot(Zeros(512), 0, SlotBytes(Entry(i, DOT)), 0);
    PatchSlot(b1, 1, SlotBytes(Entry(d, DOTDOT)), 0);
    PatchSlot(b1, 1, SlotBytes(Entry(d, DOTDOT)), 1);
    SlotRoundTrip(Entry(i, DOT));
    SlotRoundTrip(Entry(d, DOTDOT));
    hide Patch, SlotBytes, Slot;
    forall k | 0 <= k < 2
      ensures HasSlot(n, k) && SlotAt(n, k) == SlotBytes(if k == 0 then Entry(i, DOT) else Entry(d, DOTDOT))
        && Terminated(SlotAt(n, k))
    {
      assert k / 7 == 0 && k % 7 == k;
    }
  }

  /** The disk runs out between making the entry and giving the new directory its block. */
  ghost predicate RunsDry(s: State, name: Name) {
    CanCreate(s, name) && ClearBits(s.bitmap) == Needed(|HereEntries(s)|)
  }

  lemma DryDirectory(s0: State, i: nat, name: Name, s: State)
    requires Usable(s0) && InodeCreated(s0, i, name, Directory, s)
    ensures !Valid(s)
  {
    NotHere(s0, i);
    BareDirectoryBreaksTree(Tree(s0), s0.currentDir, i, name);
  }

  /** The table entry of the new directory, with its block, before and after the flush. */
  function Furnished(s: State, i: nat, b: nat): State {
    Resize(Record(s, i, 0, b), i, 136)
  }

  lemma FurnishedShows(s1: State, nodes: seq<Node>, i: nat, s2: State, b: nat)
    requires Shows(s1, nodes) && BlockAllocated(s1, s2, b) && i < MAX_FILES && s1.inodes[i].isUsed
    ensures b < |s2.disk| && Shows(Furnished(s2, i, b), SetSize(SetBlock(nodes, i, 0, s2.disk[b]), i, 136))
    ensures Owns(Furnished(s2, i, b), i, 0) && Furnished(s2, i, b).inodes[i].blocks[0] == b
  {
    AllocationKeeps(s1, nodes, s2, b);
    RecordKeeps(s2, nodes, i, 0, b);
    assert Record(s2, i, 0, b).inodes[i].blocks[0] == b;
    hide Shows, SetBlock, SetSize, Record;
    ResizeKeeps(Record(s2, i, 0, b), SetBlock(nodes, i, 0, s2.disk[b]), i, 136);
  }

  /** The dots are written after the flush, outside the tables. */
  lemma DotsWritten(s3: State, nodes: seq<Node>, i: nat, c: Block, s4: State, d: nat)
    requires Shows(s3, SetSize(SetBlock(nodes, i, 0, c), i, 136)) && Owns(s3, i, 0) && Flushed(s3, s4) && i < MAX_FILES
    ensures var s := Write(s4, i, 0, DotBlock(i, d));
      Shows(s, SetSize(SetBlock(nodes, i, 0, DotBlock(i, d)), i, 136)) && InodeCopy(s.inodes, s.disk)
  {
    var nodes3 := SetSize(SetBlock(nodes, i, 0, c), i, 136);
    FlushKeeps(s3, nodes3, s4);
    assert Owns(s4, i, 0);
    assert GoodInode(s4.inodes[i], s4.bitmap);
    WriteKeeps(s4, nodes3, i, 0, DotBlock(i, d));
    hide DotBlock, Shows, AllocInv, BitmapCopy, TableSlice;
    SetBlockTwice(nodes, i, 0, c, DotBlock(i, d));
    assert SetBlock(nodes3, i, 0, DotBlock(i, d))
      == SetSize(SetBlock(SetBlock(nodes, i, 0, c), i, 0, DotBlock(i, d)), i, 136);
  }

  function DirectoryNode(n: Node, i: nat, d: nat): Node {
    n.(image := SetContent(n.image, 0, DotBlock(i, d)), fileSize := 136)
  }

  lemma DirectoryTNode(s0: State, i: nat, name: Name, s1: State)
    requires Usable(s0) && InodeCreated(s0, i, name, Directory, s1)
    ensures i < |s1.inodes| && i != s0.currentDir < |s0.inodes| == |s1.inodes| && !Nodes(s0)[i].isUsed
    ensures TNodeOf(DirectoryNode(Nodes(s1)[i], i, s0.currentDir))
      == TNode(true, true, s0.currentDir, [Entry(i, DOT), Entry(s0.currentDir, DOTDOT)])
  {
    hide Usable, Tree, Nodes, DotBlock, GoodListing, Listing, SameContents, BareCreated, HereEntries, Take, ClearBits;
    NotHere(s0, i);
    UsableConsistent(s0);
    CreatedShows(s0, i, name, Directory, s1);
    CreatedNode(s1, i);
    NodeIs(s0, i);
    DotListing(DirectoryNode(Nodes(s1)[i], i, s0.currentDir), i, s0.currentDir);
  }

  lemma CreatedNode(s: State, i: nat)
    requires Shows(s, Nodes(s)) && i < MAX_FILES
    ensures i < |s.inodes| == MAX_FILES && |Nodes(s)[i].image| == MAX_BLOCKS
    ensures Nodes(s)[i].isUsed == s.inodes[i].isUsed && Nodes(s)[i].kind == s.inodes[i].kind
    ensures Nodes(s)[i].parent == s.inodes[i].parent
  {
    hide BitmapCopy;
    assert GoodInode(s.inodes[i], s.bitmap);
  }

  lemma NodeIs(s: State, i: nat)
    requires i < |s.inodes|
    ensures Nodes(s)[i].isUsed == s.inodes[i].isUsed && Nodes(s)[i].kind == s.inodes[i].kind
  {
  }

  lemma DirectoryNodeIs(nodes: seq<Node>, i: nat, d: nat)
    requires i < |nodes|
    ensures SetSize(SetBlock(nodes, i, 0, DotBlock(i, d)), i, 136) == nodes[i := DirectoryNode(nodes[i], i, d)]
  {
    hide DotBlock, SetContent;
  }

  lemma DirectoryTree(s0: State, i: nat, name: Name, s1: State, s: State)
    requires Usable(s0) && InodeCreated(s0, i, name, Directory, s1)
    requires Shows(s, SetSize(SetBlock(Nodes(s1), i, 0, DotBlock(i, s0.currentDir)), i, 136))
    ensures Tree(s) == Created(Tree(s0), s0.currentDir, i, name, true)
  {
    hide Usable, TreeInv, Consistent, DirectoryNode, Nodes, NodesOf, TreeOf, InodeCopy, TNodeOf, BareCreated, Created,
      SetSize, SetBlock, SameContents;
    var nodes, n := Nodes(s1), DirectoryNode(Nodes(s1)[i], i, s0.currentDir);
    DirectoryTNode(s0, i, name, s1);
    DirectoryNodeIs(nodes, i, s0.currentDir);
    TreeUpdate(nodes, i, n);
    DotsComplete(Tree(s0), s0.currentDir, i, name);
  }

  lemma DirectoryContents(s0: State, i: nat, name: Name, s1: State, s: State)
    requires Usable(s0) && InodeCreated(s0, i, name, Directory, s1)
    requires Shows(s, SetSize(SetBlock(Nodes(s1), i, 0, DotBlock(i, s0.currentDir)), i, 136))
    ensures SameContents(Nodes(s0), Nodes(s))
  {
    DirectoryTNode(s0, i, name, s1);
    hide Usable, TreeInv, Consistent, DirectoryNode, NodesOf, TreeOf, InodeCopy, TNodeOf, BareCreated, DotBlock,
      SetSize, SetBlock;
  }

  lemma DirectoryUsable(s0: State, i: nat, name: Name, s1: State, s: State)
    requires Usable(s0) && InodeCreated(s0, i, name, Directory, s1)
    requires Shows(s, SetSize(SetBlock(Nodes(s1), i, 0, DotBlock(i, s0.currentDir)), i, 136))
    requires InodeCopy(s.inodes, s.disk) && s.currentDir == s0.currentDir
    ensures Usable(s)
  {
    hide Usable, Lists, AllList, Shows, InodeCopy, Tree, Nodes, SetSize, SetBlock, DotBlock, DirectoryNode, Consistent;
    var n := DirectoryNode(Nodes(s1)[i], i, s0.currentDir);
    NewDirectory(s0, i, name, s1);
    DirectoryNodeIs(Nodes(s1), i, s0.currentDir);
    AllListUpdate(Nodes(s1), i, n);
    IsUsable(s, Nodes(s1)[i := n]);
  }

  lemma NewDirectory(s0: State, i: nat, name: Name, s1: State)
    requires Usable(s0) && InodeCreated(s0, i, name, Directory, s1)
    ensures i < |Nodes(s1)| && AllList(Nodes(s1)) && DirectoryNodeAt(Nodes(s1), 0)
    ensures DirectoryNodeAt(Nodes(s1), s0.currentDir)
    ensures var n := DirectoryNode(Nodes(s1)[i], i, s0.currentDir); n.isUsed && n.kind == Directory && Lists(n)
  {
    hide InodeCopy, AllList, DotBlock, GoodListing, Listing, AllocInv, BitmapCopy;
    UsableNodes(s1);
    UsableBasics(s0);
    CreatedBasics(s0, i, name, Directory, s1);
    DotListing(DirectoryNode(Nodes(s1)[i], i, s0.currentDir), i, s0.currentDir);
  }

  /** Directory i was made in the current directory, with its dots. */
  ghost predicate DirectoryMade(s0: State, i: nat, name: Name, s: State) {
    && FirstFree(s0, i) && Usable(s) && s.currentDir == s0.currentDir < |s0.inodes|
    && Tree(s) == Created(Tree(s0), s0.currentDir, i, name, true)
    && SameContents(Nodes(s0), Nodes(s))
    && ClearBits(s.bitmap) == ClearBits(s0.bitmap) - Needed(|HereEntries(s0)|) - 1
    && s.bitmap == Take(s0.bitmap, Needed(|HereEntries(s0)|) + 1)
  }

  lemma MadeValidIff(s0: State, i: nat, name: Name, s: State)
    requires Valid(s0) && DirectoryMade(s0, i, name, s)
    ensures Valid(s) <==> Lookup(HereEntries(s0), name) == -1
  {
    hide Usable, TreeInv, Tree, Nodes, Created, FindEntry, SameContents;
    FreeHere(s0, i);
    CreatedKeepsTreeIff(Tree(s0), s0.currentDir, i, name, true);
  }

  /** Where a new entry goes, as tree facts. */
  lemma FreeHere(s: State, i: nat)
    requires Usable(s) && FirstFree(s, i)
    ensures i < |Tree(s)| && !Tree(s)[i].used && IsDirectory(Tree(s), s.currentDir) && i != s.currentDir
    ensures HereEntries(s) == Tree(s)[s.currentDir].entries
  {
    hide AllList, InodeCopy;
    UsedIs(s, i);
    NotHere(s, i);
  }
}
