/** Deleting, renaming and moving: the tree steps behind removing a directory entry. */
module FsRemove {
  import opened Options
  import opened FsLayout
  import opened FsTree
  import opened FsVolume
  import opened FsState
  import opened FsOps

  ghost predicate SameContentsBut(n0: seq<Node>, n1: seq<Node>, i: nat) {
    |n0| == |n1| && forall j :: 0 <= j < |n0| && j != i && n0[j].isUsed && n0[j].kind == File ==>
      SameContent(n0[j], n1[j])
  }

  /** Entry k of the current directory is an ordinary one with this name. */
  ghost predicate Names(s: State, name: Name, k: nat) {
    && 2 <= k < |HereEntries(s)| && HereEntries(s)[k].name == name && k == FindEntry(HereEntries(s), name)
    && 0 < HereEntries(s)[k].inode < MAX_FILES
  }

  lemma NamedInode(s: State, name: Name, k: nat)
    requires Valid(s) && k == FindEntry(HereEntries(s), name) < |HereEntries(s)| && name != DOT && name != DOTDOT
    ensures Names(s, name, k) && Lookup(HereEntries(s), name) == HereEntries(s)[k].inode
    ensures var i := HereEntries(s)[k].inode;
      i < |s.inodes| == MAX_FILES && s.inodes[i].isUsed && s.inodes[i].parent == s.currentDir && i != s.currentDir
        && |s.inodes[i].blocks| == MAX_BLOCKS
  {
    var t, d := Tree(s), s.currentDir;
    var es := HereEntries(s);
    assert GoodDirectory(t, d);
    assert es[0].name == DOT && es[1].name == DOTDOT;
    assert GoodEntry(t, d, k);
    var i := es[k].inode;
    UsedIs(s, i);
    assert GoodInode(s.inodes[i], s.bitmap);
    NoCycle(t, i, 1);
    assert Ancestor(t, i, 1) == Ancestor(t, d, 0) == d;
  }

  /** A removed entry, for the nodes. */
  // Automatic induction over the sequence only gets in the way here.
  lemma {:induction false} DroppedTree(nodes: seq<Node>, d: nat, k: nat)
    requires d < |nodes| && nodes[d].isUsed && nodes[d].kind == Directory && GoodListing(nodes[d])
      && k < EntryCount(nodes[d])
    ensures TreeOf(nodes[d := RemovedNode(nodes[d], k)])
      == TreeOf(nodes)[d := TreeOf(nodes)[d].(entries := RemoveAt(TreeOf(nodes)[d].entries, k))]
  {
    RemovedListing(nodes[d], k);
    TreeUpdate(nodes, d, RemovedNode(nodes[d], k));
    hide GoodListing, Listing, RemovedFrom;
  }

  // ----- deleting -----

  /** Block k of inode i is given up: its bit is cleared and its slot zeroed. */
  function Given(s1: State, i: nat, k: nat): State {
    Record(s1, i, k, 0)
  }

  function DropContent(nodes: seq<Node>, i: nat, k: nat): (r: seq<Node>)
    ensures |r| == |nodes|
  {
    if i < |nodes| && k < |nodes[i].image| then nodes[i := nodes[i].(image := nodes[i].image[k := None])] else nodes
  }

  lemma GivenShows(s: State, nodes: seq<Node>, i: nat, k: nat, s1: State)
    requires Shows(s, nodes) && i < MAX_FILES && Owns(s, i, k) && s.inodes[i].blocks[k] < 4096
    requires BlockFreed(s, s1, s.inodes[i].blocks[k])
    ensures Shows(Given(s1, i, k), DropContent(nodes, i, k))
  {
    hide Nodes, NodeOf, ClearBits, DropContent;
    var b := s.inodes[i].blocks[k];
    var s2 := Given(s1, i, k);
    assert GoodInode(s.inodes[i], s.bitmap);
    ClearBitsUpdate(s.bitmap, b, false);
    DropBlock(s.inodes, s.bitmap, i, k);
    assert s2.inodes == s.inodes[i := s.inodes[i].(blocks := s.inodes[i].blocks[k := 0])];
    BitmapCopyUpdate(s.bitmap, s.disk, b, false, s1.disk);
    GivenNodes(s, nodes, i, k, s1);
  }

  lemma GivenNodes(s: State, nodes: seq<Node>, i: nat, k: nat, s1: State)
    requires Shows(s, nodes) && i < MAX_FILES && Owns(s, i, k) && s.inodes[i].blocks[k] < 4096
    requires BlockFreed(s, s1, s.inodes[i].blocks[k])
    ensures Nodes(Given(s1, i, k)) == DropContent(nodes, i, k)
  {
    var n := s.inodes[i].(blocks := s.inodes[i].blocks[k := 0]);
    SameData(s.inodes, s.bitmap, s.disk, s1.disk);
    assert NodeOf(n, s1.disk).image == NodeOf(s.inodes[i], s1.disk).image[k := None];
    hide AllocInv, BitmapCopy;
  }

  /** What deleting needs to keep ownership: the blocks are below 4096 and it is not the current directory. */
  ghost predicate Removable(s: State, i: nat) {
    && i < |s.inodes| && i != s.currentDir
    && forall k :: 0 <= k < |s.inodes[i].blocks| ==> s.inodes[i].blocks[k] < 4096
  }

  /** Entry k is the one the name resolves to. */
  ghost predicate Found(s: State, name: Name, k: nat) {
    k == FindEntry(HereEntries(s), name) < |HereEntries(s)|
  }

  lemma FoundInode(s: State, name: Name, k: nat)
    requires Usable(s) && Found(s, name, k)
    ensures HereEntries(s)[k].inode < MAX_FILES == |s.inodes| && Lookup(HereEntries(s), name) == HereEntries(s)[k].inode
    ensures |s.inodes[HereEntries(s)[k].inode].blocks| == MAX_BLOCKS
  {
    hide InodeCopy, Tree, Listing, BitmapCopy;
    UsableBasics(s);
    UsableNodes(s);
    ListsAt(Nodes(s), s.currentDir);
    assert GoodInode(s.inodes[HereEntries(s)[k].inode], s.bitmap);
  }

  /** Slots below b of inode i are given up; nothing else has changed. */
  ghost predicate Emptied(s0: State, i: nat, b: nat, s: State) {
    && i < |s0.inodes| == |s.inodes| && |s0.inodes[i].blocks| == MAX_BLOCKS == |s.inodes[i].blocks| && b <= MAX_BLOCKS
    && s.currentDir == s0.currentDir && |s.disk| == TOTAL_BLOCKS && |s.bitmap| == TOTAL_BLOCKS
    && s.inodes == s0.inodes[i := s0.inodes[i].(blocks := s.inodes[i].blocks)]
    && (forall k :: 0 <= k < b ==> s.inodes[i].blocks[k] == 0)
    && (forall k :: b <= k < MAX_BLOCKS ==> s.inodes[i].blocks[k] == s0.inodes[i].blocks[k])
    && ClearBits(s.bitmap) == ClearBits(s0.bitmap) + b - Lacking(s0.inodes[i].blocks, b)
    && exists r: Node :: r == Nodes(s0)[i].(image := r.image) && |r.image| == MAX_BLOCKS && Shows(s, Nodes(s0)[i := r])
  }

  lemma EmptiedStart(s0: State, i: nat)
    requires Consistent(s0) && i < |s0.inodes|
    ensures Emptied(s0, i, 0, s0)
  {
    assert GoodInode(s0.inodes[i], s0.bitmap);
    assert Nodes(s0)[i := Nodes(s0)[i]] == Nodes(s0);
    assert s0.inodes == s0.inodes[i := s0.inodes[i].(blocks := s0.inodes[i].blocks)];
    assert Shows(s0, Nodes(s0)[i := Nodes(s0)[i]]);
  }

  lemma EmptiedSkip(s0: State, i: nat, b: nat, s: State)
    requires Emptied(s0, i, b, s) && b < MAX_BLOCKS && s.inodes[i].blocks[b] == 0
    ensures Emptied(s0, i, b + 1, s)
  {
    hide Shows, Nodes;
  }

  lemma EmptiedOwns(s0: State, i: nat, b: nat, s: State)
    requires Emptied(s0, i, b, s) && b < MAX_BLOCKS && s.inodes[i].blocks[b] != 0
    ensures Owns(s, i, b) && s.inodes[i].blocks[b] < TOTAL_BLOCKS && s.bitmap[s.inodes[i].blocks[b]] && i < MAX_FILES
  {
    assert AllocInv(s.inodes, s.bitmap);
    assert GoodInode(s.inodes[i], s.bitmap);
  }

  lemma OneMoreFree(s: State, blocks: seq<nat>, b: nat, s1: State)
    requires b < |blocks| && blocks[b] != 0 && blocks[b] < 4096 && BlockFreed(s, s1, blocks[b]) && s.bitmap[blocks[b]]
    ensures ClearBits(s1.bitmap) - ClearBits(s.bitmap) == 1 && Lacking(blocks, b + 1) == Lacking(blocks, b)
  {
    ClearBitsUpdate(s.bitmap, blocks[b], false);
  }

  lemma EmptiedNext(s0: State, i: nat, b: nat, s: State, s1: State)
    requires Emptied(s0, i, b, s) && b < MAX_BLOCKS && s.inodes[i].blocks[b] != 0 && s0.inodes[i].blocks[b] < 4096
    requires BlockFreed(s, s1, s.inodes[i].blocks[b])
    ensures Emptied(s0, i, b + 1, Given(s1, i, b))
  {
    hide Consistent, Shows, ClearBits, Lacking;
    EmptiedOwns(s0, i, b, s);
    OneMoreFree(s, s0.inodes[i].blocks, b, s1);
    var r: Node :| r == Nodes(s0)[i].(image := r.image) && |r.image| == MAX_BLOCKS && Shows(s, Nodes(s0)[i := r]);
    GivenShows(s, Nodes(s0)[i := r], i, b, s1);
    var q := r.(image := r.image[b := None]);
    assert DropContent(Nodes(s0)[i := r], i, b) == Nodes(s0)[i := q];
    assert Shows(Given(s1, i, b), Nodes(s0)[i := q]);
  }

  /** The inode is marked free once its blocks are gone. */
  lemma EmptiedFreed(s0: State, i: nat, s: State) returns (r: Node)
    requires Consistent(s0) && Emptied(s0, i, MAX_BLOCKS, s) && i < MAX_FILES
    ensures !r.isUsed && Shows(Describe(s, i, s.inodes[i].(isUsed := false)), Nodes(s0)[i := r])
  {
    var q: Node :| q == Nodes(s0)[i].(image := q.image) && |q.image| == MAX_BLOCKS && Shows(s, Nodes(s0)[i := q]);
    assert AllocInv(s.inodes, s.bitmap);
    assert GoodInode(s.inodes[i], s.bitmap);
    DescribeKeeps(s, Nodes(s0)[i := q], i, s.inodes[i].(isUsed := false));
    r := Node(s.inodes[i].kind, s.inodes[i].fileSize, false, s.inodes[i].parent, q.image);
  }

  lemma FreedListable(s0: State, name: Name, k: nat, s: State, r: Node)
    requires Usable(s0) && Found(s0, name, k) && !r.isUsed
    requires HereEntries(s0)[k].inode != s0.currentDir && HereEntries(s0)[k].inode < |s0.inodes|
    requires Shows(s, Nodes(s0)[HereEntries(s0)[k].inode := r]) && s.currentDir == s0.currentDir
    requires |s.inodes| == MAX_FILES && s.inodes[s.currentDir] == s0.inodes[s.currentDir]
    ensures var nodes1 := Nodes(s0)[HereEntries(s0)[k].inode := r];
      IsListable(s, nodes1, s.currentDir) && nodes1[s.currentDir] == Nodes(s0)[s.currentDir]
        && k == FindEntry(Listing(nodes1[s.currentDir]), name) < EntryCount(nodes1[s.currentDir])
  {
    hide Shows, Tree, GoodListing, Listing, Usable;
    UsableBasics(s0);
  }

  // Automatic induction over the sequence only gets in the way here.
  lemma {:induction false} DeletedTree(nodes: seq<Node>, d: nat, k: nat, i: nat, r: Node)
    requires d < |nodes| && nodes[d].isUsed && nodes[d].kind == Directory && GoodListing(nodes[d])
      && k < EntryCount(nodes[d])
    requires i < |nodes| && i != d && !r.isUsed && i == TreeOf(nodes)[d].entries[k].inode
    ensures TreeOf(nodes[i := r][d := RemovedNode(nodes[d], k)]) == Deleted(TreeOf(nodes), d, k)
  {
    TreeUpdate(nodes, i, r);
    DroppedTree(nodes[i := r], d, k);
    hide GoodListing, Listing, RemovedNode, TreeOf;
  }

  lemma DeletedContents(nodes: seq<Node>, d: nat, i: nat, r: Node, q: Node)
    requires d < |nodes| && nodes[d].kind == Directory && i < |nodes|
    ensures SameContentsBut(nodes, nodes[i := r][d := q], i)
  {
  }

  lemma DeletionDone(s0: State, name: Name, k: nat, s2: State, r: Node, s3: State, s: State)
    requires Usable(s0) && Found(s0, name, k) && !r.isUsed && HereEntries(s0)[k].inode != s0.currentDir
    requires 0 < HereEntries(s0)[k].inode < |s0.inodes|
    requires EntryRemoved(s2, Nodes(s0)[HereEntries(s0)[k].inode := r], s0.currentDir, k, s3)
      && s2.currentDir == s0.currentDir
    requires Flushed(s3, s)
    ensures s.currentDir == s0.currentDir < |Tree(s0)| && k < |Tree(s0)[s0.currentDir].entries|
    ensures Usable(s) && Tree(s) == Deleted(Tree(s0), s0.currentDir, k)
    ensures SameContentsBut(Nodes(s0), Nodes(s), HereEntries(s0)[k].inode)
  {
    hide Usable, GoodListing, Listing, RemovedNode, TreeOf, NodesOf, Consistent, InodeCopy, Deleted, AllList, Lists,
      SameContentsBut;
    var nodes, d, i := Nodes(s0), s0.currentDir, HereEntries(s0)[k].inode;
    UsableBasics(s0);
    UsableNodes(s0);
    var after := nodes[i := r][d := RemovedNode(nodes[d], k)];
    FlushKeeps(s3, after, s);
    ListsAt(nodes, d);
    RemovedLists(nodes[d], k);
    AllListUpdate(nodes, i, r);
    AllListUpdate(nodes[i := r], d, RemovedNode(nodes[d], k));
    IsUsable(s, after);
    DeletedTree(nodes, d, k, i, r);
    DeletedContents(nodes, d, i, r, RemovedNode(nodes[d], k));
  }

  lemma RemovedLists(n: Node, k: nat)
    requires Lists(n) && k < EntryCount(n)
    ensures Lists(RemovedNode(n, k)) && RemovedNode(n, k).isUsed == n.isUsed && RemovedNode(n, k).kind == n.kind
  {
    hide RemovedFrom;
    RemovedListing(n, k);
  }

  lemma RemovedFlushable(s0: State, nodes: seq<Node>, d: nat, k: nat, s: State)
    requires EntryRemoved(s0, nodes, d, k, s)
    ensures |s.disk| == TOTAL_BLOCKS && |s.inodes| == MAX_FILES && Encodable(s.inodes)
      && s.currentDir == s0.currentDir && s.bitmap == s0.bitmap
  {
    ShowsEncodable(s, nodes[d := RemovedNode(nodes[d], k)]);
  }

  lemma EmptiedBasics(s0: State, i: nat, b: nat, s: State)
    requires Emptied(s0, i, b, s)
    ensures |s.disk| == TOTAL_BLOCKS == |s.bitmap| && i < |s.inodes| && |s.inodes[i].blocks| == MAX_BLOCKS
      && b <= MAX_BLOCKS
    ensures s.currentDir == s0.currentDir && i < |s0.inodes| && |s0.inodes[i].blocks| == MAX_BLOCKS
    ensures b < MAX_BLOCKS ==> s.inodes[i].blocks[b] == s0.inodes[i].blocks[b]
    ensures ClearBits(s.bitmap) == ClearBits(s0.bitmap) + b - Lacking(s0.inodes[i].blocks, b)
  {
  }

  /** Freed, the inode no longer shows, and the directory that lists it can be changed. */
  lemma FreedReady(s0: State, name: Name, k: nat, i: nat, s1: State) returns (r: Node)
    requires Usable(s0) && Found(s0, name, k) && i == HereEntries(s0)[k].inode && i != s0.currentDir
    requires Emptied(s0, i, MAX_BLOCKS, s1) && i < |s1.inodes|
    ensures !r.isUsed && i < |s0.inodes| && s0.currentDir < |s0.inodes|
    ensures IsListable(Describe(s1, i, s1.inodes[i].(isUsed := false)), Nodes(s0)[i := r], s0.currentDir)
    ensures k == FindEntry(Listing(Nodes(s0)[i := r][s0.currentDir]), name)
    ensures k < EntryCount(Nodes(s0)[i := r][s0.currentDir])
  {
    hide Consistent, Tree, Listing, GoodListing, InodeCopy, AllList;
    FoundInode(s0, name, k);
    r := EmptiedFreed(s0, i, s1);
    FreedListable(s0, name, k, Describe(s1, i, s1.inodes[i].(isUsed := false)), r);
  }

  lemma RemovableBlocks(s: State, i: nat)
    requires Usable(s) && i < |s.inodes| && Removable(s, i)
    ensures Consistent(s) && |s.inodes[i].blocks| == MAX_BLOCKS
      && forall k :: 0 <= k < MAX_BLOCKS ==> s.inodes[i].blocks[k] < 4096
  {
    assert GoodInode(s.inodes[i], s.bitmap);
  }

  /** What deleting a name does: exactly that entry and its inode are gone, and its blocks are free. */
  ghost predicate DeletedBy(s0: State, name: Name, s: State) {
    var k := FindEntry(HereEntries(s0), name);
    && Usable(s) && s.currentDir == s0.currentDir < |s0.inodes| && k < |HereEntries(s0)|
    && HereEntries(s0)[k].inode < |s0.inodes|
    && Tree(s) == Deleted(Tree(s0), s0.currentDir, k)
    && SameContentsBut(Nodes(s0), Nodes(s), HereEntries(s0)[k].inode)
    && ClearBits(s.bitmap)
      == ClearBits(s0.bitmap) + MAX_BLOCKS - Lacking(s0.inodes[HereEntries(s0)[k].inode].blocks, MAX_BLOCKS)
  }

  lemma DeletionResult(s0: State, name: Name, k: nat, s2: State, r: Node, s3: State, s: State)
    requires Usable(s0) && Found(s0, name, k) && !r.isUsed && HereEntries(s0)[k].inode != s0.currentDir
    requires 0 < HereEntries(s0)[k].inode < |s0.inodes|
    requires EntryRemoved(s2, Nodes(s0)[HereEntries(s0)[k].inode := r], s0.currentDir, k, s3)
      && s2.currentDir == s0.currentDir
    requires Flushed(s3, s) && s3.bitmap == s2.bitmap && s.bitmap == s3.bitmap
    requires ClearBits(s2.bitmap)
      == ClearBits(s0.bitmap) + MAX_BLOCKS - Lacking(s0.inodes[HereEntries(s0)[k].inode].blocks, MAX_BLOCKS)
    ensures DeletedBy(s0, name, s)
  {
    hide Usable, Tree, EntryRemoved, Flushed, Nodes, SameContentsBut, HereEntries, Deleted;
    DeletionDone(s0, name, k, s2, r, s3, s);
  }

  /** In a valid volume a deletion keeps the tree exactly when a deleted directory has nothing but its dots. */
  lemma DeletedValidIff(s0: State, name: Name, s: State)
    requires Valid(s0) && DeletedBy(s0, name, s) && name != DOT && name != DOTDOT
    ensures 0 <= Lookup(HereEntries(s0), name) < |Tree(s0)|
    ensures Valid(s) <==> Childless(Tree(s0), Lookup(HereEntries(s0), name))
  {
    hide Usable, TreeInv, Tree, Nodes, SameContentsBut, Childless, Deleted;
    var k := FindEntry(HereEntries(s0), name);
    NamedInode(s0, name, k);
    HereTree(s0);
    DeletedKeepsTreeIff(Tree(s0), s0.currentDir, k);
  }

  lemma HereTree(s: State)
    requires Usable(s)
    ensures IsDirectory(Tree(s), s.currentDir) && HereEntries(s) == Tree(s)[s.currentDir].entries
  {
    hide AllList, InodeCopy;
  }

  // ----- changing directory -----

  /** The name resolves to a directory. */
  ghost predicate IsTarget(s: State, name: Name) {
    var i := Lookup(HereEntries(s), name);
    i >= 0 && IsDirectory(Tree(s), i)
  }

  /** The dots of a directory resolve to itself and its parent, as cd takes them to. */
  lemma DotsResolve(s: State)
    requires Valid(s)
    ensures s.currentDir < |s.inodes|
    ensures Lookup(HereEntries(s), DOT) == s.currentDir && IsTarget(s, DOT)
    ensures Lookup(HereEntries(s), DOTDOT) == s.inodes[s.currentDir].parent && IsTarget(s, DOTDOT)
  {
    var t, d := Tree(s), s.currentDir;
    assert GoodDirectory(t, d);
    UsedIs(s, d);
    assert d == 0 || Listed(t, d);
    hide Consistent, NodesOf, TreeOf, InodeCopy, AllList;
  }

  /** Where cd goes, in the volume as it is. */
  ghost function CdTarget(s: State, name: Name): int {
    if name == DOT then s.currentDir
    else if name == DOTDOT then (if s.currentDir < |s.inodes| then s.inodes[s.currentDir].parent else 0)
    else
      var i := Lookup(HereEntries(s), name);
      if 0 <= i < |s.inodes| && s.inodes[i].kind == Directory then i else -1
  }

  /** In a valid volume that is where the name resolves to, if to a directory. */
  lemma CdResolves(s: State, name: Name)
    requires Valid(s)
    ensures CdTarget(s, name) == if IsTarget(s, name) then Lookup(HereEntries(s), name) else -1
    ensures IsTarget(s, name) ==> Valid(s.(currentDir := Lookup(HereEntries(s), name)))
  {
    hide Usable, TreeInv, HereEntries, Lookup, FindEntry, Tree;
    DotsResolve(s);
    if Lookup(HereEntries(s), name) == -1 {
      NoTarget(s, name);
    } else {
      TargetIs(s, name, Lookup(HereEntries(s), name));
    }
  }

  /** The current directory may be any directory. */
  lemma UsableAt(s: State, d: nat)
    requires Usable(s)
    ensures Usable(s.(currentDir := d)) <==> IsDirectory(Tree(s), d)
  {
    hide InodeCopy, AllList, TreeOf;
    ElsewhereSame(s, d);
  }

  lemma TargetIs(s: State, name: Name, i: nat)
    requires Valid(s) && Lookup(HereEntries(s), name) == i
    ensures i < |s.inodes| && (s.inodes[i].kind == Directory <==> IsTarget(s, name))
    ensures IsTarget(s, name) ==> Valid(s.(currentDir := i))
  {
    hide Nodes, Tree, InodeCopy, TreeInv, AllocInv, AllList;
    var k := FindEntry(HereEntries(s), name);
    EntryUsed(Tree(s), s.currentDir, k);
    UsedIs(s, i);
    ElsewhereSame(s, i);
    if IsTarget(s, name) {
      UsableAt(s, i);
    }
  }

  /** The current directory matters to nothing else. */
  lemma ElsewhereSame(s: State, i: nat)
    ensures Consistent(s.(currentDir := i)) == Consistent(s) && Tree(s.(currentDir := i)) == Tree(s)
  {
    hide AllocInv, BitmapCopy;
  }

  /** Every entry, the dots too, names a used inode. */
  lemma EntryUsed(t: seq<TNode>, d: nat, k: nat)
    requires TreeInv(t) && IsDirectory(t, d) && k < |t[d].entries|
    ensures t[d].entries[k].inode < |t| && t[t[d].entries[k].inode].used
  {
    assert GoodDirectory(t, d);
    if k >= 2 {
      assert GoodEntry(t, d, k);
    }
    assert d == 0 || Listed(t, d);
  }

  lemma NoTarget(s: State, name: Name)
    requires Lookup(HereEntries(s), name) == -1
    ensures !IsTarget(s, name)
  {
  }

  // ----- renaming -----

  ghost predicate MayRename(s: State, oldName: Name, newName: Name) {
    Lookup(HereEntries(s), oldName) != -1 && Lookup(HereEntries(s), newName) == -1
  }

  /** The old name is not a dot, and no other entry has what is kept of the new one. */
  ghost predicate Renames(s: State, oldName: Name, newName: Name) {
    var k := FindEntry(HereEntries(s), oldName);
    && oldName != DOT && oldName != DOTDOT
    && (k < |HereEntries(s)| ==> Lookup(RemoveAt(HereEntries(s), k), Kept(newName)) == -1)
  }

  /** A name not listed is no dot, nor is what is kept of it. */
  lemma NewNameIs(s: State, name: Name)
    requires Valid(s) && Lookup(HereEntries(s), name) == -1
    ensures Kept(name) != DOT && Kept(name) != DOTDOT
  {
    hide Usable, TreeInv, Tree;
    DotsResolve(s);
  }

  /** The last block of entries empties and no block is free for the new entry: the old one is lost. */
  ghost predicate LosesEntry(s: State, oldName: Name, newName: Name) {
    MayRename(s, oldName, newName) && (|HereEntries(s)| - 1) % 7 == 0 && ClearBits(s.bitmap) == 0
  }

  ghost function DroppedNodes(s: State, k: nat): (r: seq<Node>)
    ensures |r| == |s.inodes|
  {
    if s.currentDir < |s.inodes| then Nodes(s)[s.currentDir := RemovedNode(Nodes(s)[s.currentDir], k)] else Nodes(s)
  }

  lemma DroppedReady(s0: State, k: nat, s1: State)
    requires Usable(s0) && k < |HereEntries(s0)| && EntryRemoved(s0, Nodes(s0), s0.currentDir, k, s1)
    ensures IsListable(s1, DroppedNodes(s0, k), s0.currentDir) && s1.currentDir == s0.currentDir < |s0.inodes|
      && s1.bitmap == s0.bitmap
    ensures EntryCount(DroppedNodes(s0, k)[s0.currentDir]) == |HereEntries(s0)| - 1 <= 447
    ensures Listing(DroppedNodes(s0, k)[s0.currentDir]) == RemoveAt(HereEntries(s0), k)
  {
    hide TreeInv, RemovedFrom, InodeCopy, AllocInv, BitmapCopy;
    UsableBasics(s0);
    DirectoryListable(s0, s0.currentDir);
    RemovedListing(Nodes(s0)[s0.currentDir], k);
    UsedIs(s0, s0.currentDir);
    UsedIs(s1, s0.currentDir);
  }

  lemma RenameDone(s0: State, k: nat, name: Name, s1: State, s: State)
    requires Usable(s0) && k < |HereEntries(s0)| && EntryRemoved(s0, Nodes(s0), s0.currentDir, k, s1)
    requires EntryAdded(s1, DroppedNodes(s0, k), s0.currentDir, Entry(HereEntries(s0)[k].inode, name), s)
    ensures RenamedBy(s0, k, name, s)
  {
    hide Usable, Consistent, Nodes, Tree, EntryAdded, EntryRemoved, InodeCopy, Shows, IsListable, Listing, RemovedNode,
      DroppedNodes, SameContents;
    RenamedTree(s0, k, name, s1, s);
    AddedRest(s1, DroppedNodes(s0, k), s0.currentDir, Entry(HereEntries(s0)[k].inode, name), s);
    DroppedReady(s0, k, s1);
    RenamedUsable(s0, k, name, s1, s);
  }

  lemma RenamedUsable(s0: State, k: nat, name: Name, s1: State, s: State)
    requires Usable(s0) && k < |HereEntries(s0)| && EntryRemoved(s0, Nodes(s0), s0.currentDir, k, s1)
    requires EntryAdded(s1, DroppedNodes(s0, k), s0.currentDir, Entry(HereEntries(s0)[k].inode, name), s)
    ensures Usable(s)
  {
    hide Usable, Consistent, Nodes, Tree, EntryAdded, EntryRemoved, InodeCopy, Shows, IsListable, Listing, GoodListing,
      RemovedFrom, AllList, Lists;
    var d, e := s0.currentDir, Entry(HereEntries(s0)[k].inode, name);
    UsableBasics(s0);
    UsableNodes(s0);
    ListsAt(Nodes(s0), d);
    ListedInode(Nodes(s0)[d], k);
    RemovedLists(Nodes(s0)[d], k);
    DroppedReady(s0, k, s1);
    var r := AddedNode(s1, DroppedNodes(s0, k), d, e, s);
    AddedFlushed(s1, DroppedNodes(s0, k), d, e, s);
    GrownLists(DroppedNodes(s0, k)[d], r, e);
    AllListUpdate(Nodes(s0), d, r);
    assert DroppedNodes(s0, k)[d := r] == Nodes(s0)[d := r];
    IsUsable(s, Nodes(s0)[d := r]);
  }

  lemma ListedInode(n: Node, k: nat)
    requires Lists(n) && k < |Listing(n)|
    ensures Listing(n)[k].inode < MAX_FILES
  {
    hide GoodListing, Listing;
  }

  /** The entry is gone and no other takes its place; everything else is as it was. */
  ghost predicate LostBy(s0: State, k: nat, s: State) {
    && Usable(s) && s.currentDir == s0.currentDir < |s0.inodes| && k < |HereEntries(s0)| && s.bitmap == s0.bitmap
    && Tree(s) == Unlisted(Tree(s0), s0.currentDir, k) && SameContents(Nodes(s0), Nodes(s))
  }

  function Unlisted(t: seq<TNode>, d: nat, k: nat): seq<TNode> {
    if d < |t| && k < |t[d].entries| then t[d := t[d].(entries := RemoveAt(t[d].entries, k))] else t
  }

  lemma LostDone(s0: State, k: nat, s1: State)
    requires Usable(s0) && k < |HereEntries(s0)| && EntryRemoved(s0, Nodes(s0), s0.currentDir, k, s1)
    ensures LostBy(s0, k, s1)
  {
    hide Usable, Consistent, Nodes, NodesOf, TreeOf, InodeCopy, Shows, IsListable, Listing, GoodListing, RemovedFrom,
      AllList, Lists, BitmapCopy;
    var d := s0.currentDir;
    UsableBasics(s0);
    UsableNodes(s0);
    HereIs(s0);
    ListsAt(Nodes(s0), d);
    RemovedLists(Nodes(s0)[d], k);
    DroppedReady(s0, k, s1);
    AllListUpdate(Nodes(s0), d, RemovedNode(Nodes(s0)[d], k));
    IsUsable(s1, Nodes(s0)[d := RemovedNode(Nodes(s0)[d], k)]);
    ShowsNodes(s1, Nodes(s0)[d := RemovedNode(Nodes(s0)[d], k)]);
    ListsGood(Nodes(s0)[d]);
    DroppedTree(Nodes(s0), d, k);
  }

  lemma ListsGood(n: Node)
    requires Lists(n)
    ensures GoodListing(n)
  {
  }

  lemma AddedFlushed(s0: State, nodes: seq<Node>, d: nat, e: Entry, s: State)
    requires EntryAdded(s0, nodes, d, e, s)
    ensures Consistent(s) && InodeCopy(s.inodes, s.disk) && s.currentDir == s0.currentDir
  {
    var r := AddedNode(s0, nodes, d, e, s);
  }

  /** Exactly the name of one entry has changed; the entry is now the last one. It takes a new block when
      the last block of entries had only one. */
  ghost predicate RenamedBy(s0: State, k: nat, name: Name, s: State) {
    && Usable(s) && s.currentDir == s0.currentDir < |s0.inodes| && k < |HereEntries(s0)|
    && Tree(s) == Renamed(Tree(s0), s0.currentDir, k, name) && SameContents(Nodes(s0), Nodes(s))
    && ClearBits(s.bitmap) == ClearBits(s0.bitmap) - Needed(|HereEntries(s0)| - 1)
    && s.bitmap == Take(s0.bitmap, Needed(|HereEntries(s0)| - 1))
  }

  /** A new name, as kept, keeps the tree of a valid volume exactly when the old one is not a dot and no other
      entry has the new one. */
  lemma RenamedValidIff(s0: State, k: nat, oldName: Name, name: Name, s: State)
    requires Valid(s0) && Found(s0, oldName, k) && name != DOT && name != DOTDOT && RenamedBy(s0, k, name, s)
    ensures Valid(s) <==>
      oldName != DOT && oldName != DOTDOT && Lookup(RemoveAt(HereEntries(s0), k), name) == -1
  {
    hide Usable, Tree, Nodes, SameContents, Ancestor;
    HereTree(s0);
    if oldName != DOT && oldName != DOTDOT {
      NamedInode(s0, oldName, k);
      RenamedKeepsTreeIff(Tree(s0), s0.currentDir, k, name);
    } else {
      assert GoodDirectory(Tree(s0), s0.currentDir);
      DotRenamed(Tree(s0), s0.currentDir, k, name);
    }
  }

  lemma DotRenamed(t: seq<TNode>, d: nat, k: nat, name: Name)
    requires TreeInv(t) && IsDirectory(t, d) && k < 2 && name != DOT && name != DOTDOT
    ensures k < |t[d].entries| && !TreeInv(Renamed(t, d, k, name))
  {
    assert GoodDirectory(t, d);
    var u, es := Renamed(t, d, k, name), t[d].entries;
    assert es[|es| - 1].name != es[k].name || |es| - 1 == k;
    assert u[d].entries[k].name != es[k].name;
    assert !GoodDirectory(u, d);
  }

  lemma RenamedTree(s0: State, k: nat, name: Name, s1: State, s: State)
    requires Usable(s0) && k < |HereEntries(s0)| && EntryRemoved(s0, Nodes(s0), s0.currentDir, k, s1)
    requires EntryAdded(s1, DroppedNodes(s0, k), s0.currentDir, Entry(HereEntries(s0)[k].inode, name), s)
    ensures s0.currentDir < |s0.inodes| && Tree(s) == Renamed(Tree(s0), s0.currentDir, k, name)
    ensures SameContents(Nodes(s0), Nodes(s)) && IsDirectory(Tree(s), s0.currentDir)
  {
    hide Consistent, NodesOf, Nodes, TreeOf, TreeInv, EntryAdded, EntryRemoved, InodeCopy, IsListable, Listing,
      GoodListing, RemovedFrom, Renamed, Shows;
    var d := s0.currentDir;
    DroppedReady(s0, k, s1);
    var r := AddedNode(s1, DroppedNodes(s0, k), d, Entry(HereEntries(s0)[k].inode, name), s);
    HereIs(s0);
    RenamedNodes(Nodes(s0), d, k, name, r);
    assert DroppedNodes(s0, k)[d := r] == Nodes(s0)[d := r];
    ShowsNodes(s, Nodes(s0)[d := r]);
  }

  lemma ShowsNodes(s: State, nodes: seq<Node>)
    requires Shows(s, nodes)
    ensures Nodes(s) == nodes && |nodes| == MAX_FILES
  {
  }

  lemma HereIs(s: State)
    requires Usable(s)
    ensures s.currentDir < |s.inodes| && Nodes(s)[s.currentDir].isUsed && Nodes(s)[s.currentDir].kind == Directory
    ensures HereEntries(s) == Listing(Nodes(s)[s.currentDir]) && Tree(s) == TreeOf(Nodes(s))
  {
    DirectoryListable(s, s.currentDir);
    UsedIs(s, s.currentDir);
  }

  // Automatic induction over the sequence only gets in the way here.
  lemma {:induction false} RenamedNodes(nodes: seq<Node>, d: nat, k: nat, name: Name, r: Node)
    requires d < |nodes| && nodes[d].isUsed && nodes[d].kind == Directory && k < |Listing(nodes[d])|
    requires r == nodes[d].(fileSize := r.fileSize, image := r.image)
    requires Listing(r) == RemoveAt(Listing(nodes[d]), k) + [Entry(Listing(nodes[d])[k].inode, name)]
    ensures TreeOf(nodes[d := r]) == Renamed(TreeOf(nodes), d, k, name) && SameContents(nodes, nodes[d := r])
    ensures IsDirectory(TreeOf(nodes[d := r]), d)
  {
    hide Listing;
    TreeUpdate(nodes, d, r);
  }

  /** An inode whose entry is gone hangs outside the tree. */
  lemma RenameLost(s0: State, k: nat, s: State)
    requires Valid(s0) && LostBy(s0, k, s)
    ensures !Valid(s)
  {
    hide Usable, Nodes, Tree, SameContents;
    HereTree(s0);
    UnlistedBreaksTree(Tree(s0), s0.currentDir, k);
  }

  lemma UnlistedBreaksTree(t: seq<TNode>, d: nat, k: nat)
    requires TreeInv(t) && IsDirectory(t, d) && k < |t[d].entries|
    ensures !TreeInv(t[d := t[d].(entries := RemoveAt(t[d].entries, k))])
  {
    var u := t[d := t[d].(entries := RemoveAt(t[d].entries, k))];
    var es := t[d].entries;
    assert GoodDirectory(t, d);
    if k < 2 {
      assert |u[d].entries| < 2 || u[d].entries[k].name != es[k].name;
      assert !GoodDirectory(u, d);
    } else {
      assert GoodEntry(t, d, k);
      assert !Listed(u, es[k].inode);
    }
  }
}
