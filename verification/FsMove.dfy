/** Moving an entry to another directory: the ancestor walk, and the tree step the writes amount to. */
module FsMove {
  import opened Bytes
  import opened TwosComplement
  import opened FsLayout
  import opened FsTree
  import opened FsVolume
  import opened FsState
  import opened FsOps
  import opened FsRemove

  function At(s: State, d: nat): State {
    s.(currentDir := d)
  }

  /** Everything a move checks: the entry exists and is not a dot, the destination is another directory
      that does not lie below a moved directory, has no such name and has room. */
  ghost predicate CanMove(s: State, name: Name, d: nat) {
    CanGo(s, Lookup(HereEntries(s), name), name, d) && Room(|Tree(s)[d].entries|, ClearBits(s.bitmap))
  }

  /** What a move checks before it looks for room. */
  ghost predicate CanGo(s: State, i: int, name: Name, d: nat) {
    && 0 < i < |s.inodes| && name != DOT && name != DOTDOT
    && IsDirectory(Tree(s), d) && d != s.currentDir
    && (s.inodes[i].kind == Directory ==> !Meets(s.inodes, d, i))
    && Lookup(Tree(s)[d].entries, name) == -1
  }

  /** Exactly one entry has gone from here to directory d, with its inode's parent link and dots. */
  ghost predicate MovedBy(s0: State, k: nat, d: nat, s: State) {
    && Valid(s) && s.currentDir == s0.currentDir && k < |HereEntries(s0)| && MayMove(Tree(s0), s0.currentDir, k, d)
    && Tree(s) == Moved(Tree(s0), s0.currentDir, k, d) && SameContents(Nodes(s0), Nodes(s))
    && ClearBits(s.bitmap) == ClearBits(s0.bitmap) - Needed(|Tree(s0)[d].entries|)
  }

  // ----- the ancestor walk -----

  /** The inode n parent links above d, as the table has them; the walk stops at the root. */
  function Up(inodes: seq<INode>, d: nat, n: nat): nat
    decreases n
  {
    if n == 0 || d == 0 || d >= |inodes| then d else Up(inodes, inodes[d].parent, n - 1)
  }

  /** The walk up from d comes to m. */
  ghost predicate Meets(inodes: seq<INode>, d: nat, m: nat) {
    exists n: nat :: Up(inodes, d, n) == m
  }

  /** The walk ends: at the root or at the inode it looks for. */
  ghost predicate WalkEnds(inodes: seq<INode>, d: nat, m: nat) {
    Meets(inodes, d, 0) || Meets(inodes, d, m)
  }

  /** The walk takes place: a directory is to go to another one. */
  ghost predicate Walks(s: State, name: Name, d: nat) {
    var i := Lookup(HereEntries(s), name);
    && 0 < i < |s.inodes| && name != DOT && name != DOTDOT && s.inodes[i].kind == Directory
    && IsDirectory(Tree(s), d) && d != s.currentDir
  }

  /** The walk of this move, if there is one, ends. */
  ghost predicate MoveEnds(s: State, name: Name, d: nat) {
    Walks(s, name, d) ==> WalkEnds(s.inodes, d, Lookup(HereEntries(s), name))
  }

  lemma UpAdd(inodes: seq<INode>, d: nat, m: nat, n: nat)
    ensures Up(inodes, d, m + n) == Up(inodes, Up(inodes, d, m), n)
    decreases m
  {
    if m > 0 && 0 < d < |inodes| {
      UpAdd(inodes, inodes[d].parent, m - 1, n);
    }
  }

  /** One more step of the walk. */
  lemma UpStep(inodes: seq<INode>, d: nat, n: nat, x: nat)
    requires x == Up(inodes, d, n) && 0 < x < |inodes|
    ensures inodes[x].parent == Up(inodes, d, n + 1)
  {
    UpAdd(inodes, d, n, 1);
    assert Up(inodes, x, 1) == Up(inodes, inodes[x].parent, 0);
  }

  /** The walk reached the root after n steps without meeting m. */
  lemma WalkedToRoot(inodes: seq<INode>, d: nat, m: nat, n: nat)
    requires m > 0 && Up(inodes, d, n) == 0 && forall j: nat :: j <= n ==> Up(inodes, d, j) != m
    ensures !Meets(inodes, d, m)
  {
    forall j: nat ensures Up(inodes, d, j) != m {
      if j > n {
        UpAdd(inodes, d, n, j - n);
      }
    }
  }

  lemma StepsOf(inodes: seq<INode>, d: nat, m: nat) returns (n: nat)
    requires WalkEnds(inodes, d, m)
    ensures Up(inodes, d, n) == 0 || Up(inodes, d, n) == m
  {
    n :| Up(inodes, d, n) == 0 || Up(inodes, d, n) == m;
  }

  /** After the walk has come back to an inode it only repeats itself. */
  lemma Repeats(inodes: seq<INode>, d: nat, a: nat, b: nat, n: nat) returns (j: nat)
    requires a < b && Up(inodes, d, a) == Up(inodes, d, b)
    ensures j < b && Up(inodes, d, n) == Up(inodes, d, j)
    decreases n
  {
    if n < b {
      j := n;
    } else {
      UpAdd(inodes, d, b, n - b);
      UpAdd(inodes, d, a, n - b);
      j := Repeats(inodes, d, a, b, a + (n - b));
    }
  }

  /** So it never ends. */
  lemma WalkCircles(inodes: seq<INode>, d: nat, m: nat, a: nat, b: nat)
    requires a < b && Up(inodes, d, a) == Up(inodes, d, b)
    requires forall j: nat :: j < b ==> Up(inodes, d, j) != 0 && Up(inodes, d, j) != m
    ensures !WalkEnds(inodes, d, m)
  {
    forall n: nat ensures Up(inodes, d, n) != 0 && Up(inodes, d, n) != m {
      var j := Repeats(inodes, d, a, b, n);
    }
  }

  lemma WalkEnded(inodes: seq<INode>, d: nat, m: nat, n: nat)
    requires Up(inodes, d, n) == 0 || Up(inodes, d, n) == m
    ensures WalkEnds(inodes, d, m)
  {
  }

  lemma ParentExists(s: State, x: nat)
    requires Usable(s) && x < |s.inodes|
    ensures s.inodes[x].parent < |s.inodes| == MAX_FILES
  {
    hide AllList, InodeCopy, BitmapCopy, Tree;
    assert GoodInode(s.inodes[x], s.bitmap);
  }

  /** The numbers a walk has not seen get fewer. */
  ghost function Below(n: nat): (r: set<nat>)
    ensures forall y: nat :: y in r <==> y < n
  {
    if n == 0 then {} else Below(n - 1) + {n - 1}
  }

  // ----- the walk in a tree -----

  /** In a valid volume the parent links in the table are those of the tree. */
  lemma UpIsAncestor(s: State, d: nat, n: nat)
    requires Valid(s) && d < |s.inodes| && Tree(s)[d].used
    ensures Up(s.inodes, d, n) == Ancestor(Tree(s), d, n)
    decreases n
  {
    hide Usable, Tree;
    if d == 0 {
      RootStays(Tree(s), n);
    } else if n > 0 {
      UsableConsistent(s);
      UsedIs(s, d);
      assert Listed(Tree(s), d);
      UpIsAncestor(s, Tree(s)[d].parent, n - 1);
    }
  }

  /** Every walk up a tree ends, and comes to the inodes above. */
  lemma TreeWalks(s: State, d: nat, m: nat)
    requires Valid(s) && IsDirectory(Tree(s), d)
    ensures WalkEnds(s.inodes, d, m) && (Meets(s.inodes, d, m) <==> !NotInside(Tree(s), d, m))
  {
    hide Usable, Tree;
    var t := Tree(s);
    assert Rooted(t, d);
    var depth: nat :| Ancestor(t, d, depth) == 0;
    UpIsAncestor(s, d, depth);
    forall n: nat ensures Up(s.inodes, d, n) == Ancestor(t, d, n) {
      UpIsAncestor(s, d, n);
    }
  }

  lemma MoveEndsInTree(s: State, name: Name, d: nat)
    requires Valid(s)
    ensures MoveEnds(s, name, d)
  {
    hide Usable, TreeInv, Tree, WalkEnds;
    if Walks(s, name, d) {
      TreeWalks(s, d, Lookup(HereEntries(s), name));
    }
  }

  lemma AncestorIsDirectory(t: seq<TNode>, d: nat, n: nat)
    requires TreeInv(t) && IsDirectory(t, d)
    ensures IsDirectory(t, Ancestor(t, d, n))
    decreases n
  {
    if n > 0 {
      assert d == 0 || Listed(t, d);
      AncestorIsDirectory(t, t[d].parent, n - 1);
    }
  }

  /** Nothing lies below a file. */
  lemma FileNotInside(t: seq<TNode>, d: nat, m: nat)
    requires TreeInv(t) && IsDirectory(t, d) && m < |t| && !t[m].isDir
    ensures NotInside(t, d, m)
  {
    forall n: nat ensures Ancestor(t, d, n) != m {
      AncestorIsDirectory(t, d, n);
    }
  }

  // ----- names -----

  lemma ListedName(s: State, k: nat)
    requires Usable(s) && k < |HereEntries(s)|
    ensures ValidName(HereEntries(s)[k].name)
  {
    DirectoryListable(s, s.currentDir);
    var n := Nodes(s)[s.currentDir];
    assert HasSlot(n, k) && Terminated(SlotAt(n, k));
    assert Listing(n)[k] == DecodeSlot(SlotAt(n, k));
  }

  /** Another directory can be worked on by making it the current one. */
  lemma AtListable(s: State, d: nat)
    requires Usable(s) && IsDirectory(Tree(s), d)
    ensures IsListable(At(s, d), Nodes(s), d) && d < |s.inodes| && Tree(s)[d].entries == Listing(Nodes(s)[d])
    ensures |Tree(s)[d].entries| == EntryCount(Nodes(s)[d])
  {
    DirectoryListable(s, d);
  }

  // ----- the steps of a move -----

  /** After the entry is added to the destination the source can still be changed. */
  lemma DestinationAdded(s0: State, d: nat, e: Entry, s: State) returns (r: Node)
    requires Usable(s0) && IsDirectory(Tree(s0), d) && d != s0.currentDir
    requires EntryAdded(At(s0, d), Nodes(s0), d, e, s)
    ensures d < |s0.inodes| && s0.currentDir < |s0.inodes|
    ensures Listing(r) == Listing(Nodes(s0)[d]) + [e] && r == Nodes(s0)[d].(fileSize := r.fileSize, image := r.image)
    ensures GoodListing(r) && IsListable(At(s, s0.currentDir), Nodes(s0)[d := r], s0.currentDir)
    ensures Nodes(s0)[d := r][s0.currentDir] == Nodes(s0)[s0.currentDir]
    ensures ClearBits(s.bitmap) == ClearBits(s0.bitmap) - Needed(|Tree(s0)[d].entries|)
    ensures s.bitmap == Take(s0.bitmap, Needed(|Tree(s0)[d].entries|))
  {
    hide EntryAdded, InodeCopy, AllocInv, BitmapCopy, TreeOf, NodesOf, Listing, GoodListing, TreeInv;
    DirectoryListable(s0, s0.currentDir);
    DirectoryListable(s0, d);
    r := AddedNode(At(s0, d), Nodes(s0), d, e, s);
    AddedRest(At(s0, d), Nodes(s0), d, e, s);
    UsedIs(s0, s0.currentDir);
    ShowsUsed(s, Nodes(s0)[d := r], s0.currentDir);
  }

  lemma ShowsUsed(s: State, nodes: seq<Node>, i: nat)
    requires Shows(s, nodes) && i < MAX_FILES
    ensures i < |nodes| && s.inodes[i].isUsed == nodes[i].isUsed && s.inodes[i].kind == nodes[i].kind
    ensures |s.inodes[i].blocks| == MAX_BLOCKS == |nodes[i].image|
    ensures s.inodes[i].blocks[0] != 0 <==> nodes[i].image[0].Some?
    ensures s.inodes[i].blocks[0] != 0 ==> Owns(s, i, 0) && BlockOf(s, i, 0) == Content(nodes[i].image, 0)
  {
    assert GoodInode(s.inodes[i], s.bitmap);
  }

  /** The ".." slot of a directory's first block, repointed. */
  function Repoint(b: Block, d: nat): Block {
    Patch(b, 68, LeBytes(d, 4))
  }

  /** The new parent link, and for a directory with a first block the new "..". */
  function Relink(s: State, i: nat, d: nat): State {
    if i >= |s.inodes| then s
    else
      var s1 := Describe(s, i, s.inodes[i].(parent := d));
      if s.inodes[i].kind == Directory && |s.inodes[i].blocks| > 0 && s.inodes[i].blocks[0] != 0
      then Write(s1, i, 0, Repoint(BlockOf(s, i, 0), d))
      else s1
  }

  function Relinked(n: Node, d: nat): Node {
    n.(parent := d,
       image := if n.kind == Directory && |n.image| > 0
         && n.image[0].Some? then SetContent(n.image, 0, Repoint(Content(n.image, 0), d)) else n.image)
  }

  lemma RelinkShows(s: State, nodes: seq<Node>, i: nat, d: nat)
    requires Shows(s, nodes) && i < MAX_FILES && d < MAX_FILES
    ensures i < |nodes| && Shows(Relink(s, i, d), nodes[i := Relinked(nodes[i], d)])
  {
    hide Consistent, Repoint, NodesOf;
    ShowsUsed(s, nodes, i);
    ShowsFits(s, nodes, i);
    var n := s.inodes[i].(parent := d);
    var s1, nodes1 := Describe(s, i, n), nodes[i := nodes[i].(parent := d)];
    DescribeParent(s, nodes, i, d);
    if n.kind == Directory && n.blocks[0] != 0 {
      WriteKeeps(s1, nodes1, i, 0, Repoint(BlockOf(s, i, 0), d));
    }
  }

  lemma ShowsFits(s: State, nodes: seq<Node>, i: nat)
    requires Shows(s, nodes) && i < MAX_FILES
    ensures s.inodes[i].fileSize <= MAX_BLOCKS * 512 && |nodes| == MAX_FILES && NodeOf(s.inodes[i], s.disk) == nodes[i]
  {
    assert GoodInode(s.inodes[i], s.bitmap);
  }

  lemma DescribeParent(s: State, nodes: seq<Node>, i: nat, d: nat)
    requires Shows(s, nodes) && i < MAX_FILES && d < MAX_FILES
    ensures |nodes| == MAX_FILES && Shows(Describe(s, i, s.inodes[i].(parent := d)), nodes[i := nodes[i].(parent := d)])
  {
    hide Consistent;
    ShowsFits(s, nodes, i);
    DescribeKeeps(s, nodes, i, s.inodes[i].(parent := d));
  }

  /** Only the inode number of slot 1 changes. */
  lemma RepointSlot(b: Block, d: nat, j: nat)
    requires j < 7 && d < MAX_FILES
    ensures Slot(Repoint(b, d), j) == if j == 1 then LeBytes(d, 4) + Slot(b, 1)[4..] else Slot(b, j)
  {
    var p := Repoint(b, d);
    assert forall x :: 0 <= x < 512 ==> p[x] == if 68 <= x < 72 then LeBytes(d, 4)[x - 68] else b[x];
    var s, t := Slot(p, j), if j == 1 then LeBytes(d, 4) + Slot(b, 1)[4..] else Slot(b, j);
    assert forall x :: 0 <= x < 68 ==> s[x] == p[68 * j + x];
    assert forall x :: 0 <= x < 68 ==> s[x] == t[x];
    assert s == t;
  }

  lemma RepointDecode(s: seq<u8>, d: nat)
    requires |s| == 68 && d < MAX_FILES
    ensures var r := LeBytes(d, 4) + s[4..];
      DecodeSlot(r) == Entry(d, DecodeSlot(s).name) && (Terminated(r) <==> Terminated(s))
  {
    var r := LeBytes(d, 4) + s[4..];
    assert r[..4] == LeBytes(d, 4) && r[4..] == s[4..];
    Pow2Values();
    LeValOfBytes(d, 4);
  }

  lemma RelinkedSlot(n: Node, d: nat, k: nat)
    requires GoodListing(n) && n.kind == Directory && d < MAX_FILES && k < EntryCount(n)
    ensures HasSlot(n, k) && HasSlot(Relinked(n, d), k)
    ensures Terminated(SlotAt(Relinked(n, d), k))
    ensures DecodeSlot(SlotAt(Relinked(n, d), k)) == if k == 1 then Entry(d, DecodeSlot(SlotAt(n, 1)).name)
      else DecodeSlot(SlotAt(n, k))
  {
    hide Repoint, Slot, DecodeSlot, Terminated;
    assert HasSlot(n, 0) && HasSlot(n, k) && Terminated(SlotAt(n, k));
    if k / 7 == 0 {
      RepointSlot(n.image[0].value, d, k);
      RepointDecode(SlotAt(n, k), d);
    }
  }

  lemma RelinkedListing(n: Node, d: nat)
    requires GoodListing(n) && n.kind == Directory && d < MAX_FILES
    ensures GoodListing(Relinked(n, d)) && Listing(Relinked(n, d)) == Repointed(Listing(n), d)
  {
    hide Slot, DecodeSlot, Terminated, SlotAt, Repoint;
    var r := Relinked(n, d);
    assert EntryCount(r) == EntryCount(n) && |r.image| == |n.image|;
    forall k | 0 <= k < EntryCount(n)
      ensures HasSlot(r, k) && Terminated(SlotAt(r, k)) && DecodeSlot(SlotAt(r, k)) == Repointed(Listing(n), d)[k]
    {
      RelinkedSlot(n, d, k);
    }
    assert GoodListing(r);
    assert Listing(r) == Repointed(Listing(n), d);
  }

  /** Entry 1 now names inode d. */
  function Repointed(es: seq<Entry>, d: nat): seq<Entry> {
    if |es| >= 2 then es[1 := Entry(d, es[1].name)] else es
  }

  lemma RelinkedLists(n: Node, d: nat)
    requires Lists(n) && n.kind == Directory && d < MAX_FILES
    ensures Lists(Relinked(n, d)) && Relinked(n, d).isUsed == n.isUsed && Relinked(n, d).kind == n.kind
  {
    hide Repoint;
    RelinkedListing(n, d);
    hide GoodListing, Listing;
  }

  /** A used node of a tree, after the relink, as a tree node. */
  lemma RelinkedTNode(n: Node, d: nat)
    requires n.isUsed && d < MAX_FILES
    requires n.kind == Directory ==> GoodListing(n) && EntryCount(n) >= 2
    ensures var m := TNodeOf(n);
      && (if n.kind == Directory then |m.entries| >= 2 else m.entries == [])
      && TNodeOf(Relinked(n, d)) == m.(parent := d, entries := if |m.entries| >= 2
        then m.entries[1 := Entry(d, m.entries[1].name)] else m.entries)
  {
    if n.kind == Directory {
      RelinkedListing(n, d);
    }
    hide GoodListing, Listing, Repoint;
  }

  ghost function MovedNodes(nodes: seq<Node>, s: nat, k: nat, d: nat, i: nat, r: Node): (m: seq<Node>)
    requires s < |nodes| && d < |nodes| && i < |nodes|
    ensures |m| == |nodes|
  {
    var m := nodes[d := r][s := RemovedNode(nodes[s], k)];
    m[i := Relinked(m[i], d)]
  }

  /** The nodes a move works on. */
  ghost predicate Movable(nodes: seq<Node>, s: nat, k: nat, d: nat, i: nat) {
    && s < |nodes| && d < |nodes| && i < |nodes| && s != d && i != s && i != d && d < MAX_FILES
    && nodes[s].isUsed && nodes[s].kind == Directory && GoodListing(nodes[s]) && k < EntryCount(nodes[s])
    && nodes[d].isUsed && nodes[d].kind == Directory
    && nodes[i].isUsed && (nodes[i].kind == Directory ==> GoodListing(nodes[i]) && EntryCount(nodes[i]) >= 2)
    && Listing(nodes[s])[k].inode == i
  }

  lemma RemovedTNode(n: Node, k: nat)
    requires n.isUsed && n.kind == Directory && GoodListing(n) && k < EntryCount(n)
    ensures k < |TNodeOf(n).entries| && TNodeOf(RemovedNode(n, k))
      == TNodeOf(n).(entries := RemoveAt(TNodeOf(n).entries, k))
  {
    RemovedListing(n, k);
    hide GoodListing, Listing, RemovedFrom;
  }

  lemma GrownTNode(n: Node, r: Node, e: Entry)
    requires n.isUsed && n.kind == Directory && r == n.(fileSize := r.fileSize, image := r.image)
      && Listing(r) == Listing(n) + [e]
    ensures TNodeOf(r) == TNodeOf(n).(entries := TNodeOf(n).entries + [e])
  {
  }

  lemma ListingLength(n: Node)
    requires GoodListing(n)
    ensures |Listing(n)| == EntryCount(n)
  {
  }

  lemma DirectoryTNodeIs(n: Node)
    requires n.isUsed && n.kind == Directory
    ensures TNodeOf(n).entries == Listing(n)
  {
  }

  // Automatic induction over the sequence only gets in the way here.
  lemma {:induction false} MovedTree(nodes: seq<Node>, s: nat, k: nat, d: nat, i: nat, r: Node)
    requires Movable(nodes, s, k, d, i)
    requires r == nodes[d].(fileSize := r.fileSize, image := r.image)
      && Listing(r) == Listing(nodes[d]) + [Listing(nodes[s])[k]]
    ensures |TreeOf(nodes)[i].entries| != 1 && k < |TreeOf(nodes)[s].entries| && TreeOf(nodes)[s].entries[k].inode == i
    ensures TreeOf(MovedNodes(nodes, s, k, d, i, r)) == Moved(TreeOf(nodes), s, k, d)
  {
    hide GoodListing, Listing, Relinked, RemovedNode, TreeOf, TNodeOf;
    RelinkedTNode(nodes[i], d);
    ListingLength(nodes[s]);
    RemovedTNode(nodes[s], k);
    GrownTNode(nodes[d], r, Listing(nodes[s])[k]);
    DirectoryTNodeIs(nodes[s]);
    TreeUpdate(nodes, d, r);
    TreeUpdate(nodes[d := r], s, RemovedNode(nodes[s], k));
    TreeUpdate(nodes[d := r][s := RemovedNode(nodes[s], k)], i, Relinked(nodes[i], d));
  }

  /** What a move does to the nodes: the entry is added there, removed here, and its inode relinked. */
  ghost predicate MovedOn(s0: State, k: nat, d: nat, s: State) {
    && Usable(s) && s.currentDir == s0.currentDir < |s0.inodes| && d < |s0.inodes| && k < |HereEntries(s0)|
    && ClearBits(s.bitmap) == ClearBits(s0.bitmap) - Needed(|Tree(s0)[d].entries|)
    && s.bitmap == Take(s0.bitmap, Needed(|Tree(s0)[d].entries|))
    && SameContents(Nodes(s0), Nodes(s)) && HereEntries(s0)[k].inode < |s0.inodes|
    && exists r: Node :: Gained(Nodes(s0)[d], r, HereEntries(s0)[k])
         && Nodes(s) == MovedNodes(Nodes(s0), s0.currentDir, k, d, HereEntries(s0)[k].inode, r)
  }

  /** Directory n with one more entry. */
  ghost predicate Gained(n: Node, r: Node, e: Entry) {
    Listing(r) == Listing(n) + [e] && r == n.(fileSize := r.fileSize, image := r.image)
  }

  lemma MovedContents(nodes: seq<Node>, s: nat, k: nat, d: nat, i: nat, r: Node)
    requires DirectoryNodeAt(nodes, s) && DirectoryNodeAt(nodes, d) && i < |nodes|
    requires r == nodes[d].(fileSize := r.fileSize, image := r.image)
    ensures SameContents(nodes, MovedNodes(nodes, s, k, d, i, r))
  {
    hide RemovedFrom, SetContent, Repoint;
  }

  /** Every directory can still be searched after a move. */
  lemma MovedLists(nodes: seq<Node>, s: nat, k: nat, d: nat, i: nat, r: Node)
    requires AllList(nodes) && DirectoryNodeAt(nodes, s) && DirectoryNodeAt(nodes, d) && s != d
    requires i < |nodes| && d < MAX_FILES && k < EntryCount(nodes[s]) && Lists(r)
    requires r.kind == Directory && r.isUsed
    ensures var after := MovedNodes(nodes, s, k, d, i, r);
      AllList(after) && forall x: nat :: DirectoryNodeAt(nodes, x) ==> DirectoryNodeAt(after, x)
  {
    hide Lists, AllList, Relinked, RemovedNode;
    ListsAt(nodes, s);
    RemovedLists(nodes[s], k);
    AllListUpdate(nodes, d, r);
    AllListUpdate(nodes[d := r], s, RemovedNode(nodes[s], k));
    var m := nodes[d := r][s := RemovedNode(nodes[s], k)];
    RelinkedKind(m[i], d);
    if m[i].isUsed && m[i].kind == Directory {
      ListsAt(m, i);
      RelinkedLists(m[i], d);
    }
    AllListUpdate(m, i, Relinked(m[i], d));
  }

  lemma RelinkedKind(n: Node, d: nat)
    ensures Relinked(n, d).isUsed == n.isUsed && Relinked(n, d).kind == n.kind
  {
    hide Repoint;
  }

  lemma IsMovable(s: State, name: Name, k: nat, d: nat)
    requires Valid(s) && CanMove(s, name, d) && k == FindEntry(HereEntries(s), name)
    ensures Names(s, name, k) && Movable(Nodes(s), s.currentDir, k, d, HereEntries(s)[k].inode)
    ensures MayMove(Tree(s), s.currentDir, k, d) && HereEntries(s) == Listing(Nodes(s)[s.currentDir])
  {
    hide Consistent, NodesOf, TreeOf, Listing, GoodListing, InodeCopy, AllList, Meets;
    NamedInode(s, name, k);
    var i := HereEntries(s)[k].inode;
    HereIs(s);
    ListableHere(s, s.currentDir);
    ListableHere(s, d);
    MovesOutside(s, i, name, d);
    assert Ancestor(Tree(s), d, 0) == d;
    UsedNode(s, i);
    if Nodes(s)[i].kind == Directory {
      ListableHere(s, i);
    }
  }

  /** The destination does not lie below what is moved. */
  lemma MovesOutside(s: State, i: nat, name: Name, d: nat)
    requires Valid(s) && CanGo(s, i, name, d) && s.inodes[i].isUsed
    ensures NotInside(Tree(s), d, i)
  {
    hide Usable, TreeInv, Tree, NotInside, Meets;
    TreeWalks(s, d, i);
    UsableConsistent(s);
    UsedIs(s, i);
    if s.inodes[i].kind != Directory {
      TreeOfValid(s);
      FileNotInside(Tree(s), d, i);
    }
  }

  lemma TreeOfValid(s: State)
    requires Valid(s)
    ensures TreeInv(Tree(s))
  {
  }

  lemma ListableHere(s: State, d: nat)
    requires Valid(s) && IsDirectory(Tree(s), d)
    ensures d < |s.inodes| && Nodes(s)[d].isUsed && Nodes(s)[d].kind == Directory && GoodListing(Nodes(s)[d])
    ensures EntryCount(Nodes(s)[d]) == |Tree(s)[d].entries| >= 2
  {
    DirectoryListable(s, d);
    UsedIs(s, d);
    assert GoodDirectory(Tree(s), d);
  }

  lemma UsedNode(s: State, i: nat)
    requires Valid(s) && i < |s.inodes| && s.inodes[i].isUsed
    ensures Nodes(s)[i].isUsed && (Nodes(s)[i].kind == Directory <==> Tree(s)[i].isDir) && Tree(s)[i].used
    ensures Nodes(s)[i].kind == File ==> Tree(s)[i].entries == []
  {
    UsedIs(s, i);
  }

  lemma MoveDone(s0: State, name: Name, k: nat, d: nat, r: Node, s2: State, s: State)
    requires Usable(s0) && Found(s0, name, k) && IsDirectory(Tree(s0), d) && d != s0.currentDir
      && d < |s0.inodes| && s0.currentDir < |s0.inodes|
    requires Gained(Nodes(s0)[d], r, HereEntries(s0)[k]) && GoodListing(r)
    requires Shows(s2, Nodes(s0)[d := r][s0.currentDir := RemovedNode(Nodes(s0)[s0.currentDir], k)])
    requires Flushed(Relink(s2, HereEntries(s0)[k].inode, d), s) && s2.currentDir == s0.currentDir
    requires d < |Tree(s0)| && ClearBits(s2.bitmap) == ClearBits(s0.bitmap) - Needed(|Tree(s0)[d].entries|)
    requires s2.bitmap == Take(s0.bitmap, Needed(|Tree(s0)[d].entries|))
    ensures MovedOn(s0, k, d, s)
  {
    hide Usable, Lists, AllList, Flushed, RemovedNode, Tree, Consistent, Nodes, Relink, Relinked, SameContents,
      NodeOf, HereEntries, Listing, GoodListing;
    var src, i := s0.currentDir, HereEntries(s0)[k].inode;
    FoundInode(s0, name, k);
    UsableBasics(s0);
    UsableNodes(s0);
    DirectoryListable(s0, d);
    DirectoryKind(s0, d);
    GrownLists(Nodes(s0)[d], r, HereEntries(s0)[k]);
    var nodes2 := Nodes(s0)[d := r][src := RemovedNode(Nodes(s0)[src], k)];
    RelinkShows(s2, nodes2, i, d);
    var after := MovedNodes(Nodes(s0), src, k, d, i, r);
    FlushKeeps(Relink(s2, i, d), after, s);
    MovedLists(Nodes(s0), src, k, d, i, r);
    MovedContents(Nodes(s0), src, k, d, i, r);
    FlushedRest(Relink(s2, i, d), s);
    RelinkRest(s2, i, d);
    IsUsable(s, after);
    ShowsNodes(s, after);
  }

  lemma DirectoryKind(s: State, d: nat)
    requires IsDirectory(Tree(s), d)
    ensures DirectoryNodeAt(Nodes(s), d) && d < |s.inodes|
  {
    DirectoryNodeOf(s, d);
  }

  lemma FlushedRest(s0: State, s: State)
    requires Flushed(s0, s)
    ensures InodeCopy(s.inodes, s.disk) && s.currentDir == s0.currentDir && s.bitmap == s0.bitmap
  {
  }

  lemma RelinkRest(s: State, i: nat, d: nat)
    ensures Relink(s, i, d).currentDir == s.currentDir && Relink(s, i, d).bitmap == s.bitmap
  {
  }

  /** In a valid volume a move is the tree step, and leaves a valid volume. */
  lemma MovedInTree(s0: State, name: Name, k: nat, d: nat, s: State)
    requires Valid(s0) && CanMove(s0, name, d) && k == FindEntry(HereEntries(s0), name) && MovedOn(s0, k, d, s)
    ensures MovedBy(s0, k, d, s)
  {
    hide Usable, TreeInv, Tree, Nodes, MayMove, Moved, CanMove, HereEntries, SameContents, Relinked, Movable,
      MovedNodes, Listing, GoodListing;
    IsMovable(s0, name, k, d);
    var src, i := s0.currentDir, HereEntries(s0)[k].inode;
    var r: Node :| Gained(Nodes(s0)[d], r, HereEntries(s0)[k])
      && Nodes(s) == MovedNodes(Nodes(s0), src, k, d, i, r);
    MovedTree(Nodes(s0), src, k, d, i, r);
    TreeIs(s0);
    TreeIs(s);
    MovedKeepsTree(Tree(s0), src, k, d);
  }

  lemma TreeIs(s: State)
    ensures Tree(s) == TreeOf(Nodes(s))
  {
  }

  // ----- facts for the steps -----

  lemma UpStart(inodes: seq<INode>, d: nat)
    ensures Up(inodes, d, 0) == d
  {
  }

  lemma DirectoryIs(s: State, d: nat)
    requires Usable(s)
    ensures |s.inodes| == MAX_FILES && s.currentDir < MAX_FILES && (IsDirectory(Tree(s), d) <==>
      d < MAX_FILES && s.inodes[d].isUsed && s.inodes[d].kind == Directory)
  {
    hide AllList, InodeCopy, BitmapCopy;
    if d < MAX_FILES {
      UsedIs(s, d);
    }
  }

  lemma ShowsTable(s: State, nodes: seq<Node>)
    requires Shows(s, nodes)
    ensures |s.inodes| == MAX_FILES == |nodes| && |s.disk| == TOTAL_BLOCKS
  {
  }

  lemma RemovedShows(s0: State, nodes: seq<Node>, d: nat, k: nat, s: State)
    requires EntryRemoved(s0, nodes, d, k, s)
    ensures d < |nodes| && Shows(s, nodes[d := RemovedNode(nodes[d], k)]) && s.currentDir == s0.currentDir
      && s.bitmap == s0.bitmap
  {
  }

  /** What the name resolves to and the first entry with it. */
  lemma GoingStart(s: State, name: Name)
    requires Usable(s)
    ensures Lookup(HereEntries(s), name) != -1 <==> Found(s, name, FindEntry(HereEntries(s), name))
    ensures Lookup(HereEntries(s), name) != -1 ==> Lookup(HereEntries(s), name) < MAX_FILES == |s.inodes|
    ensures Found(s, name, FindEntry(HereEntries(s), name)) ==>
      HereEntries(s)[FindEntry(HereEntries(s), name)].inode == Lookup(HereEntries(s), name)
  {
    hide Usable, Tree, HereEntries;
    var k := FindEntry(HereEntries(s), name);
    if k < |HereEntries(s)| {
      FoundInode(s, name, k);
    }
  }

  lemma GoingFacts(s: State, i: nat, name: Name, d: nat, k: nat)
    requires Usable(s) && Found(s, name, k) && i == HereEntries(s)[k].inode && CanGo(s, i, name, d)
    ensures k == FindEntry(HereEntries(s), name) < |HereEntries(s)| && HereEntries(s)[k] == Entry(i, name)
      && IsString(name) && Kept(name) == name && i < MAX_FILES && Lookup(HereEntries(s), name) == i
    ensures IsDirectory(Tree(s), d) && d < MAX_FILES && IsListable(At(s, d), Nodes(s), d)
      && d != s.currentDir < MAX_FILES == |s.inodes|
    ensures CanMove(s, name, d) <==> Room(EntryCount(Nodes(s)[d]), ClearBits(s.bitmap))
    ensures HereEntries(s) == Listing(Nodes(s)[s.currentDir]) && |HereEntries(s)| == EntryCount(Nodes(s)[s.currentDir])
  {
    hide Usable, IsListable, Listing, Nodes, Meets;
    ListedName(s, k);
    AtListable(s, d);
    UsableBasics(s);
    FoundInode(s, name, k);
  }
}
