/** A move that never ends: renaming ".." and deleting what it names leaves two directories that are each
    other's parents, and the walk up from one of them never comes to the root. */
module FsCircle {
  import opened FsLayout
  import opened FsTree
  import opened FsVolume
  import opened FsState
  import opened FsOps
  import opened FsRemove
  import opened FsFormat
  import opened FsMove
  import opened FsRuns
  import opened FileSystem

  const A: Name := [97]
  const B: Name := [98]
  const C: Name := [99]
  const D: Name := [100]

  /** A usable volume with this tree, here, and at least c free blocks. */
  ghost predicate Stage(s: State, t: seq<TNode>, here: nat, c: nat) {
    Usable(s) && Tree(s) == t && s.currentDir == here && ClearBits(s.bitmap) >= c
  }

  /** Here are entries in a block that is not full. */
  ghost predicate Roomy(t: seq<TNode>, here: nat) {
    here < |t| && |t[here].entries| % 7 != 0
  }

  /** Inode m is the lowest free one. */
  ghost predicate NextFree(t: seq<TNode>, m: nat) {
    m < |t| && !t[m].used && forall j :: 0 <= j < m ==> t[j].used
  }

  lemma StageHere(s: State, t: seq<TNode>, here: nat, c: nat)
    requires Stage(s, t, here, c)
    ensures here < |t| == |s.inodes| == MAX_FILES && HereEntries(s) == t[here].entries
  {
    hide Usable;
    UsableConsistent(s);
    HereTree(s);
  }

  lemma NextFreeIs(s: State, t: seq<TNode>, here: nat, c: nat, m: nat)
    requires Stage(s, t, here, c) && NextFree(t, m)
    ensures !AllUsed(s) && forall i: nat :: FirstFree(s, i) ==> i == m
  {
    hide Usable;
    UsableConsistent(s);
    forall j | 0 <= j <= m ensures s.inodes[j].isUsed == t[j].used {
      UsedIs(s, j);
    }
  }

  /** Makes a directory here. */
  method MakeHere(v: Volume, name: Name, ghost t: seq<TNode>, ghost here: nat, ghost m: nat, ghost c: nat)
    requires Stage(v.S(), t, here, c + 1) && ValidName(name) && Roomy(t, here) && NextFree(t, m)
    requires here < |t| && Lookup(t[here].entries, name) == -1
    modifies v`inodes, v`bitmap, v`freeBlocksCount, v.disk
    ensures here < |t| && m < |t| && Stage(v.S(), Created(t, here, m, name, true), here, c)
    ensures v.bitmap == Take(old(v.bitmap), 1)
  {
    hide Usable, Tree, FirstFree, AllUsed, Lookup, Take, ClearBits, TreeInv;
    ghost var s := v.S();
    StageHere(s, t, here, c + 1);
    NextFreeIs(s, t, here, c + 1, m);
    var ok, i := v.CreateDir(name);
  }

  method EnterHere(v: Volume, name: Name, ghost t: seq<TNode>, ghost here: nat, ghost d: nat, ghost c: nat)
    requires Stage(v.S(), t, here, c) && name != DOT && name != DOTDOT
    requires here < |t| && Lookup(t[here].entries, name) == d && IsDirectory(t, d)
    modifies v`currentDir
    ensures Stage(v.S(), t, d, c)
  {
    hide Usable, Tree, Lookup, ClearBits, TreeInv, Valid;
    ghost var s := v.S();
    StageHere(s, t, here, c);
    UsableConsistent(s);
    UsedIs(s, d);
    UsableAt(s, d);
    ElsewhereSame(s, d);
    var ok := v.Cd(name);
  }

  method RenameHere(v: Volume, name: Name, newName: Name, ghost t: seq<TNode>, ghost here: nat, ghost c: nat)
    requires Stage(v.S(), t, here, c) && ValidName(newName) && c > 0
    requires here < |t| && Lookup(t[here].entries, name) != -1 && Lookup(t[here].entries, newName) == -1
    requires (|t[here].entries| - 1) % 7 != 0
    modifies v`inodes, v`bitmap, v`freeBlocksCount, v.disk
    ensures FindEntry(t[here].entries, name) < |t[here].entries|
    ensures Stage(v.S(), Renamed(t, here, FindEntry(t[here].entries, name), newName), here, c)
    ensures v.bitmap == old(v.bitmap)
  {
    hide Usable, Tree, FindEntry, ClearBits, TreeInv, Valid;
    ghost var s := v.S();
    StageHere(s, t, here, c);
    var ok := v.RenameFile(name, newName);
  }

  method DeleteHere(v: Volume, name: Name, ghost t: seq<TNode>, ghost here: nat, ghost i: nat, ghost c: nat,
      ghost n: nat)
    requires Stage(v.S(), t, here, c) && MarkedBelow(v.bitmap, n) && n <= 4096 && name != DOT && name != DOTDOT
    requires here < |t| && Lookup(t[here].entries, name) == i && 0 < i < |t| && i != here
    modifies v`inodes, v`bitmap, v`freeBlocksCount, v.disk
    ensures FindEntry(t[here].entries, name) < |t[here].entries|
      && t[here].entries[FindEntry(t[here].entries, name)].inode == i
    ensures Stage(v.S(), Deleted(t, here, FindEntry(t[here].entries, name)), here, c)
  {
    hide Usable, Tree, FindEntry, ClearBits, TreeInv, Valid, Lacking, MarkedBelow;
    ghost var s := v.S();
    StageHere(s, t, here, c);
    AllLow(s, i, n);
    var ok := v.DeleteFile(name);
  }

  /** What is owned is marked. */
  lemma AllLow(s: State, i: nat, n: nat)
    requires Usable(s) && i < |s.inodes| && i != s.currentDir && MarkedBelow(s.bitmap, n) && n <= 4096
    ensures Removable(s, i)
  {
    hide AllList, Tree, InodeCopy, BitmapCopy;
    assert GoodInode(s.inodes[i], s.bitmap);
  }

  // ----- the trees on the way -----

  /** In "b", inode 2: the directory "c", inode 1, and the directory "d", inode 3. */
  ghost predicate Circular(t: seq<TNode>) {
    && |t| == MAX_FILES && IsDirectory(t, 1) && IsDirectory(t, 2) && IsDirectory(t, 3)
    && t[1].parent == 2 && t[2].parent == 1
    && t[2].entries == [Entry(2, DOT), Entry(1, C), Entry(3, D)]
  }

  lemma NeverEnds(s: State)
    requires Usable(s) && s.currentDir == 2 && Circular(Tree(s))
    ensures Lookup(HereEntries(s), C) == 1 && Lookup(HereEntries(s), D) == 3 && !MoveEnds(s, D, 1)
  {
    hide Usable, Tree;
    UsableConsistent(s);
    HereTree(s);
    UsedIs(s, 1);
    UsedIs(s, 2);
    UsedIs(s, 3);
    assert Up(s.inodes, 1, 1) == Up(s.inodes, 2, 0) == 2;
    assert Up(s.inodes, 1, 2) == Up(s.inodes, 2, 1) == Up(s.inodes, 1, 0) == 1;
    WalkCircles(s.inodes, 1, 3, 0, 2);
    NamesDiffer();
    LastOf(HereEntries(s), D);
    assert HereEntries(s)[1] == Entry(1, C);
    assert FindEntry(HereEntries(s), C) == 1;
  }

  function Tree1(): (t: seq<TNode>)
    ensures |t| == MAX_FILES
  {
    Created(EmptyTree(), 0, 1, A, true)
  }

  function Tree2(): (t: seq<TNode>)
    ensures |t| == MAX_FILES
  {
    Created(Tree1(), 1, 2, B, true)
  }

  /** After ".." of "b" has been renamed. */
  function Tree3(): (t: seq<TNode>)
    ensures |t| == MAX_FILES
  {
    Tree2()[2 := TNode(true, true, 1, [Entry(2, DOT), Entry(1, C)])]
  }

  /** After what it names, "a", has been deleted. */
  function Tree4(): (t: seq<TNode>)
    ensures |t| == MAX_FILES
  {
    Tree2()[1 := FREE_NODE][2 := TNode(true, true, 1, [Entry(2, DOT)])]
  }

  function Tree5(): (t: seq<TNode>)
    ensures |t| == MAX_FILES
  {
    Created(Tree4(), 2, 1, C, true)
  }

  function Tree6(): (t: seq<TNode>)
    ensures |t| == MAX_FILES
  {
    Created(Tree5(), 2, 3, D, true)
  }

  lemma LastOf(es: seq<Entry>, name: Name)
    requires |es| > 0 && es[|es| - 1].name == name && forall j :: 0 <= j < |es| - 1 ==> es[j].name != name
    ensures FindEntry(es, name) == |es| - 1
  {
  }

  lemma NotNamed(es: seq<Entry>, name: Name)
    requires forall j :: 0 <= j < |es| ==> es[j].name != name
    ensures Lookup(es, name) == -1
  {
  }

  lemma NamesDiffer()
    ensures DOT != A && DOT != B && DOT != C && DOT != D && C != D
    ensures DOTDOT != A && DOTDOT != B && DOTDOT != C && DOTDOT != D && DOT != DOTDOT
  {
    assert DOT[0] == 46 && A[0] == 97 && B[0] == 98 && C[0] == 99 && D[0] == 100 && |DOTDOT| == 2;
  }

  lemma FirstTrees()
    ensures Roomy(EmptyTree(), 0) && NextFree(EmptyTree(), 1) && Lookup(EmptyTree()[0].entries, A) == -1
    ensures Lookup(Tree1()[0].entries, A) == 1 && IsDirectory(Tree1(), 1)
    ensures Roomy(Tree1(), 1) && NextFree(Tree1(), 2) && Lookup(Tree1()[1].entries, B) == -1
    ensures Lookup(Tree2()[1].entries, B) == 2 && IsDirectory(Tree2(), 2)
    ensures Tree1() == Created(EmptyTree(), 0, 1, A, true) && Tree2() == Created(Tree1(), 1, 2, B, true)
  {
    NamesDiffer();
    NotNamed(EmptyTree()[0].entries, A);
    LastOf(Tree1()[0].entries, A);
    NotNamed(Tree1()[1].entries, B);
    LastOf(Tree2()[1].entries, B);
  }

  lemma MiddleTrees()
    ensures var es := Tree2()[2].entries;
      |es| == 2 && Lookup(es, DOTDOT) != -1 && Lookup(es, C) == -1 && FindEntry(es, DOTDOT) == 1
    ensures Renamed(Tree2(), 2, 1, C) == Tree3()
    ensures Lookup(Tree3()[2].entries, C) == 1 && FindEntry(Tree3()[2].entries, C) == 1
    ensures Deleted(Tree3(), 2, 1) == Tree4()
  {
    NamesDiffer();
    var es := Tree2()[2].entries;
    LastOf(es, DOTDOT);
    NotNamed(es, C);
    assert RemoveAt(es, 1) == [Entry(2, DOT)];
    assert Renamed(Tree2(), 2, 1, C)[2].entries == Tree3()[2].entries;
    LastOf(Tree3()[2].entries, C);
    assert RemoveAt(Tree3()[2].entries, 1) == [Entry(2, DOT)];
  }

  lemma LastTrees()
    ensures Roomy(Tree4(), 2) && NextFree(Tree4(), 1) && Lookup(Tree4()[2].entries, C) == -1
    ensures Roomy(Tree5(), 2) && NextFree(Tree5(), 3) && Lookup(Tree5()[2].entries, D) == -1
    ensures Circular(Tree6())
    ensures Tree5() == Created(Tree4(), 2, 1, C, true) && Tree6() == Created(Tree5(), 2, 3, D, true)
  {
    NamesDiffer();
    NotNamed(Tree4()[2].entries, C);
    NotNamed(Tree5()[2].entries, D);
  }

  lemma FirstStage(s: State)
    requires Usable(s) && Tree(s) == EmptyTree() && s.currentDir == 0 && MarkedBelow(s.bitmap, DATA_START + 2)
    ensures Stage(s, EmptyTree(), 0, 4) && MarkedBelow(Take(Take(s.bitmap, 1), 1), 523)
  {
    hide Usable, Tree, EmptyTree, Take, MarkedBelow;
    MarkedCount(s.bitmap);
    TakenBelow(s.bitmap, 521, 1);
    TakenBelow(Take(s.bitmap, 1), 522, 1);
  }

  lemma MarkedCount(bits: seq<bool>)
    requires MarkedBelow(bits, DATA_START + 2)
    ensures ClearBits(bits) >= 4
  {
    ClearAbove(bits, DATA_START + 2);
  }

  /** Four directories, three of them below each other, one renaming and one deletion on a formatted disk:
      ownership and the copies on disk are in order, but moving "d" into "c" would walk for ever. */
  method Encircle(d: array<Block>) returns (v: Volume)
    requires d.Length == TOTAL_BLOCKS
    modifies d
    ensures fresh(v) && v.disk == d && Usable(v.S()) && v.currentDir == 2
    ensures Lookup(HereEntries(v.S()), C) == 1 && Lookup(HereEntries(v.S()), D) == 3
    ensures !MoveEnds(v.S(), D, 1)
  {
    hide Usable, TreeInv, Tree, HereEntries, EmptyTree, Tree1, Tree2, Tree3, Tree4, Tree5, Tree6, Created, Renamed,
      Deleted, MarkedBelow, Take, ClearBits, Lookup, Circular, Roomy, NextFree, IsDirectory, MoveEnds, Stage;
    FirstTrees();
    MiddleTrees();
    LastTrees();
    v := new Volume(d);
    v.CreateSuperBlock();
    FirstStage(v.S());
    MakeHere(v, A, EmptyTree(), 0, 1, 3);
    EnterHere(v, A, Tree1(), 0, 1, 3);
    MakeHere(v, B, Tree1(), 1, 2, 2);
    EnterHere(v, B, Tree2(), 1, 2, 2);
    RenameHere(v, DOTDOT, C, Tree2(), 2, 2);
    DeleteHere(v, C, Tree3(), 2, 1, 2, 523);
    MakeHere(v, C, Tree4(), 2, 1, 1);
    MakeHere(v, D, Tree5(), 2, 3, 0);
    StageIs(v.S(), Tree6(), 2, 0);
    NeverEnds(v.S());
  }

  lemma StageIs(s: State, t: seq<TNode>, here: nat, c: nat)
    requires Stage(s, t, here, c)
    ensures Usable(s) && Tree(s) == t && s.currentDir == here
  {
  }
}
