/** A disk runs out although no volume can own all its blocks: a directory whose last block of entries has
    emptied takes a new block for the next entry and forgets the one it had. */
module FsDry {
  import opened Bytes
  import opened FsLayout
  import opened FsTree
  import opened FsVolume
  import opened FsState
  import opened FsOps
  import opened FsRemove
  import opened FsData
  import opened FsFormat
  import opened FsRuns
  import opened FileSystem

  // ----- one pair -----

  lemma {:induction false} NothingHeld(blocks: seq<nat>, n: nat)
    requires n <= |blocks| && forall k :: 0 <= k < |blocks| ==> blocks[k] == 0
    ensures Lacking(blocks, n) == n
  {
    if n > 0 {
      NothingHeld(blocks, n - 1);
    }
  }

  /** Deleting what was just created gives the tree back. */
  lemma CreatedThenDeleted(t: seq<TNode>, d: nat, i: nat, name: Name)
    requires d < |t| && i < |t| && i != d && t[i] == FREE_NODE
    ensures var u := BareCreated(t, d, i, name, false);
      u[d].entries == t[d].entries + [Entry(i, name)] && Deleted(u, d, |t[d].entries|) == t
  {
    var es := t[d].entries + [Entry(i, name)];
    assert RemoveAt(es, |es| - 1) == t[d].entries;
    var u := BareCreated(t, d, i, name, false);
    assert u[i := FREE_NODE][d := u[d].(entries := t[d].entries)] == t;
  }

  lemma LastNamed(es: seq<Entry>, i: nat, name: Name)
    requires Lookup(es, name) == -1
    ensures FindEntry(es + [Entry(i, name)], name) == |es| && Lookup(es + [Entry(i, name)], name) == i
  {
    var all := es + [Entry(i, name)];
    var k := FindEntry(all, name);
    assert all[|es|].name == name;
  }

  /** A file just created is the last entry. */
  lemma FreshFile(s0: State, i: nat, name: Name, s1: State)
    requires Usable(s0) && Lookup(HereEntries(s0), name) == -1 && InodeCreated(s0, i, name, File, s1)
    ensures HereEntries(s1) == HereEntries(s0) + [Entry(i, name)]
    ensures FindEntry(HereEntries(s1), name) == |HereEntries(s0)| && Lookup(HereEntries(s1), name) == i
  {
    hide Usable, TreeInv, Consistent, Tree, Nodes, InodeCopy, SameContents, Lookup, FindEntry;
    NotHere(s0, i);
    LastNamed(HereEntries(s0), i, name);
  }

  /** It holds no block and may be deleted. */
  lemma FreshDeletable(s0: State, i: nat, name: Name, s1: State)
    requires Usable(s0) && InodeCreated(s0, i, name, File, s1)
    ensures 0 < i < |s1.inodes| && Removable(s1, i)
    ensures |s1.inodes[i].blocks| == MAX_BLOCKS && Lacking(s1.inodes[i].blocks, MAX_BLOCKS) == MAX_BLOCKS
  {
    hide Usable, Consistent, Tree, Nodes, InodeCopy, SameContents, Lacking;
    CreatedBasics(s0, i, name, File, s1);
    NotHere(s0, i);
    RootUsed(s0);
    NothingHeld(s1.inodes[i].blocks, MAX_BLOCKS);
  }

  lemma RootUsed(s: State)
    requires Usable(s)
    ensures |s.inodes| == MAX_FILES && s.inodes[0].isUsed
  {
    UsedIs(s, 0);
  }

  lemma PairUndone(s0: State, i: nat, name: Name, s1: State, s2: State)
    requires Usable(s0) && Lookup(HereEntries(s0), name) == -1 && InodeCreated(s0, i, name, File, s1)
      && DeletedBy(s1, name, s2)
    ensures Tree(s2) == Tree(s0) && SameContents(Nodes(s0), Nodes(s2)) && s2.currentDir == s0.currentDir
    ensures ClearBits(s2.bitmap) == ClearBits(s0.bitmap) - Needed(|HereEntries(s0)|)
  {
    hide Usable, TreeInv, Consistent, Tree, Nodes, InodeCopy, Lookup, FindEntry, BareCreated, Deleted, Lacking, Needed;
    FreshFile(s0, i, name, s1);
    FreshDeletable(s0, i, name, s1);
    NotHere(s0, i);
    FreeNode(s0, i);
    CreatedThenDeleted(Tree(s0), s0.currentDir, i, name);
  }

  lemma FreeNode(s: State, i: nat)
    requires Usable(s) && i < |s.inodes| && !s.inodes[i].isUsed
    ensures Tree(s)[i] == FREE_NODE && !Nodes(s)[i].isUsed
  {
    UsedIs(s, i);
  }

  /** Creating a file where a new block of entries starts, and deleting it, costs one block for good. */
  method CreateThenDelete(v: Volume, name: Name)
    requires Valid(v.S()) && ValidName(name) && name != DOT && name != DOTDOT
    requires CanCreate(v.S(), name) && |HereEntries(v.S())| % 7 == 0
    modifies v`inodes, v`bitmap, v`freeBlocksCount, v.disk
    ensures Valid(v.S()) && Tree(v.S()) == old(Tree(v.S())) && v.currentDir == old(v.currentDir)
    ensures SameContents(old(Nodes(v.S())), Nodes(v.S()))
    ensures ClearBits(v.bitmap) == old(ClearBits(v.bitmap)) - 1
  {
    hide Usable, TreeInv, Tree, Nodes, InodeCreated, HereEntries, Lookup, Removable, SameContents, FindEntry,
      DeletedBy;
    ghost var s0 := v.S();
    var r := v.CreateFile(name, File);
    ghost var s1 := v.S();
    FreshFile(s0, r, name, s1);
    CreatedIs(s0, r, name, s1);
    FreshDeletable(s0, r, name, s1);
    CreatedFileValidIff(s0, r, name, s1);
    var ok := v.DeleteFile(name);
    DeletedIs(s1, name, v.S());
    PairUndone(s0, r, name, s1, v.S());
    SameTreeValid(s0, v.S());
  }

  lemma CreatedIs(s0: State, i: nat, name: Name, s1: State)
    requires InodeCreated(s0, i, name, File, s1)
    ensures Usable(s1) && i < |s1.inodes|
  {
  }

  lemma DeletedIs(s0: State, name: Name, s: State)
    requires DeletedBy(s0, name, s)
    ensures Usable(s)
  {
  }

  // ----- a disk without free blocks -----

  /** The names are the dots and single characters below c. */
  ghost predicate NamesBelow(es: seq<Entry>, c: nat) {
    forall k, x: u8 :: 0 <= k < |es| && x as nat >= c ==> es[k].name != [x]
  }

  lemma SpareInode(s: State, j: nat)
    requires Valid(s) && j < MAX_FILES && !Tree(s)[j].used
    ensures !AllUsed(s) && |s.inodes| == MAX_FILES
  {
    UsedIs(s, j);
  }

  /** What holds while the root directory gets its first files: n of them. */
  ghost predicate Started(s: State, n: nat) {
    && Valid(s) && s.currentDir == 0 && |HereEntries(s)| == 2 + n && NamesBelow(HereEntries(s), 65 + n)
    && |Tree(s)| == MAX_FILES && forall j :: n < j < MAX_FILES ==> !Tree(s)[j].used
  }

  lemma StartedCreate(s: State, n: nat)
    requires Started(s, n) && n < 100 && ((2 + n) % 7 != 0 || ClearBits(s.bitmap) > 0)
    ensures CanCreate(s, [(65 + n) as u8]) && Lookup(HereEntries(s), [(65 + n) as u8]) == -1
  {
    hide Usable, TreeInv;
    SpareInode(s, n + 1);
  }

  lemma StartedNext(s: State, n: nat, i: nat, s1: State)
    requires Started(s, n) && n < 100 && InodeCreated(s, i, [(65 + n) as u8], File, s1) && Valid(s1)
    requires Lookup(HereEntries(s), [(65 + n) as u8]) == -1
    ensures Started(s1, n + 1) && ClearBits(s1.bitmap) == ClearBits(s.bitmap) - Needed(2 + n)
    ensures Lookup(HereEntries(s1), [(65 + n) as u8]) != -1
  {
    hide Usable, TreeInv, Consistent, Tree, Nodes, SameContents, InodeCopy, Lookup, FindEntry;
    FreshFile(s, i, [(65 + n) as u8], s1);
    FirstIsNext(s, n, i);
    NotHere(s, i);
  }

  lemma FirstIsNext(s: State, n: nat, i: nat)
    requires Started(s, n) && n < 100 && FirstFree(s, i)
    ensures i <= n + 1
  {
    UsedIs(s, n + 1);
  }

  lemma StartedEmpty(s: State)
    requires Valid(s) && s.currentDir == 0 && Tree(s) == EmptyTree()
    ensures Started(s, 0)
  {
    hide Usable, TreeInv, TreeOf, Nodes;
    UsableBasics(s);
  }

  /** Adds the next file to the root directory. */
  method AddFile(v: Volume, n: nat)
    requires Started(v.S(), n) && n < 100 && ((2 + n) % 7 != 0 || ClearBits(v.bitmap) > 0)
    modifies v`inodes, v`bitmap, v`freeBlocksCount, v.disk
    ensures Started(v.S(), n + 1) && ClearBits(v.bitmap) == old(ClearBits(v.bitmap)) - Needed(2 + n)
    ensures Lookup(HereEntries(v.S()), [(65 + n) as u8]) != -1
  {
    hide Started, Usable, TreeInv, CanCreate, InodeCreated, HereEntries, Lookup;
    ghost var s0 := v.S();
    StartedCreate(s0, n);
    StartedValid(s0, n);
    var r := v.CreateFile([(65 + n) as u8], File);
    CreatedFileValidIff(s0, r, [(65 + n) as u8], v.S());
    StartedNext(s0, n, r, v.S());
  }

  lemma StartedValid(s: State, n: nat)
    requires Started(s, n)
    ensures Valid(s) && |HereEntries(s)| == 2 + n && s.currentDir == 0
  {
  }

  lemma StartedAgain(s: State, s1: State, n: nat)
    requires Started(s, n) && Valid(s1) && Tree(s1) == Tree(s) && s1.currentDir == s.currentDir
    ensures Started(s1, n)
  {
    UsableBasics(s);
    UsableBasics(s1);
  }

  lemma DryIs(s: State)
    requires Started(s, 6) && ClearBits(s.bitmap) == 0 && Lookup(HereEntries(s), [70]) != -1
    ensures RunsDry(s, [71]) && LosesEntry(s, [70], [71])
  {
    hide Usable, TreeInv;
    SpareInode(s, 7);
  }

  /** From a formatted disk, by creating and deleting files alone, to a valid volume on which the next
      directory is left without its dots and the next renaming loses its entry. */
  method Exhaust(d: array<Block>) returns (v: Volume)
    requires d.Length == TOTAL_BLOCKS
    modifies d
    ensures fresh(v) && v.disk == d && Valid(v.S()) && ClearBits(v.bitmap) == 0
    ensures RunsDry(v.S(), [71]) && LosesEntry(v.S(), [70], [71])
  {
    hide Started, Usable, TreeInv, CanCreate, RunsDry, LosesEntry, HereEntries, Lookup, Tree, EmptyTree;
    v := new Volume(d);
    v.CreateSuperBlock();
    StartedEmpty(v.S());
    CountIs(v.S());
    for n := 0 to 5
      invariant fresh(v) && v.disk == d && Started(v.S(), n) && ClearBits(v.bitmap) > 0
      modifies v, d
    {
      AddFile(v, n);
    }
    while ClearBits(v.bitmap) > 1
      invariant fresh(v) && v.disk == d && Started(v.S(), 5) && ClearBits(v.bitmap) > 0
      decreases ClearBits(v.bitmap)
      modifies v, d
    {
      ghost var s := v.S();
      StartedCreate(s, 5);
      StartedValid(s, 5);
      CreateThenDelete(v, [70]);
      StartedAgain(s, v.S(), 5);
    }
    AddFile(v, 5);
    StartedValid(v.S(), 6);
    DryIs(v.S());
  }
}
