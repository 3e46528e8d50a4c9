/** Blocks from 4096 on come into use: files own distinct blocks, and there are too few below. */
module FsHigh {
  import opened Bytes
  import opened Options
  import opened FsLayout
  import opened FsTree
  import opened FsVolume
  import opened FsState
  import opened FsOps
  import opened FsRemove
  import opened FsData
  import opened FsFormat
  import opened FsMove
  import opened FsRuns
  import opened FsDry
  import opened FileSystem

  // ----- counting the blocks of full inodes -----

  ghost predicate FullINode(n: INode) {
    |n.blocks| == MAX_BLOCKS && forall k :: 0 <= k < MAX_BLOCKS ==> n.blocks[k] != 0
  }

  /** The blocks of inodes 1 to n and the first m of inode n + 1. */
  ghost function Held(inodes: seq<INode>, n: nat, m: nat): set<nat>
    decreases n, m
  {
    if m > 0 then
      Held(inodes, n, m - 1)
        + (if n + 1 < |inodes| && m <= |inodes[n + 1].blocks| then {inodes[n + 1].blocks[m - 1]} else {})
    else if n > 0 then Held(inodes, n - 1, 64)
    else {}
  }

  /** A block that comes later is another one. */
  lemma {:induction false} NotHeld(inodes: seq<INode>, bitmap: seq<bool>, n: nat, m: nat, i: nat, k: nat)
    requires AllocInv(inodes, bitmap) && m <= 64 && i < |inodes| && FullINode(inodes[i]) && k < MAX_BLOCKS
    requires i > n + 1 || (i == n + 1 && k >= m)
    ensures inodes[i].blocks[k] !in Held(inodes, n, m)
    decreases n, m
  {
    if m > 0 {
      NotHeld(inodes, bitmap, n, m - 1, i, k);
      assert GoodInode(inodes[n + 1], bitmap);
      assert SameOwner(inodes, i, k, n + 1, m - 1);
    } else if n > 0 {
      NotHeld(inodes, bitmap, n - 1, 64, i, k);
    }
  }

  lemma {:induction false} HeldCount(inodes: seq<INode>, bitmap: seq<bool>, n: nat, m: nat)
    requires AllocInv(inodes, bitmap) && n + 1 < |inodes| && m <= 64
    requires forall i :: 0 < i <= n ==> FullINode(inodes[i])
    requires m > 0 ==> FullINode(inodes[n + 1])
    ensures |Held(inodes, n, m)| == 64 * n + m
    decreases n, m
  {
    if m > 0 {
      HeldCount(inodes, bitmap, n, m - 1);
      NotHeld(inodes, bitmap, n, m - 1, n + 1, m - 1);
    } else if n > 0 {
      HeldCount(inodes, bitmap, n - 1, 64);
    }
  }

  lemma {:induction false} HeldBelow(inodes: seq<INode>, n: nat, m: nat)
    requires n + 1 < |inodes| && m <= 64 && forall i :: 0 < i <= n ==> FullINode(inodes[i])
    requires m > 0 ==> FullINode(inodes[n + 1])
    requires forall i, k :: 0 < i <= n + 1 && 0 <= k < MAX_BLOCKS && k < |inodes[i].blocks| ==>
      inodes[i].blocks[k] < 4096
    ensures Held(inodes, n, m) <= Below(4096) - {0}
    decreases n, m
  {
    if m > 0 {
      HeldBelow(inodes, n, m - 1);
    } else if n > 0 {
      HeldBelow(inodes, n - 1, 64);
    }
  }

  lemma {:induction false} BelowCount(n: nat)
    ensures |Below(n)| == n
  {
    if n > 0 {
      BelowCount(n - 1);
    }
  }

  lemma Fewer(a: set<nat>, b: set<nat>)
    requires a <= b
    ensures |a| <= |b|
  {
    assert b == a + (b - a);
  }

  /** Of 64 full inodes one owns a block from 4096 on. */
  lemma OneIsHigh(inodes: seq<INode>, bitmap: seq<bool>) returns (i: nat, k: nat)
    requires AllocInv(inodes, bitmap) && forall i :: 0 < i <= 64 ==> FullINode(inodes[i])
    ensures 0 < i <= 64 && k < MAX_BLOCKS && inodes[i].blocks[k] >= 4096
  {
    HeldCount(inodes, bitmap, 63, 64);
    BelowCount(4096);
    if Held(inodes, 63, 64) <= Below(4096) - {0} {
      Fewer(Held(inodes, 63, 64), Below(4096) - {0});
      assert false;
    }
    if forall i, k :: 0 < i <= 64 && 0 <= k < MAX_BLOCKS && k < |inodes[i].blocks| ==> inodes[i].blocks[k] < 4096 {
      HeldBelow(inodes, 63, 64);
      assert false;
    }
    i, k :| 0 < i <= 64 && 0 <= k < MAX_BLOCKS && k < |inodes[i].blocks| && inodes[i].blocks[k] >= 4096;
  }

  // ----- filling files -----

  ghost predicate FullFile(n: Node) {
    n.isUsed && n.kind == File && |n.image| == MAX_BLOCKS && forall k :: 0 <= k < MAX_BLOCKS ==> n.image[k].Some?
  }

  /** The root directory has n full files, and nothing else is used. */
  ghost predicate Filled(s: State, n: nat) {
    && Started(s, n) && n < MAX_FILES && ClearBits(s.bitmap) >= 200000 - 65 * n
    && forall j :: 0 < j <= n ==> FullFile(Nodes(s)[j])
  }

  /** The next file takes the next inode. */
  lemma NextInode(s: State, n: nat, i: nat)
    requires Filled(s, n) && n < 100 && FirstFree(s, i)
    ensures i == n + 1
  {
    hide Started, GoodListing, AllList, InodeCopy, BitmapCopy;
    StartedValid(s, n);
    FirstIsNext(s, n, i);
    RootUsed(s);
    forall j | 0 < j <= n ensures s.inodes[j].isUsed {
      assert FullFile(Nodes(s)[j]);
    }
  }

  lemma FilledCreate(s: State, n: nat, i: nat, name: Name, s1: State)
    requires Filled(s, n) && n < 100 && InodeCreated(s, i, name, File, s1)
    ensures i == n + 1 && |Nodes(s1)| == MAX_FILES && Nodes(s1)[i].isUsed && Nodes(s1)[i].kind == File
    ensures s1.inodes[i].kind == File && |s1.inodes| == MAX_FILES
    ensures forall j :: 0 < j <= n ==> FullFile(Nodes(s1)[j])
  {
    hide Started, AllList, InodeCopy, BitmapCopy, Tree, AllocInv, NodesOf;
    NextInode(s, n, i);
    UsableConsistent(s1);
    NodeIs(s1, i);
    forall j | 0 < j <= n ensures FullFile(Nodes(s1)[j]) {
      assert FullFile(Nodes(s)[j]);
    }
  }

  lemma FilledWrite(s1: State, n: nat, data: seq<u8>, s: State)
    requires WrittenBy(s1, n + 1, data, 32768, s) && n < 100 && Usable(s1)
    requires |Nodes(s1)| == MAX_FILES && Nodes(s1)[n + 1].isUsed && Nodes(s1)[n + 1].kind == File
    requires forall j :: 0 < j <= n ==> FullFile(Nodes(s1)[j])
    ensures |Nodes(s)| == MAX_FILES && forall j :: 0 < j <= n + 1 ==> FullFile(Nodes(s)[j])
    ensures ClearBits(s.bitmap) >= ClearBits(s1.bitmap) - 64
  {
    hide Usable, Tree, NodesOf, Chunk, Lacking, ClearBits;
    forall j | 0 < j <= n + 1 ensures FullFile(Nodes(s)[j]) {
      if j <= n {
        assert Nodes(s)[j] == Nodes(s1)[j];
      }
    }
  }

  lemma RoomForAll(s: State, i: nat)
    requires i < |s.inodes| && ClearBits(s.bitmap) >= 64
    ensures Fits(s, i, 32768)
  {
    assert BlocksFor(32768) == 64;
  }

  /** Creates the next file and writes as much to it as a file can hold. */
  method FillFile(v: Volume, n: nat)
    requires Filled(v.S(), n) && n < 64
    modifies v`inodes, v`bitmap, v`freeBlocksCount, v.disk
    ensures Filled(v.S(), n + 1)
  {
    hide Started, Usable, TreeInv, CanCreate, InodeCreated, HereEntries, Lookup, FullFile, WrittenBy, Nodes, Fits,
      NamesUsed, ClearBits, Tree;
    var name: Name := [(65 + n) as u8];
    var data: seq<u8> := seq(32768, _ => 0);
    ghost var s0 := v.S();
    StartedCreate(s0, n);
    StartedValid(s0, n);
    var r := v.CreateFile(name, File);
    ghost var s1 := v.S();
    CreatedFileValidIff(s0, r, name, s1);
    FreshFile(s0, r, name, s1);
    FilledCreate(s0, n, r, name, s1);
    StartedNext(s0, n, r, s1);
    ValidNamesUsed(s1, name);
    RoomForAll(s1, r);
    var ok, w := v.WriteFile(name, data);
    FilledWrite(s1, n, data, v.S());
    WrittenSame(s1, r, data, w, v.S());
    StartedAgain(s1, v.S(), n + 1);
  }

  lemma WrittenSame(s0: State, i: nat, data: seq<u8>, w: nat, s: State)
    requires WrittenBy(s0, i, data, w, s)
    ensures Tree(s) == Tree(s0) && s.currentDir == s0.currentDir
  {
  }

  // ----- a file that may not be deleted -----

  lemma FullOwns(s: State, i: nat)
    requires Usable(s) && i < |s.inodes| && FullFile(Nodes(s)[i])
    ensures FullINode(s.inodes[i])
  {
    hide Usable;
    forall k | 0 <= k < MAX_BLOCKS ensures |s.inodes[i].blocks| == MAX_BLOCKS && s.inodes[i].blocks[k] != 0 {
      FileImage(s, i, k);
    }
    FileImage(s, i, 0);
  }

  lemma FileNamed(s: State, n: nat, i: nat) returns (name: Name)
    requires Filled(s, n) && 0 < i <= n
    ensures Victim(s, name) == i
  {
    hide Usable, TreeInv, Started, Tree, Nodes, FullFile, ClearBits, Victim;
    StartedValid(s, n);
    UsableConsistent(s);
    HereTree(s);
    OnlyRoot(s, n);
    FileUsed(s, i);
    var k := ListedAtRoot(Tree(s), i);
    name := HereEntries(s)[k].name;
    VictimIs(s, k);
  }

  lemma ListedAtRoot(t: seq<TNode>, i: nat) returns (k: nat)
    requires TreeInv(t) && 0 < i < |t| && t[i].used && forall j :: 0 < j < MAX_FILES ==> !IsDirectory(t, j)
    ensures 2 <= k < |t[0].entries| && t[0].entries[k].inode == i
  {
    assert Listed(t, i);
    k :| 2 <= k < |t[0].entries| && t[0].entries[k].inode == i;
  }

  lemma VictimIs(s: State, k: nat)
    requires Valid(s) && 2 <= k < |HereEntries(s)| && HereEntries(s)[k].inode > 0
    ensures Victim(s, HereEntries(s)[k].name) == HereEntries(s)[k].inode
  {
    hide Usable, Tree;
    HereTree(s);
    assert GoodDirectory(Tree(s), s.currentDir);
    LookupIs(HereEntries(s), k);
  }

  lemma OnlyRoot(s: State, n: nat)
    requires Filled(s, n)
    ensures forall j :: 0 < j < MAX_FILES ==> !IsDirectory(Tree(s), j)
  {
    hide Usable, TreeInv, Nodes, TNodeOf;
    forall j | 0 < j < MAX_FILES ensures !IsDirectory(Tree(s), j) {
      if j <= n {
        FileUsed(s, j);
      }
    }
  }

  lemma FileUsed(s: State, i: nat)
    requires i < |s.inodes| && FullFile(Nodes(s)[i])
    ensures Tree(s)[i].used && !Tree(s)[i].isDir
  {
    assert Tree(s)[i] == TNodeOf(Nodes(s)[i]);
  }

  /** From a formatted disk, by creating files and writing to them: a valid volume with a file whose blocks
      are not all below 4096, so that freeing them would clear the wrong bits. */
  method Overflow(d: array<Block>) returns (v: Volume, ghost name: Name)
    requires d.Length == TOTAL_BLOCKS
    modifies d
    ensures fresh(v) && v.disk == d && Valid(v.S())
    ensures 0 <= Victim(v.S(), name) < |v.inodes|
      && exists k :: 0 <= k < |v.inodes[Victim(v.S(), name)].blocks|
           && v.inodes[Victim(v.S(), name)].blocks[k] >= 4096
  {
    hide Started, Usable, TreeInv, Victim, Tree, EmptyTree, FullFile, ClearBits, AllocInv, Nodes;
    v := new Volume(d);
    v.CreateSuperBlock();
    StartedEmpty(v.S());
    CountIs(v.S());
    for n := 0 to 64
      invariant fresh(v) && v.disk == d && Filled(v.S(), n)
      modifies v, d
    {
      FillFile(v, n);
    }
    ghost var s := v.S();
    StartedValid(s, 64);
    UsableConsistent(s);
    forall i | 0 < i <= 64 ensures FullINode(s.inodes[i]) {
      FullOwns(s, i);
    }
    ghost var i, k := OneIsHigh(s.inodes, s.bitmap);
    name := FileNamed(s, 64, i);
  }
}
