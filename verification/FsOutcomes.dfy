/** When requests succeed, and what names stand for afterwards, in terms of listings, parent links and free blocks
    alone. */
module FsOutcomes {
  import opened Bytes
  import opened FsLayout
  import opened FsTree
  import opened FsVolume
  import opened FsState
  import opened FsOps
  import opened FsRemove
  import opened FsData
  import opened FsMove
  import opened FsRuns

  // ----- counting -----

  lemma {:induction false} ClearBitsCount(bits: seq<bool>)
    ensures ClearBits(bits) == |set b | 0 <= b < |bits| && !bits[b]|
  {
    if bits != [] {
      var n := |bits| - 1;
      ClearBitsCount(bits[..n]);
      var before := set b | 0 <= b < |bits[..n]| && !bits[..n][b];
      assert (set b | 0 <= b < |bits| && !bits[b]) == if bits[n] then before else before + {n};
    }
  }

  lemma {:induction false} LackingCounts(blocks: seq<nat>, n: nat)
    requires n <= |blocks|
    ensures Lacking(blocks, n) == |set k | 0 <= k < n && blocks[k] == 0|
  {
    if n > 0 {
      LackingCounts(blocks, n - 1);
      var before := set k | 0 <= k < n - 1 && blocks[k] == 0;
      assert (set k | 0 <= k < n && blocks[k] == 0) == if blocks[n - 1] == 0 then before + {n - 1} else before;
    }
  }

  /** One more entry fits when the last block has a slot left, or when fewer than 64 blocks are full and some block
      of the disk is free. */
  lemma SpaceWhen(count: nat, bitmap: seq<bool>)
    ensures Room(count, ClearBits(bitmap))
      <==> count % 7 != 0 || (count < 448 && exists b :: 0 <= b < |bitmap| && !bitmap[b])
  {
    ClearBitsZero(bitmap);
  }

  lemma ListedWhen(es: seq<Entry>, name: Name)
    ensures Lookup(es, name) == -1 <==> forall k :: 0 <= k < |es| ==> es[k].name != name
  {
  }

  // ----- when requests succeed -----

  /** A file can be created when nothing here has its name, an inode is unused and one more entry fits; a directory
      is left without its dots when the entry takes the last free block. */
  lemma CreatesWhen(s: State, name: Name)
    requires Usable(s)
    ensures CanCreate(s, name) <==>
      && (forall k :: 0 <= k < |HereEntries(s)| ==> HereEntries(s)[k].name != name)
      && (exists i :: 0 <= i < |Tree(s)| && !Tree(s)[i].used)
      && (|HereEntries(s)| % 7 != 0 || (|HereEntries(s)| < 448 && exists b :: 0 <= b < |s.bitmap| && !s.bitmap[b]))
    ensures RunsDry(s, name) <==>
      CanCreate(s, name)
        && |set b | 0 <= b < |s.bitmap| && !s.bitmap[b]| == if |HereEntries(s)| % 7 == 0 then 1 else 0
  {
    hide Usable, Tree, HereEntries, Room, Lookup;
    SpaceWhen(|HereEntries(s)|, s.bitmap);
    ListedWhen(HereEntries(s), name);
    ClearBitsCount(s.bitmap);
    UsableConsistent(s);
    UnusedWhen(s);
  }

  lemma UnusedWhen(s: State)
    requires Consistent(s)
    ensures !AllUsed(s) <==> exists i :: 0 <= i < |Tree(s)| && !Tree(s)[i].used
  {
    hide Consistent, Tree;
    forall i | 0 <= i < |s.inodes| ensures Tree(s)[i].used == s.inodes[i].isUsed {
      UsedIs(s, i);
    }
    if !AllUsed(s) {
      var i :| 0 <= i < |s.inodes| && !s.inodes[i].isUsed;
      assert !Tree(s)[i].used;
    }
  }

  /** A name can be changed when it is listed and the new one is not; the entry is lost when the others fill whole
      blocks and no block is free. */
  lemma RenamesWhen(s: State, oldName: Name, newName: Name)
    ensures MayRename(s, oldName, newName) <==>
      && (exists k :: 0 <= k < |HereEntries(s)| && HereEntries(s)[k].name == oldName)
      && (forall k :: 0 <= k < |HereEntries(s)| ==> HereEntries(s)[k].name != newName)
    ensures LosesEntry(s, oldName, newName) <==>
      MayRename(s, oldName, newName) && |HereEntries(s)| % 7 == 1
        && forall b :: 0 <= b < |s.bitmap| ==> s.bitmap[b]
  {
    hide HereEntries, Lookup;
    ListedWhen(HereEntries(s), oldName);
    ListedWhen(HereEntries(s), newName);
    ClearBitsZero(s.bitmap);
  }

  /** In a valid volume everything listed here but the two dots can be deleted. */
  lemma DeletesWhen(s: State, name: Name)
    requires Valid(s)
    ensures Victim(s, name) != -1 <==> exists k :: 2 <= k < |HereEntries(s)| && HereEntries(s)[k].name == name
    ensures forall k :: 2 <= k < |HereEntries(s)| && HereEntries(s)[k].name == name ==>
      Victim(s, name) == HereEntries(s)[k].inode
  {
    hide Usable, TreeInv, Tree, HereEntries, FindEntry;
    HereNames(s);
    var k := FindEntry(HereEntries(s), name);
    if k < |HereEntries(s)| && name != DOT && name != DOTDOT {
      NamedInode(s, name, k);
    }
  }

  /** The listing starts with the dots, and no name is in it twice. */
  lemma HereNames(s: State)
    requires Valid(s)
    ensures |HereEntries(s)| >= 2 && HereEntries(s)[0].name == DOT && HereEntries(s)[1].name == DOTDOT
    ensures DistinctNames(HereEntries(s))
  {
    assert GoodDirectory(Tree(s), s.currentDir);
  }

  /** In a valid volume the current directory can be changed to exactly the directories listed here, which the dots
      are. */
  lemma ChangesWhen(s: State, name: Name)
    requires Valid(s)
    ensures CdTarget(s, name) != -1 <==>
      exists k ::
        && 0 <= k < |HereEntries(s)| && HereEntries(s)[k].name == name
        && HereEntries(s)[k].inode < |Tree(s)| && Tree(s)[HereEntries(s)[k].inode].used
        && Tree(s)[HereEntries(s)[k].inode].isDir
    ensures forall k :: 0 <= k < |HereEntries(s)| && HereEntries(s)[k].name == name && CdTarget(s, name) != -1 ==>
      CdTarget(s, name) == HereEntries(s)[k].inode
  {
    hide Usable, TreeInv, Tree, HereEntries, CdTarget;
    HereNames(s);
    CdResolves(s, name);
    var k := FindEntry(HereEntries(s), name);
  }

  /** What is n levels above d. */
  function Above(t: seq<TNode>, d: nat, n: nat): nat {
    Ancestor(t, d, n)
  }

  /** In a valid volume an entry can be moved when it is no dot and the destination is another directory that does not
      lie below what is moved, has nothing of that name, and has room for one more. */
  lemma MovesWhen(s: State, name: Name, d: nat)
    requires Valid(s)
    ensures CanMove(s, name, d) <==>
      exists k ::
        && 2 <= k < |HereEntries(s)| && HereEntries(s)[k].name == name
        && d < |Tree(s)| && Tree(s)[d].used && Tree(s)[d].isDir && d != s.currentDir
        && (forall n: nat :: Above(Tree(s), d, n) != HereEntries(s)[k].inode)
        && (forall j :: 0 <= j < |Tree(s)[d].entries| ==> Tree(s)[d].entries[j].name != name)
        && (|Tree(s)[d].entries| % 7 != 0
          || (|Tree(s)[d].entries| < 448 && exists b :: 0 <= b < |s.bitmap| && !s.bitmap[b]))
  {
    hide Usable, TreeInv, Tree, HereEntries, FindEntry, CanGo, Room;
    if d < |Tree(s)| {
      SpaceWhen(|Tree(s)[d].entries|, s.bitmap);
    }
    HereNames(s);
    var k := FindEntry(HereEntries(s), name);
    if k < |HereEntries(s)| && name != DOT && name != DOTDOT {
      NamedInode(s, name, k);
      GoesWhen(s, HereEntries(s)[k].inode, name, d);
    } else {
      GoesNowhere(s, name, d);
    }
  }

  lemma GoesWhen(s: State, i: nat, name: Name, d: nat)
    requires Valid(s) && 0 < i < |s.inodes| && s.inodes[i].isUsed && name != DOT && name != DOTDOT
    ensures CanGo(s, i, name, d) <==>
      && d < |Tree(s)| && Tree(s)[d].used && Tree(s)[d].isDir && d != s.currentDir
      && (forall n: nat :: Above(Tree(s), d, n) != i)
      && (forall j :: 0 <= j < |Tree(s)[d].entries| ==> Tree(s)[d].entries[j].name != name)
  {
    hide Usable, TreeInv, Tree, Meets, Lookup, NotInside;
    if IsDirectory(Tree(s), d) {
      ListedWhen(Tree(s)[d].entries, name);
      TreeWalks(s, d, i);
      UsableConsistent(s);
      UsedIs(s, i);
      if s.inodes[i].kind != Directory {
        TreeOfValid(s);
        FileNotInside(Tree(s), d, i);
      }
      BesideIs(Tree(s), d, i);
    }
  }

  lemma BesideIs(t: seq<TNode>, d: nat, m: nat)
    ensures NotInside(t, d, m) <==> forall n: nat :: Above(t, d, n) != m
  {
    if forall n: nat :: Above(t, d, n) != m {
      forall n: nat ensures Ancestor(t, d, n) != m {
        assert Above(t, d, n) != m;
      }
    }
  }

  lemma GoesNowhere(s: State, name: Name, d: nat)
    requires name == DOT || name == DOTDOT || FindEntry(HereEntries(s), name) == |HereEntries(s)|
    ensures !CanMove(s, name, d)
  {
    hide Tree, HereEntries;
  }

  /** A write of up to 32768 bytes fits when there are free blocks for all that its file lacks. */
  lemma FitsWhen(s: State, i: nat, size: nat)
    requires Usable(s) && i < |s.inodes|
    ensures |s.inodes[i].blocks| == 64
    ensures Fits(s, i, size) <==>
      size <= 32768 && |set k | 0 <= k < (size + 511) / 512 && s.inodes[i].blocks[k] == 0|
        <= |set b | 0 <= b < |s.bitmap| && !s.bitmap[b]|
  {
    hide Usable, Lacking, ClearBits;
    FileImage(s, i, 0);
    ClearBitsCount(s.bitmap);
    if size <= 32768 {
      LackingCounts(s.inodes[i].blocks, (size + 511) / 512);
    }
  }

  // ----- what names stand for afterwards -----

  /** A created inode is what its name stands for in its directory, and no other name stands for anything else. */
  lemma CreatedNames(t: seq<TNode>, d: nat, i: nat, name: Name, isDir: bool, x: nat, n: Name)
    requires TreeInv(t) && IsDirectory(t, d) && i < |t| && !t[i].used && Lookup(t[d].entries, name) == -1
    requires x < |t| && t[x].used
    ensures var u := Created(t, d, i, name, isDir);
      && u[i] == TNode(true, isDir, d, if isDir then [Entry(i, [46]), Entry(d, [46, 46])] else [])
      && u[x] == t[x].(entries := u[x].entries)
      && Lookup(u[x].entries, n) == if x == d && n == name then i else Lookup(t[x].entries, n)
  {
    assert GoodDirectory(t, d);
    AppendLookup(t[d].entries, Entry(i, name), n);
  }

  /** A deleted name stands for nothing, its inode is free, and no other name changes. */
  lemma DeletedNames(t: seq<TNode>, d: nat, k: nat, x: nat, n: Name)
    requires TreeInv(t) && IsDirectory(t, d) && 2 <= k < |t[d].entries| && x < |t|
    requires t[d].entries[k].inode < |t| && Childless(t, t[d].entries[k].inode) && x != t[d].entries[k].inode
    ensures var u := Deleted(t, d, k);
      && !u[t[d].entries[k].inode].used && u[x] == t[x].(entries := u[x].entries)
      && Lookup(u[x].entries, n) == if x == d && n == t[d].entries[k].name then -1 else Lookup(t[x].entries, n)
  {
    DeletedUnused(t, d, k, d);
    assert GoodDirectory(t, d);
    RemoveAtLookup(t[d].entries, k, n);
  }

  /** The new name stands for what the old one did, and no other name changes. */
  lemma RenamedNames(t: seq<TNode>, d: nat, k: nat, name: Name, x: nat, n: Name)
    requires TreeInv(t) && IsDirectory(t, d) && 2 <= k < |t[d].entries| && x < |t|
    requires Lookup(RemoveAt(t[d].entries, k), name) == -1
    ensures var u := Renamed(t, d, k, name);
      && u[x] == t[x].(entries := u[x].entries)
      && Lookup(u[x].entries, n)
        == if x == d && n == name then t[d].entries[k].inode
           else if x == d && n == t[d].entries[k].name then -1
           else Lookup(t[x].entries, n)
  {
    assert GoodDirectory(t, d);
    var es := t[d].entries;
    RemoveAtLookup(es, k, n);
    AppendLookup(RemoveAt(es, k), Entry(es[k].inode, name), n);
  }

  /** A moved name stands for the same inode in its new directory and for nothing in the old one; a moved directory's
      parent and ".." are the new directory; no other name changes. */
  lemma MovedNames(t: seq<TNode>, s: nat, k: nat, d: nat, x: nat, n: Name)
    requires TreeInv(t) && MayMove(t, s, k, d) && x < |t| && t[x].used
    ensures var u, m, name := Moved(t, s, k, d), t[s].entries[k].inode, t[s].entries[k].name;
      && u[x] == t[x].(parent := if x == m then d else t[x].parent, entries := u[x].entries)
      && Lookup(u[x].entries, n)
        == if x == s && n == name then -1
           else if x == d && n == name then m
           else if x == m && t[m].isDir && n == [46, 46] then d
           else Lookup(t[x].entries, n)
  {
    MovedApart(t, s, k, d);
    assert GoodDirectory(t, d) && GoodDirectory(t, s) && GoodEntry(t, s, k);
    var m, e := t[s].entries[k].inode, t[s].entries[k];
    if x == d {
      AppendLookup(t[d].entries, e, n);
    } else if x == s {
      RemoveAtLookup(t[s].entries, k, n);
    } else if x == m && t[m].isDir {
      assert GoodDirectory(t, m);
      RepointedLookup(t[m].entries, d, n);
    }
  }

  lemma RepointedLookup(es: seq<Entry>, d: nat, n: Name)
    requires |es| >= 2 && DistinctNames(es) && es[1].name == DOTDOT
    ensures Lookup(es[1 := Entry(d, es[1].name)], n) == if n == DOTDOT then d else Lookup(es, n)
  {
    var r := es[1 := Entry(d, es[1].name)];
    LookupIs(r, 1);
    var j := FindEntry(es, n);
    if j < |es| {
      LookupIs(r, j);
    }
  }
}
