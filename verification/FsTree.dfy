/** The directory tree that the inode table and the directory blocks describe together. */
module FsTree {
  import opened FsLayout

  /** An inode with its directory listing; files and free inodes have no entries. */
  datatype TNode = TNode(used: bool, isDir: bool, parent: nat, entries: seq<Entry>)

  /** Every free inode looks like this in the tree. */
  const FREE_NODE: TNode := TNode(false, false, 0, [])

  // ----- listings -----

  ghost predicate DistinctNames(es: seq<Entry>) {
    forall k, l :: 0 <= k < l < |es| ==> es[k].name != es[l].name
  }

  /** The position of the first entry with this name, or the length when there is none. */
  function FindEntry(es: seq<Entry>, name: Name): (k: nat)
    ensures k <= |es|
    ensures k < |es| ==> es[k].name == name
    ensures forall j :: 0 <= j < k ==> es[j].name != name
  {
    if es == [] || es[0].name == name then 0 else FindEntry(es[1..], name) + 1
  }

  /** Removal fills the hole with the last entry. */
  function RemoveAt(es: seq<Entry>, k: nat): (r: seq<Entry>)
    requires k < |es|
    ensures |r| == |es| - 1
  {
    es[k := es[|es| - 1]][..|es| - 1]
  }

  /** What looking up a name gives. */
  function Lookup(es: seq<Entry>, name: Name): (i: int)
    ensures i >= -1
  {
    var k := FindEntry(es, name);
    if k < |es| then es[k].inode else -1
  }

  lemma LookupIs(es: seq<Entry>, k: nat)
    requires DistinctNames(es) && k < |es|
    ensures FindEntry(es, es[k].name) == k && Lookup(es, es[k].name) == es[k].inode
  {
  }

  /** Removing an entry forgets its name and no other. */
  lemma RemoveAtLookup(es: seq<Entry>, k: nat, name: Name)
    requires DistinctNames(es) && k < |es|
    ensures DistinctNames(RemoveAt(es, k))
    ensures Lookup(RemoveAt(es, k), name) == if name == es[k].name then -1 else Lookup(es, name)
  {
    var r := RemoveAt(es, k);
    var last := |es| - 1;
    var j := FindEntry(es, name);
    if name != es[k].name && j < |es| {
      LookupIs(r, if j == last then k else j);
    }
  }

  /** Appending an entry makes its name resolve and changes no other. */
  lemma AppendLookup(es: seq<Entry>, e: Entry, name: Name)
    requires DistinctNames(es) && FindEntry(es, e.name) == |es|
    ensures DistinctNames(es + [e])
    ensures Lookup(es + [e], name) == if name == e.name then e.inode else Lookup(es, name)
  {
    var r := es + [e];
    var j := FindEntry(es, name);
    if j < |es| {
      LookupIs(r, j);
    } else if name == e.name {
      LookupIs(r, |es|);
    }
  }

  // ----- the tree -----

  function Ancestor(t: seq<TNode>, i: nat, n: nat): nat
    decreases n
  {
    if n == 0 || i >= |t| then i else Ancestor(t, t[i].parent, n - 1)
  }

  ghost predicate Rooted(t: seq<TNode>, i: nat) {
    exists n: nat :: Ancestor(t, i, n) == 0
  }

  ghost predicate IsDirectory(t: seq<TNode>, d: nat) {
    d < |t| && t[d].used && t[d].isDir
  }

  /** An ordinary entry k of directory d names a used inode whose parent link points back. */
  ghost predicate GoodEntry(t: seq<TNode>, d: nat, k: nat)
    requires d < |t| && k < |t[d].entries|
  {
    var i := t[d].entries[k].inode;
    0 < i < |t| && t[i].used && t[i].parent == d
  }

  ghost predicate GoodDirectory(t: seq<TNode>, d: nat)
    requires d < |t|
  {
    var es := t[d].entries;
    && |es| >= 2
    && es[0] == Entry(d, DOT)
    && es[1] == Entry(t[d].parent, DOTDOT)
    && DistinctNames(es)
    && (forall k :: 2 <= k < |es| ==> GoodEntry(t, d, k))
    && (forall k, l :: 2 <= k < l < |es| ==> es[k].inode != es[l].inode)
  }

  /** The parent of i lists i. */
  ghost predicate Listed(t: seq<TNode>, i: nat)
    requires i < |t|
  {
    && IsDirectory(t, t[i].parent)
    && exists k :: 2 <= k < |t[t[i].parent].entries| && t[t[i].parent].entries[k].inode == i
  }

  /** The used inodes form a tree rooted at inode 0, and listings, parent links and ".." agree. */
  ghost predicate TreeInv(t: seq<TNode>) {
    && |t| == MAX_FILES
    && IsDirectory(t, 0) && t[0].parent == 0
    && (forall d :: 0 <= d < |t| && IsDirectory(t, d) ==> GoodDirectory(t, d))
    && (forall i :: 0 < i < |t| && t[i].used ==> Listed(t, i))
    && (forall i :: 0 <= i < |t| && t[i].used ==> Rooted(t, i))
  }

  /** Every inode other than the root is named exactly once in the whole tree. */
  lemma NamedOnce(t: seq<TNode>, d: nat, k: nat, e: nat, l: nat)
    requires TreeInv(t) && IsDirectory(t, d) && IsDirectory(t, e)
    requires 2 <= k < |t[d].entries| && 2 <= l < |t[e].entries|
    requires t[d].entries[k].inode == t[e].entries[l].inode
    ensures d == e && k == l
  {
    assert GoodDirectory(t, d) && GoodDirectory(t, e);
    assert GoodEntry(t, d, k) && GoodEntry(t, e, l);
  }

  /** No inode is its own proper ancestor. */
  lemma NoCycle(t: seq<TNode>, i: nat, n: nat)
    requires TreeInv(t) && 0 < i < |t| && t[i].used && n > 0
    ensures Ancestor(t, i, n) != i
  {
    if Ancestor(t, i, n) == i {
      var m: nat :| Ancestor(t, i, m) == 0;
      CycleRepeats(t, i, n, m);
      RootStays(t, n * (m + 1) - m);
      AncestorAdd(t, i, m, n * (m + 1) - m);
      assert false;
    }
  }

  lemma {:induction false} AncestorAdd(t: seq<TNode>, i: nat, m: nat, n: nat)
    ensures Ancestor(t, i, m + n) == Ancestor(t, Ancestor(t, i, m), n)
    decreases m
  {
    if m > 0 && i < |t| {
      AncestorAdd(t, t[i].parent, m - 1, n);
    }
  }

  lemma {:induction false} RootStays(t: seq<TNode>, n: nat)
    requires |t| > 0 && t[0].parent == 0
    ensures Ancestor(t, 0, n) == 0
  {
    if n > 0 {
      RootStays(t, n - 1);
    }
  }

  lemma {:induction false} CycleRepeats(t: seq<TNode>, i: nat, n: nat, m: nat)
    requires Ancestor(t, i, n) == i
    ensures n * (m + 1) >= 0 && Ancestor(t, i, n * (m + 1)) == i
    decreases m
  {
    if m > 0 {
      CycleRepeats(t, i, n, m - 1);
      AncestorAdd(t, i, n, n * m);
      assert n + n * m == n * (m + 1);
    }
  }

  // ----- steps that keep the tree -----

  /** The chain of ancestors only depends on the parent links it passes through. */
  lemma {:induction false} SameAncestors(t: seq<TNode>, u: seq<TNode>, i: nat, n: nat, m: nat)
    requires TreeInv(t) && |u| == |t| && i < |t| && t[i].used
    requires forall j :: 0 <= j < |t| && t[j].used && j != m ==> u[j].parent == t[j].parent
    requires forall k: nat :: k <= n ==> Ancestor(t, i, k) != m
    ensures Ancestor(u, i, n) == Ancestor(t, i, n)
    decreases n
  {
    if n > 0 {
      assert Ancestor(t, i, 0) == i;
      assert i == 0 || Listed(t, i);
      forall k: nat | k <= n - 1 ensures Ancestor(t, t[i].parent, k) != m {
        assert Ancestor(t, i, k + 1) == Ancestor(t, t[i].parent, k);
      }
      SameAncestors(t, u, t[i].parent, n - 1, m);
    }
  }

  /** Used inodes keep their root when no used inode changes its parent. */
  lemma KeepsRoots(t: seq<TNode>, u: seq<TNode>, i: nat)
    requires TreeInv(t) && |u| == |t| && i < |t| && t[i].used
    requires forall j :: 0 <= j < |t| && t[j].used ==> u[j].parent == t[j].parent
    ensures Rooted(u, i)
  {
    var n: nat :| Ancestor(t, i, n) == 0;
    forall k: nat ensures Ancestor(t, i, k) != |t| {
      AncestorInside(t, i, k);
    }
    SameAncestors(t, u, i, n, |t|);
  }

  lemma {:induction false} AncestorInside(t: seq<TNode>, i: nat, n: nat)
    requires TreeInv(t) && i < |t| && t[i].used
    ensures Ancestor(t, i, n) < |t| && t[Ancestor(t, i, n)].used
    decreases n
  {
    if n > 0 {
      assert i == 0 || Listed(t, i);
      AncestorInside(t, t[i].parent, n - 1);
    }
  }

  /** A free inode i becomes a child of directory d; a new directory starts with its two dots. */
  function Created(t: seq<TNode>, d: nat, i: nat, name: Name, isDir: bool): seq<TNode>
    requires d < |t| && i < |t|
  {
    var es := if isDir then [Entry(i, DOT), Entry(d, DOTDOT)] else [];
    t[i := TNode(true, isDir, d, es)][d := t[d].(entries := t[d].entries + [Entry(i, name)])]
  }

  /** What creating leaves before a new directory gets its dots; for a file it is the whole change. */
  function BareCreated(t: seq<TNode>, d: nat, i: nat, name: Name, isDir: bool): seq<TNode>
    requires d < |t| && i < |t|
  {
    t[i := TNode(true, isDir, d, [])][d := t[d].(entries := t[d].entries + [Entry(i, name)])]
  }

  lemma DotsComplete(t: seq<TNode>, d: nat, i: nat, name: Name)
    requires d < |t| && i < |t| && d != i
    ensures BareCreated(t, d, i, name, true)[i := TNode(true, true, d, [Entry(i, DOT), Entry(d, DOTDOT)])]
      == Created(t, d, i, name, true)
  {
  }

  /** A directory without its dots breaks the tree. */
  lemma BareDirectoryBreaksTree(t: seq<TNode>, d: nat, i: nat, name: Name)
    requires d < |t| && i < |t| && d != i
    ensures !TreeInv(BareCreated(t, d, i, name, true))
  {
    var u := BareCreated(t, d, i, name, true);
    assert IsDirectory(u, i) && u[i].entries == [];
    assert !GoodDirectory(u, i);
  }

  lemma CreatedDirectories(t: seq<TNode>, d: nat, i: nat, name: Name, isDir: bool, x: nat)
    requires TreeInv(t) && IsDirectory(t, d) && i < |t| && !t[i].used
    requires FindEntry(t[d].entries, name) == |t[d].entries|
    requires IsDirectory(Created(t, d, i, name, isDir), x)
    ensures GoodDirectory(Created(t, d, i, name, isDir), x)
  {
    var u := Created(t, d, i, name, isDir);
    var es := t[d].entries;
    assert GoodDirectory(t, d);
    if x != i {
      assert GoodDirectory(t, x);
      forall k | 2 <= k < |u[x].entries| ensures GoodEntry(u, x, k) {
        if k < |t[x].entries| {
          assert GoodEntry(t, x, k);
        }
      }
      if x == d {
        AppendLookup(es, Entry(i, name), name);
        forall k | 2 <= k < |es| ensures es[k].inode != i {
          assert GoodEntry(t, d, k);
        }
      }
    }
  }

  lemma CreatedLinks(t: seq<TNode>, d: nat, i: nat, name: Name, isDir: bool, x: nat)
    requires TreeInv(t) && IsDirectory(t, d) && i < |t| && !t[i].used
    requires x < |t| && (t[x].used || x == i)
    ensures x > 0 ==> Listed(Created(t, d, i, name, isDir), x)
    ensures Rooted(Created(t, d, i, name, isDir), x)
  {
    var u := Created(t, d, i, name, isDir);
    if x == i {
      assert u[d].entries[|t[d].entries|].inode == i;
      KeepsRoots(t, u, d);
      var n: nat :| Ancestor(u, d, n) == 0;
      assert Ancestor(u, i, n + 1) == 0;
    } else {
      KeepsRoots(t, u, x);
      if x > 0 {
        assert Listed(t, x);
        var p := t[x].parent;
        assert GoodDirectory(t, d);
        var k :| 2 <= k < |t[p].entries| && t[p].entries[k].inode == x;
        assert u[p].entries[k].inode == x;
      }
    }
  }

  lemma CreatedKeepsTree(t: seq<TNode>, d: nat, i: nat, name: Name, isDir: bool)
    requires TreeInv(t) && IsDirectory(t, d) && i < |t| && !t[i].used
    requires FindEntry(t[d].entries, name) == |t[d].entries|
    ensures TreeInv(Created(t, d, i, name, isDir))
  {
    var u := Created(t, d, i, name, isDir);
    forall x | 0 <= x < |u| && IsDirectory(u, x) ensures GoodDirectory(u, x) {
      CreatedDirectories(t, d, i, name, isDir, x);
    }
    forall x | 0 <= x < |u| && u[x].used ensures Rooted(u, x) && (x > 0 ==> Listed(u, x)) {
      CreatedLinks(t, d, i, name, isDir, x);
    }
  }

  /** A second entry with the same name breaks it. */
  lemma CreatedKeepsTreeIff(t: seq<TNode>, d: nat, i: nat, name: Name, isDir: bool)
    requires TreeInv(t) && IsDirectory(t, d) && i < |t| && !t[i].used
    ensures TreeInv(Created(t, d, i, name, isDir)) <==> Lookup(t[d].entries, name) == -1
  {
    var u, es := Created(t, d, i, name, isDir), t[d].entries;
    var k := FindEntry(es, name);
    if k == |es| {
      CreatedKeepsTree(t, d, i, name, isDir);
    } else {
      assert u[d].entries[k].name == u[d].entries[|es|].name;
      assert !GoodDirectory(u, d);
    }
  }

  /** Entry k of directory d is dropped and its inode freed. */
  function Deleted(t: seq<TNode>, d: nat, k: nat): seq<TNode>
    requires d < |t| && k < |t[d].entries| && t[d].entries[k].inode < |t|
  {
    var i := t[d].entries[k].inode;
    t[i := FREE_NODE][d := t[d].(entries := RemoveAt(t[d].entries, k))]
  }

  /** Only the two dots are left in an inode that may be deleted. */
  ghost predicate Childless(t: seq<TNode>, i: nat)
    requires i < |t|
  {
    t[i].isDir ==> |t[i].entries| <= 2
  }

  /** Nothing that stays in use was listed in, or hung below, the deleted inode. */
  lemma DeletedUnused(t: seq<TNode>, d: nat, k: nat, x: nat)
    requires TreeInv(t) && IsDirectory(t, d) && 2 <= k < |t[d].entries|
    requires t[d].entries[k].inode < |t| && Childless(t, t[d].entries[k].inode)
    requires x < |t| && t[x].used
    ensures d != t[d].entries[k].inode && t[d].entries[k].inode != 0
    ensures x > 0 ==> t[x].parent != t[d].entries[k].inode
  {
    var i := t[d].entries[k].inode;
    assert GoodDirectory(t, d) && GoodEntry(t, d, k);
    NoCycle(t, i, 1);
    assert Ancestor(t, i, 1) == Ancestor(t, d, 0) == d;
    if x > 0 {
      assert Listed(t, x);
      assert IsDirectory(t, i) ==> GoodDirectory(t, i);
    }
  }

  lemma DeletedDirectories(t: seq<TNode>, d: nat, k: nat, x: nat)
    requires TreeInv(t) && IsDirectory(t, d) && 2 <= k < |t[d].entries|
    requires t[d].entries[k].inode < |t| && Childless(t, t[d].entries[k].inode)
    requires IsDirectory(Deleted(t, d, k), x)
    ensures GoodDirectory(Deleted(t, d, k), x)
  {
    var u := Deleted(t, d, k);
    var es := t[d].entries;
    DeletedUnused(t, d, k, d);
    assert GoodDirectory(t, x) && GoodDirectory(t, d);
    forall j | 2 <= j < |u[x].entries| ensures GoodEntry(u, x, j) {
      var j' := if x == d && j == k then |es| - 1 else j;
      assert GoodEntry(t, x, j');
      assert u[x].entries[j] == t[x].entries[j'];
      if t[x].entries[j'].inode == es[k].inode {
        NamedOnce(t, x, j', d, k);
        assert false;
      }
    }
    if x == d {
      RemoveAtLookup(es, k, es[k].name);
    }
  }

  lemma DeletedLinks(t: seq<TNode>, d: nat, k: nat, x: nat)
    requires TreeInv(t) && IsDirectory(t, d) && 2 <= k < |t[d].entries|
    requires t[d].entries[k].inode < |t| && Childless(t, t[d].entries[k].inode)
    requires x < |t| && t[x].used && x != t[d].entries[k].inode
    ensures x > 0 ==> Listed(Deleted(t, d, k), x)
    ensures Rooted(Deleted(t, d, k), x)
  {
    var u := Deleted(t, d, k);
    var i := t[d].entries[k].inode;
    DeletedUnused(t, d, k, x);
    DeletedUnused(t, d, k, d);
    if x > 0 {
      assert Listed(t, x);
      var p := t[x].parent;
      var j :| 2 <= j < |t[p].entries| && t[p].entries[j].inode == x;
      var j' := if p == d && j == |t[d].entries| - 1 then k else j;
      assert u[p].entries[j'].inode == x;
    }
    AvoidsDeleted(t, d, k, x);
  }

  lemma AvoidsDeleted(t: seq<TNode>, d: nat, k: nat, x: nat)
    requires TreeInv(t) && IsDirectory(t, d) && 2 <= k < |t[d].entries|
    requires t[d].entries[k].inode < |t| && Childless(t, t[d].entries[k].inode)
    requires x < |t| && t[x].used && x != t[d].entries[k].inode
    ensures Rooted(Deleted(t, d, k), x)
  {
    var i := t[d].entries[k].inode;
    var n: nat :| Ancestor(t, x, n) == 0;
    forall m: nat | m <= n ensures Ancestor(t, x, m) != i {
      StaysBeside(t, d, k, x, m);
    }
    SameAncestors(t, Deleted(t, d, k), x, n, i);
  }

  lemma {:induction false} StaysBeside(t: seq<TNode>, d: nat, k: nat, x: nat, n: nat)
    requires TreeInv(t) && IsDirectory(t, d) && 2 <= k < |t[d].entries|
    requires t[d].entries[k].inode < |t| && Childless(t, t[d].entries[k].inode)
    requires x < |t| && t[x].used && x != t[d].entries[k].inode
    ensures Ancestor(t, x, n) != t[d].entries[k].inode
    decreases n
  {
    if n > 0 {
      DeletedUnused(t, d, k, x);
      assert x == 0 || Listed(t, x);
      StaysBeside(t, d, k, t[x].parent, n - 1);
    }
  }

  lemma DeletedKeepsTree(t: seq<TNode>, d: nat, k: nat)
    requires TreeInv(t) && IsDirectory(t, d) && 2 <= k < |t[d].entries|
    requires t[d].entries[k].inode < |t| && Childless(t, t[d].entries[k].inode)
    ensures TreeInv(Deleted(t, d, k))
  {
    var u := Deleted(t, d, k);
    DeletedUnused(t, d, k, d);
    forall x | 0 <= x < |u| && IsDirectory(u, x) ensures GoodDirectory(u, x) {
      DeletedDirectories(t, d, k, x);
    }
    forall x | 0 <= x < |u| && u[x].used ensures Rooted(u, x) && (x > 0 ==> Listed(u, x)) {
      DeletedLinks(t, d, k, x);
    }
  }

  /** Deleting keeps the tree exactly when a deleted directory has nothing but its dots. */
  lemma DeletedKeepsTreeIff(t: seq<TNode>, d: nat, k: nat)
    requires TreeInv(t) && IsDirectory(t, d) && 2 <= k < |t[d].entries| && t[d].entries[k].inode < |t|
    ensures TreeInv(Deleted(t, d, k)) <==> Childless(t, t[d].entries[k].inode)
  {
    var i := t[d].entries[k].inode;
    if Childless(t, i) {
      DeletedKeepsTree(t, d, k);
    } else {
      var u := Deleted(t, d, k);
      assert GoodDirectory(t, d) && GoodEntry(t, d, k) && GoodDirectory(t, i) && GoodEntry(t, i, 2);
      var c := t[i].entries[2].inode;
      NoCycle(t, c, 1);
      assert Ancestor(t, c, 1) == Ancestor(t, i, 0) == i;
      NoCycle(t, i, 1);
      assert Ancestor(t, i, 1) == Ancestor(t, d, 0) == d;
      assert !u[i].used && u[c].used && u[c].parent == i;
      assert !Listed(u, c);
    }
  }

  /** Entry k of directory d is dropped and the same inode listed again under a new name. */
  function Renamed(t: seq<TNode>, d: nat, k: nat, name: Name): seq<TNode>
    requires d < |t| && k < |t[d].entries|
  {
    t[d := t[d].(entries := RemoveAt(t[d].entries, k) + [Entry(t[d].entries[k].inode, name)])]
  }

  lemma RenamedDirectories(t: seq<TNode>, d: nat, k: nat, name: Name, x: nat)
    requires TreeInv(t) && IsDirectory(t, d) && 2 <= k < |t[d].entries|
    requires Lookup(RemoveAt(t[d].entries, k), name) == -1
    requires IsDirectory(t, x)
    ensures GoodDirectory(Renamed(t, d, k, name), x)
  {
    var u := Renamed(t, d, k, name);
    var es := t[d].entries;
    var last := |es| - 1;
    assert GoodDirectory(t, x);
    if x == d {
      forall j | 2 <= j < |u[d].entries| ensures GoodEntry(u, d, j) {
        var j' := if j == last then k else if j == k then last else j;
        assert GoodEntry(t, d, j');
        assert u[d].entries[j].inode == es[j'].inode;
      }
      RemoveAtLookup(es, k, name);
      AppendLookup(RemoveAt(es, k), Entry(es[k].inode, name), name);
    } else {
      forall j | 2 <= j < |u[x].entries| ensures GoodEntry(u, x, j) {
        assert GoodEntry(t, x, j);
      }
    }
  }

  lemma RenamedKeepsTree(t: seq<TNode>, d: nat, k: nat, name: Name)
    requires TreeInv(t) && IsDirectory(t, d) && 2 <= k < |t[d].entries|
    requires Lookup(RemoveAt(t[d].entries, k), name) == -1
    ensures TreeInv(Renamed(t, d, k, name))
  {
    var u := Renamed(t, d, k, name);
    var last := |t[d].entries| - 1;
    forall x | 0 <= x < |u| && IsDirectory(u, x) ensures GoodDirectory(u, x) {
      RenamedDirectories(t, d, k, name, x);
    }
    RenamedDirectories(t, d, k, name, d);
    RenamedDirectories(t, d, k, name, 0);
    forall x | 0 < x < |u| && u[x].used ensures Listed(u, x) {
      assert Listed(t, x);
      var p := t[x].parent;
      var j :| 2 <= j < |t[p].entries| && t[p].entries[j].inode == x;
      var j' := if p == d && j == k then last else if p == d && j == last then k else j;
      assert u[p].entries[j'].inode == x;
    }
    forall x | 0 <= x < |u| && u[x].used ensures Rooted(u, x) {
      KeepsRoots(t, u, x);
    }
  }

  /** A new name keeps the tree exactly when no other entry has it. */
  lemma RenamedKeepsTreeIff(t: seq<TNode>, d: nat, k: nat, name: Name)
    requires TreeInv(t) && IsDirectory(t, d) && 2 <= k < |t[d].entries|
    ensures TreeInv(Renamed(t, d, k, name)) <==> Lookup(RemoveAt(t[d].entries, k), name) == -1
  {
    var u, es := Renamed(t, d, k, name), RemoveAt(t[d].entries, k);
    var j := FindEntry(es, name);
    if j == |es| {
      RenamedKeepsTree(t, d, k, name);
    } else {
      assert u[d].entries[j].name == u[d].entries[|es|].name;
      assert !GoodDirectory(u, d);
    }
  }

  /** Entry k of directory s goes to directory d; a moved directory gets a new parent link and "..". */
  function Moved(t: seq<TNode>, s: nat, k: nat, d: nat): seq<TNode>
    requires s < |t| && d < |t| && k < |t[s].entries| && t[s].entries[k].inode < |t|
    requires |t[t[s].entries[k].inode].entries| != 1
  {
    var e := t[s].entries[k];
    var m := t[e.inode];
    var es := if |m.entries| >= 2 then m.entries[1 := Entry(d, m.entries[1].name)] else m.entries;
    t[d := t[d].(entries := t[d].entries + [e])]
     [s := t[s].(entries := RemoveAt(t[s].entries, k))]
     [e.inode := m.(parent := d, entries := es)]
  }

  /** Where the ancestor walk may start so that a move closes no cycle. */
  ghost predicate NotInside(t: seq<TNode>, d: nat, m: nat) {
    forall n: nat :: Ancestor(t, d, n) != m
  }

  lemma {:induction false} MovedRooted(t: seq<TNode>, u: seq<TNode>, m: nat, d: nat, i: nat, n: nat)
    requires TreeInv(t) && |u| == |t| && i < |t| && t[i].used && IsDirectory(t, d)
    requires 0 < m < |t| && u[m].parent == d && NotInside(t, d, m)
    requires forall j :: 0 <= j < |t| && t[j].used && j != m ==> u[j].parent == t[j].parent
    requires Ancestor(t, i, n) == 0
    ensures Rooted(u, i)
    decreases n
  {
    if i == m {
      var k: nat :| Ancestor(t, d, k) == 0;
      SameAncestors(t, u, d, k, m);
      assert Ancestor(u, m, k + 1) == 0;
    } else if n > 0 {
      assert i == 0 || Listed(t, i);
      MovedRooted(t, u, m, d, t[i].parent, n - 1);
      var k: nat :| Ancestor(u, t[i].parent, k) == 0;
      assert Ancestor(u, i, k + 1) == 0;
    } else {
      assert Ancestor(u, i, 0) == 0;
    }
  }

  lemma MovedEntry(t: seq<TNode>, s: nat, k: nat, d: nat, x: nat, j: nat)
    requires TreeInv(t) && MayMove(t, s, k, d)
    requires IsDirectory(t, x) && 2 <= j < |Moved(t, s, k, d)[x].entries|
    ensures GoodEntry(Moved(t, s, k, d), x, j)
  {
    var u := Moved(t, s, k, d);
    MovedApart(t, s, k, d);
    assert GoodDirectory(t, x) && GoodDirectory(t, s) && GoodEntry(t, s, k);
    if x == d && j == |t[d].entries| {
      assert u[x].entries[j] == t[s].entries[k];
    } else {
      var j' := if x == s && j == k then |t[s].entries| - 1 else j;
      assert GoodEntry(t, x, j');
      assert u[x].entries[j] == t[x].entries[j'];
      if t[x].entries[j'].inode == t[s].entries[k].inode {
        NamedOnce(t, x, j', s, k);
        assert false;
      }
    }
  }

  /** What a move needs: the entry is not a dot, its target is not above the destination, and the
      destination has no entry of that name. */
  ghost predicate MayMove(t: seq<TNode>, s: nat, k: nat, d: nat) {
    && IsDirectory(t, s) && IsDirectory(t, d) && s != d && 2 <= k < |t[s].entries|
    && var e := t[s].entries[k];
      && e.inode < |t| && NotInside(t, d, e.inode)
      && |t[e.inode].entries| != 1 && (!t[e.inode].isDir ==> t[e.inode].entries == [])
      && FindEntry(t[d].entries, e.name) == |t[d].entries|
  }

  lemma MovedApart(t: seq<TNode>, s: nat, k: nat, d: nat)
    requires TreeInv(t) && MayMove(t, s, k, d)
    ensures t[s].entries[k].inode != s && t[s].entries[k].inode != d && t[s].entries[k].inode != 0
  {
    var m := t[s].entries[k].inode;
    assert GoodDirectory(t, s) && GoodEntry(t, s, k);
    assert Ancestor(t, d, 0) == d != m;
    NoCycle(t, m, 1);
    assert Ancestor(t, m, 1) == Ancestor(t, s, 0) == s;
  }

  /** The destination gains one entry, under a name and an inode it did not list. */
  lemma MovedDestination(t: seq<TNode>, s: nat, k: nat, d: nat)
    requires TreeInv(t) && MayMove(t, s, k, d)
    ensures GoodDirectory(Moved(t, s, k, d), d)
  {
    var u := Moved(t, s, k, d);
    var e := t[s].entries[k];
    MovedApart(t, s, k, d);
    assert GoodDirectory(t, d) && GoodDirectory(t, s) && GoodEntry(t, s, k);
    assert u[d].entries == t[d].entries + [e];
    AppendLookup(t[d].entries, e, e.name);
    forall j | 2 <= j < |t[d].entries| ensures t[d].entries[j].inode != e.inode {
      assert GoodEntry(t, d, j);
    }
    forall j | 2 <= j < |u[d].entries| ensures GoodEntry(u, d, j) {
      MovedEntry(t, s, k, d, d, j);
    }
  }

  lemma MovedSource(t: seq<TNode>, s: nat, k: nat, d: nat)
    requires TreeInv(t) && MayMove(t, s, k, d)
    ensures GoodDirectory(Moved(t, s, k, d), s)
  {
    var u := Moved(t, s, k, d);
    var e := t[s].entries[k];
    MovedApart(t, s, k, d);
    assert GoodDirectory(t, s);
    assert u[s].entries == RemoveAt(t[s].entries, k);
    RemoveAtLookup(t[s].entries, k, e.name);
    forall j | 2 <= j < |u[s].entries| ensures GoodEntry(u, s, j) {
      MovedEntry(t, s, k, d, s, j);
    }
  }

  lemma MovedDirectories(t: seq<TNode>, s: nat, k: nat, d: nat, x: nat)
    requires TreeInv(t) && MayMove(t, s, k, d) && IsDirectory(t, x)
    ensures GoodDirectory(Moved(t, s, k, d), x)
  {
    if x == d {
      MovedDestination(t, s, k, d);
    } else if x == s {
      MovedSource(t, s, k, d);
    } else {
      var u := Moved(t, s, k, d);
      assert GoodDirectory(t, x);
      forall j | 2 <= j < |u[x].entries| ensures GoodEntry(u, x, j) {
        MovedEntry(t, s, k, d, x, j);
      }
    }
  }

  lemma MovedRoots(t: seq<TNode>, s: nat, k: nat, d: nat, x: nat)
    requires TreeInv(t) && MayMove(t, s, k, d) && x < |t| && t[x].used
    ensures Rooted(Moved(t, s, k, d), x)
  {
    MovedApart(t, s, k, d);
    var n: nat :| Ancestor(t, x, n) == 0;
    MovedRooted(t, Moved(t, s, k, d), t[s].entries[k].inode, d, x, n);
  }

  lemma MovedKeepsTree(t: seq<TNode>, s: nat, k: nat, d: nat)
    requires TreeInv(t) && MayMove(t, s, k, d)
    ensures TreeInv(Moved(t, s, k, d))
  {
    var u := Moved(t, s, k, d);
    MovedApart(t, s, k, d);
    forall x | 0 <= x < |u| && IsDirectory(u, x) ensures GoodDirectory(u, x) {
      MovedDirectories(t, s, k, d, x);
    }
    forall x | 0 < x < |u| && u[x].used ensures Listed(u, x) {
      MovedListed(t, s, k, d, x);
    }
    forall x | 0 <= x < |u| && u[x].used ensures Rooted(u, x) {
      MovedRoots(t, s, k, d, x);
    }
  }

  lemma MovedListedThere(t: seq<TNode>, s: nat, k: nat, d: nat)
    requires TreeInv(t) && MayMove(t, s, k, d)
    ensures Listed(Moved(t, s, k, d), t[s].entries[k].inode)
  {
    var m := t[s].entries[k].inode;
    MovedApart(t, s, k, d);
    assert GoodDirectory(t, d);
    assert Moved(t, s, k, d)[d].entries[|t[d].entries|].inode == m;
  }

  lemma MovedListedStill(t: seq<TNode>, s: nat, k: nat, d: nat, x: nat, p: nat, j: nat)
    requires MayMove(t, s, k, d) && s < |t| && d < |t| && k < |t[s].entries| && x < |t| && x != t[s].entries[k].inode
    requires t[s].entries[k].inode != s && t[s].entries[k].inode != d
    requires p == t[x].parent && IsDirectory(t, p) && 2 <= j < |t[p].entries| && t[p].entries[j].inode == x
    ensures Listed(Moved(t, s, k, d), x)
  {
    var u := Moved(t, s, k, d);
    var j' := if p == s && j == |t[s].entries| - 1 then k else j;
    assert u[p].entries[j'].inode == x;
  }

  lemma MovedListed(t: seq<TNode>, s: nat, k: nat, d: nat, x: nat)
    requires TreeInv(t) && MayMove(t, s, k, d) && 0 < x < |t| && t[x].used
    ensures Listed(Moved(t, s, k, d), x)
  {
    hide Moved, Rooted;
    MovedApart(t, s, k, d);
    if x == t[s].entries[k].inode {
      MovedListedThere(t, s, k, d);
    } else {
      assert Listed(t, x);
      var j :| 2 <= j < |t[t[x].parent].entries| && t[t[x].parent].entries[j].inode == x;
      MovedListedStill(t, s, k, d, x, t[x].parent, j);
    }
  }
}
