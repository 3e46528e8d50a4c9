/** Requests to a volume: when they may be served, what they do, and what any run of them keeps. */
module FsRuns {
  import opened Bytes
  import opened FsLayout
  import opened FsTree
  import opened FsVolume
  import opened FsState
  import opened FsOps
  import opened FsRemove
  import opened FsData
  import opened FsMove

  /** What a user of the file system may ask for. */
  datatype Request =
    | Create(name: Name)
    | MakeDirectory(name: Name)
    | Store(name: Name, data: seq<u8>)
    | Delete(name: Name)
    | Rename(name: Name, newName: Name)
    | Move(name: Name, dest: nat)
    | ChangeDirectory(name: Name)

  /** The inode that deleteFile would free. */
  ghost function Victim(s: State, name: Name): int {
    if name == DOT || name == DOTDOT || Lookup(HereEntries(s), name) <= 0 then -1 else Lookup(HereEntries(s), name)
  }

  /** What the operations leave to their callers. A name is a C string; an inode written to is used; an
      inode deleted has its blocks below 4096 and is not the current directory; the walk of a move ends;
      the directory changed to is one. */
  ghost predicate MayServe(s: State, r: Request) {
    match r
    case Create(name) => IsString(name)
    case MakeDirectory(name) => IsString(name)
    case Store(name, _) => NamesUsed(s, name)
    case Delete(name) => Victim(s, name) != -1 ==> Removable(s, Victim(s, name))
    case Rename(_, newName) => IsString(newName)
    case Move(name, dest) => MoveEnds(s, name, dest)
    case ChangeDirectory(name) => CdTarget(s, name) != -1 ==> IsDirectory(Tree(s), CdTarget(s, name))
  }

  /** The effect of one request, in any usable volume. */
  ghost predicate Served(s0: State, r: Request, s: State) {
    match r
    case Create(name) =>
      if CanCreate(s0, name) then exists i: nat :: InodeCreated(s0, i, Kept(name), File, s) else Unchanged(s0, s)
    case MakeDirectory(name) =>
      if !CanCreate(s0, name) then Unchanged(s0, s)
      else if RunsDry(s0, name) then exists i: nat :: InodeCreated(s0, i, Kept(name), Directory, s)
      else exists i: nat :: DirectoryMade(s0, i, Kept(name), s)
    case Store(name, data) =>
      if IsFile(s0, name) then exists w: nat :: StoredBy(s0, name, data, w, s) else s == s0
    case Delete(name) =>
      if Victim(s0, name) != -1 then DeletedBy(s0, name, s) else s == s0
    case Rename(name, newName) =>
      var k := FindEntry(HereEntries(s0), name);
      if !MayRename(s0, name, newName) then s == s0
      else if LosesEntry(s0, name, newName) then LostBy(s0, k, s)
      else RenamedBy(s0, k, Kept(newName), s)
    case Move(name, dest) =>
      if CanMove(s0, name, dest) then MovedOn(s0, FindEntry(HereEntries(s0), name), dest, s) else s == s0
    case ChangeDirectory(name) =>
      s == if CdTarget(s0, name) >= 0 then s0.(currentDir := CdTarget(s0, name)) else s0
  }

  /** As much of the data is in the file as there is room for, all of it if it fits. */
  ghost predicate StoredBy(s0: State, name: Name, data: seq<u8>, w: nat, s: State) {
    var i := Lookup(HereEntries(s0), name);
    i >= 0 && WrittenBy(s0, i, data, w, s) && (w == |data| <==> Fits(s0, i, |data|))
  }

  /** What is kept of the name is not listed here. */
  ghost predicate NewName(s: State, name: Name) {
    Lookup(HereEntries(s), Kept(name)) == -1
  }

  /** The request does not run into one of the failures that break the tree. */
  ghost predicate KeepsTree(s: State, r: Request) {
    match r
    case Create(name) => CanCreate(s, name) ==> NewName(s, name)
    case MakeDirectory(name) => CanCreate(s, name) ==> NewName(s, name) && !RunsDry(s, name)
    case Delete(name) => 0 <= Victim(s, name) < |s.inodes| ==> Childless(Tree(s), Victim(s, name))
    case Rename(name, newName) =>
      MayRename(s, name, newName) ==> Renames(s, name, newName) && !LosesEntry(s, name, newName)
    case _ => true
  }

  /** A name too long for its field is never found, so the same one can be created again and again. */
  lemma LongNeverFound(s: State, name: Name)
    requires Usable(s) && |name| >= NAME_BYTES
    ensures Lookup(HereEntries(s), name) == -1
  {
    hide Usable, Tree, HereEntries;
    var k := FindEntry(HereEntries(s), name);
    if k < |HereEntries(s)| {
      ListedName(s, k);
    }
  }

  // ----- one request -----

  /** Ownership, the copies on disk and searchable directories survive every request. */
  lemma ServedUsable(s0: State, r: Request, s: State)
    requires Usable(s0) && MayServe(s0, r) && Served(s0, r, s)
    ensures Usable(s)
  {
    hide Usable, Tree, Nodes, HereEntries, CanCreate, RunsDry, NamesUsed, SameContents, IsFile, MayRename,
      LosesEntry, CanMove, MoveEnds, Removable;
    if r.ChangeDirectory? && CdTarget(s0, r.name) >= 0 {
      UsableAt(s0, CdTarget(s0, r.name));
    }
  }

  /** The tree survives exactly the requests that run into none of the failures. */
  lemma ServedValidIff(s0: State, r: Request, s: State)
    requires Valid(s0) && MayServe(s0, r) && Served(s0, r, s)
    ensures Valid(s) <==> KeepsTree(s0, r)
  {
    hide Usable, TreeInv, Tree, Nodes, HereEntries, RunsDry, NamesUsed, SameContents, IsFile, LosesEntry, CanMove,
      MoveEnds, Removable, FindEntry, InodeCreated, DirectoryMade, RenamedBy, LostBy, DeletedBy, MovedOn, Fits,
      Childless, CdTarget;
    match r {
      case Create(name) =>
        if CanCreate(s0, name) {
          var i: nat :| InodeCreated(s0, i, Kept(name), File, s);
          CreatedFileValidIff(s0, i, Kept(name), s);
        } else {
          UnchangedValid(s0, s);
        }
      case MakeDirectory(name) =>
        MadeDirectoryValidIff(s0, name, s);
      case Store(name, data) =>
        if IsFile(s0, name) {
          var w: nat :| StoredBy(s0, name, data, w, s);
          SameTreeValid(s0, s);
        }
      case Delete(name) =>
        if Victim(s0, name) != -1 {
          DeletedValidIff(s0, name, s);
          UsableConsistent(s0);
        }
      case Rename(name, newName) =>
        var k := FindEntry(HereEntries(s0), name);
        if LosesEntry(s0, name, newName) {
          LosingRenames(s0, name, newName);
          RenameLost(s0, k, s);
        } else if MayRename(s0, name, newName) {
          NewNameIs(s0, newName);
          RenamedValidIff(s0, k, name, Kept(newName), s);
        }
      case Move(name, dest) =>
        if CanMove(s0, name, dest) {
          MovedInTree(s0, name, FindEntry(HereEntries(s0), name), dest, s);
        }
      case ChangeDirectory(name) =>
        CdResolves(s0, name);
    }
  }

  lemma UnchangedValid(s0: State, s: State)
    requires Valid(s0) && Unchanged(s0, s)
    ensures Valid(s)
  {
  }

  lemma SameTreeValid(s0: State, s: State)
    requires Valid(s0) && Usable(s) && Tree(s) == Tree(s0)
    ensures Valid(s)
  {
  }

  lemma LosingRenames(s: State, name: Name, newName: Name)
    requires LosesEntry(s, name, newName)
    ensures MayRename(s, name, newName)
  {
  }

  lemma MadeDirectoryValidIff(s0: State, name: Name, s: State)
    requires Valid(s0) && Served(s0, MakeDirectory(name), s)
    ensures Valid(s) <==> KeepsTree(s0, MakeDirectory(name))
  {
    hide Usable, TreeInv, Tree, Nodes, InodeCreated, DirectoryMade, Unchanged, HereEntries;
    if !CanCreate(s0, name) {
      UnchangedValid(s0, s);
    } else if RunsDry(s0, name) {
      var i: nat :| InodeCreated(s0, i, Kept(name), Directory, s);
      DryDirectory(s0, i, Kept(name), s);
    } else {
      var i: nat :| DirectoryMade(s0, i, Kept(name), s);
      MadeValidIff(s0, i, Kept(name), s);
    }
  }

  /** In a valid volume only inodes with blocks from 4096 on are left to the callers. */
  lemma ValidMayServe(s: State, r: Request)
    requires Valid(s)
    ensures MayServe(s, r) <==>
      match r
      case Create(name) => IsString(name)
      case MakeDirectory(name) => IsString(name)
      case Rename(_, newName) => IsString(newName)
      case Delete(name) =>
        0 <= Victim(s, name) < |s.inodes| ==>
          forall k :: 0 <= k < |s.inodes[Victim(s, name)].blocks| ==> s.inodes[Victim(s, name)].blocks[k] < 4096
      case _ => true
  {
    hide Usable, TreeInv, Tree, Nodes, HereEntries, FindEntry, MoveEnds, NamesUsed;
    match r {
      case Store(name, _) =>
        ValidNamesUsed(s, name);
      case Delete(name) =>
        if Victim(s, name) != -1 {
          NamedInode(s, name, FindEntry(HereEntries(s), name));
        }
      case Move(name, dest) =>
        MoveEndsInTree(s, name, dest);
      case ChangeDirectory(name) =>
        CdResolves(s, name);
      case _ =>
    }
  }

  lemma DryCreates(s: State, name: Name)
    ensures RunsDry(s, name) ==> CanCreate(s, name)
  {
  }

  lemma CdSomewhere(s: State, name: Name)
    ensures CdTarget(s, name) >= -1
  {
  }

  // ----- runs -----

  /** Requests the operations leave to their callers to rule out are not made. */
  ghost predicate Step(s0: State, r: Request, s: State) {
    if MayServe(s0, r) then Served(s0, r, s) else s == s0
  }

  /** The states a run goes through. */
  ghost predicate IsRun(states: seq<State>, rs: seq<Request>) {
    |states| == |rs| + 1 && forall j :: 0 <= j < |rs| ==> Step(states[j], rs[j], states[j + 1])
  }

  /** Whatever has failed before, ownership, the copies on disk and the searchable directories stay. */
  lemma {:induction false} RunUsable(states: seq<State>, rs: seq<Request>, n: nat)
    requires IsRun(states, rs) && n <= |rs| && Usable(states[0])
    ensures Usable(states[n])
  {
    hide Usable, Served, MayServe;
    if n > 0 {
      RunUsable(states, rs, n - 1);
      assert Step(states[n - 1], rs[n - 1], states[n]);
      if MayServe(states[n - 1], rs[n - 1]) {
        ServedUsable(states[n - 1], rs[n - 1], states[n]);
      }
    }
  }

  /** No request of the run up to the n-th has met a failure. */
  ghost predicate Clean(states: seq<State>, rs: seq<Request>, n: nat) {
    n <= |rs| < |states| && forall j :: 0 <= j < n && MayServe(states[j], rs[j]) ==> KeepsTree(states[j], rs[j])
  }

  /** A volume stays valid throughout a run exactly when no request meets a failure. */
  lemma {:induction false} RunValidIff(states: seq<State>, rs: seq<Request>, n: nat)
    requires IsRun(states, rs) && n <= |rs| && Valid(states[0])
    ensures (forall j :: 0 <= j <= n ==> Valid(states[j])) <==> Clean(states, rs, n)
  {
    hide Valid, Served, MayServe, KeepsTree;
    if n > 0 {
      var s0, r, s := states[n - 1], rs[n - 1], states[n];
      RunValidIff(states, rs, n - 1);
      assert Step(s0, r, s);
      if Clean(states, rs, n - 1) {
        assert Valid(s0);
        if MayServe(s0, r) {
          ServedValidIff(s0, r, s);
        }
        assert Valid(s) <==> (MayServe(s0, r) ==> KeepsTree(s0, r));
      } else {
        assert !Clean(states, rs, n);
      }
    }
  }

  /** The request writes to inode i or deletes it. */
  ghost predicate Touches(s: State, r: Request, i: nat) {
    match r
    case Store(name, _) => Lookup(HereEntries(s), name) == i
    case Delete(name) => Victim(s, name) == i
    case _ => false
  }

  lemma ServedContent(s0: State, r: Request, s: State, i: nat)
    requires Usable(s0) && Served(s0, r, s) && !Touches(s0, r, i)
    requires i < |Nodes(s0)| && Nodes(s0)[i].isUsed && Nodes(s0)[i].kind == File
    ensures i < |Nodes(s)| && SameContent(Nodes(s0)[i], Nodes(s)[i])
  {
    hide Usable, Tree, HereEntries, FindEntry, CanCreate, RunsDry, Fits, MayRename, LosesEntry, CanMove, NodesOf;
  }

  /** A file keeps its size and contents through every run that does not write to it or delete it. */
  lemma {:induction false} RunKeepsContent(states: seq<State>, rs: seq<Request>, n: nat, i: nat)
    requires IsRun(states, rs) && n <= |rs| && Usable(states[0])
    requires i < |Nodes(states[0])| && Nodes(states[0])[i].isUsed && Nodes(states[0])[i].kind == File
    requires forall j :: 0 <= j < n ==> !Touches(states[j], rs[j], i)
    ensures i < |Nodes(states[n])| && SameContent(Nodes(states[0])[i], Nodes(states[n])[i])
  {
    hide Usable, Served, MayServe, Touches, Nodes;
    if n > 0 {
      RunKeepsContent(states, rs, n - 1, i);
      RunUsable(states, rs, n - 1);
      assert Step(states[n - 1], rs[n - 1], states[n]);
      if MayServe(states[n - 1], rs[n - 1]) {
        ServedContent(states[n - 1], rs[n - 1], states[n], i);
      }
    }
  }
}
