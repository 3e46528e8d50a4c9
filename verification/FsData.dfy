/** File contents: what a write leaves in a file's blocks, and what a read takes from them. */
module FsData {
  import opened Bytes
  import opened Options
  import opened FsLayout
  import opened FsTree
  import opened FsVolume
  import opened FsState
  import opened FsOps
  import opened FsRemove

  /** Block b of some data, the last one padded with zeros. */
  function Chunk(data: seq<u8>, b: nat): Block {
    if 512 * b >= |data| then Zeros(512)
    else if |data| < 512 * b + 512 then data[512 * b..] + Zeros(512 - (|data| - 512 * b))
    else data[512 * b..512 * b + 512]
  }

  /** The bytes a read of `size` bytes takes from block b on; it stops at the first missing block. */
  function ReadFrom(image: seq<Option<Block>>, b: nat, size: nat): (r: seq<u8>)
    ensures |r| <= size
    decreases |image| - b
  {
    if b >= |image| || size == 0 || image[b].None? then []
    else if size <= 512 then image[b].value[..size]
    else image[b].value + ReadFrom(image, b + 1, size - 512)
  }

  /** Blocks that hold the data give it back. */
  lemma {:induction false} ReadsBack(image: seq<Option<Block>>, data: seq<u8>, w: nat, b: nat, m: nat)
    requires w <= |data| && m <= w <= 512 * |image| && 512 * b <= m
    requires forall k :: 0 <= k < |image| && 512 * k < w ==> image[k] == Some(Chunk(data, k))
    requires w % 512 == 0 || w == |data|
    ensures ReadFrom(image, b, m - 512 * b) == data[512 * b..m]
    decreases m - 512 * b
  {
    var size := m - 512 * b;
    if size > 0 {
      assert image[b] == Some(Chunk(data, b));
      if size <= 512 {
        assert Chunk(data, b)[..size] == data[512 * b..m];
      } else {
        assert Chunk(data, b) == data[512 * b..512 * b + 512];
        ReadsBack(image, data, w, b + 1, m);
        assert size - 512 == m - 512 * (b + 1);
        Adjoin(data, 512 * b, 512 * b + 512, m);
      }
    }
  }

  lemma Adjoin(s: seq<u8>, i: nat, j: nat, k: nat)
    requires i <= j <= k <= |s|
    ensures s[i..k] == s[i..j] + s[j..k]
  {
  }

  lemma {:induction false} LackingGrows(blocks: seq<nat>, m: nat, n: nat)
    requires m <= n
    ensures Lacking(blocks, m) <= Lacking(blocks, n)
    decreases n
  {
    if m < n {
      LackingGrows(blocks, m, n - 1);
    }
  }

  /** The blocks that n bytes take. */
  function BlocksFor(n: nat): nat {
    (n + 511) / 512
  }

  // ----- writing -----

  /** The first b blocks of file i hold the data; nothing else has changed but the blocks they took. */
  ghost predicate Writing(s0: State, i: nat, data: seq<u8>, b: nat, s: State) {
    && i < |s0.inodes| == |s.inodes| && |s0.inodes[i].blocks| == MAX_BLOCKS == |s.inodes[i].blocks| && b <= MAX_BLOCKS
    && s.currentDir == s0.currentDir
    && s.inodes == s0.inodes[i := s0.inodes[i].(blocks := s.inodes[i].blocks)]
    && (forall k :: b <= k < MAX_BLOCKS ==> s.inodes[i].blocks[k] == s0.inodes[i].blocks[k])
    && ClearBits(s.bitmap) + Lacking(s0.inodes[i].blocks, b) == ClearBits(s0.bitmap)
    && exists r: Node :: Holds(Nodes(s0)[i], r, data, b) && Shows(s, Nodes(s0)[i := r])
  }

  ghost predicate Holds(n: Node, r: Node, data: seq<u8>, b: nat) {
    && r == n.(image := r.image) && |r.image| == MAX_BLOCKS == |n.image| && b <= MAX_BLOCKS
    && (forall k :: 0 <= k < b ==> r.image[k] == Some(Chunk(data, k)))
    && (forall k :: b <= k < MAX_BLOCKS ==> r.image[k] == n.image[k])
  }

  lemma WritingStart(s0: State, i: nat, data: seq<u8>)
    requires Consistent(s0) && i < |s0.inodes|
    ensures Writing(s0, i, data, 0, s0)
  {
    assert GoodInode(s0.inodes[i], s0.bitmap);
    assert Nodes(s0)[i := Nodes(s0)[i]] == Nodes(s0);
    assert s0.inodes == s0.inodes[i := s0.inodes[i].(blocks := s0.inodes[i].blocks)];
    assert Holds(Nodes(s0)[i], Nodes(s0)[i], data, 0);
    assert Shows(s0, Nodes(s0)[i := Nodes(s0)[i]]);
  }

  lemma WritingBasics(s0: State, i: nat, data: seq<u8>, b: nat, s: State)
    requires Writing(s0, i, data, b, s)
    ensures |s.disk| == TOTAL_BLOCKS == |s.bitmap| && i < |s.inodes| == |s0.inodes| == MAX_FILES
      && s.currentDir == s0.currentDir
    ensures |s.inodes[i].blocks| == MAX_BLOCKS == |s0.inodes[i].blocks| && b <= MAX_BLOCKS
    ensures s.inodes[i].kind == s0.inodes[i].kind && s.inodes[i].isUsed == s0.inodes[i].isUsed
    ensures b < MAX_BLOCKS ==> s.inodes[i].blocks[b] == s0.inodes[i].blocks[b]
    ensures ClearBits(s.bitmap) + Lacking(s0.inodes[i].blocks, b) == ClearBits(s0.bitmap)
  {
  }

  lemma WritingShows(s0: State, i: nat, data: seq<u8>, b: nat, s: State) returns (r: Node)
    requires Writing(s0, i, data, b, s)
    ensures Holds(Nodes(s0)[i], r, data, b) && Shows(s, Nodes(s0)[i := r])
  {
    hide Shows, Holds, Nodes;
    r :| Holds(Nodes(s0)[i], r, data, b) && Shows(s, Nodes(s0)[i := r]);
  }

  function SetNode(r: Node, k: nat, c: Block): Node {
    r.(image := SetContent(r.image, k, c))
  }

  lemma HoldsNext(n: Node, r: Node, data: seq<u8>, b: nat)
    requires Holds(n, r, data, b) && b < MAX_BLOCKS
    ensures Holds(n, SetNode(r, b, Chunk(data, b)), data, b + 1)
  {
    hide Chunk;
  }

  lemma SetBlockAt(nodes: seq<Node>, i: nat, r: Node, k: nat, c: Block)
    requires i < |nodes|
    ensures SetBlock(nodes[i := r], i, k, c) == nodes[i := SetNode(r, k, c)]
  {
    hide SetContent;
  }

  lemma OwnsBlock(s: State, nodes: seq<Node>, i: nat, b: nat)
    requires Shows(s, nodes) && i < MAX_FILES && b < MAX_BLOCKS
    ensures |s.inodes[i].blocks| == MAX_BLOCKS && (s.inodes[i].blocks[b] != 0 ==> Owns(s, i, b))
  {
    assert GoodInode(s.inodes[i], s.bitmap);
  }

  lemma WritingOwns(s0: State, i: nat, data: seq<u8>, b: nat, s: State)
    requires Writing(s0, i, data, b, s) && b < MAX_BLOCKS
    ensures s.inodes[i].blocks[b] != 0 ==> Owns(s, i, b)
  {
    hide Consistent, Holds;
    var r := WritingShows(s0, i, data, b, s);
    OwnsBlock(s, Nodes(s0)[i := r], i, b);
  }

  lemma WritingReuse(s0: State, i: nat, data: seq<u8>, b: nat, s: State)
    requires Writing(s0, i, data, b, s) && b < MAX_BLOCKS && s.inodes[i].blocks[b] != 0
    ensures Writing(s0, i, data, b + 1, Write(s, i, b, Chunk(data, b)))
  {
    hide Consistent, Holds, Nodes, Chunk, Shows;
    WritingBasics(s0, i, data, b, s);
    WritingOwns(s0, i, data, b, s);
    var r := WritingShows(s0, i, data, b, s);
    WriteKeeps(s, Nodes(s0)[i := r], i, b, Chunk(data, b));
    SetBlockAt(Nodes(s0), i, r, b, Chunk(data, b));
    HoldsNext(Nodes(s0)[i], r, data, b);
  }

  /** A new block is recorded and filled in one go. */
  function FillNew(s: State, i: nat, b: nat, found: nat, c: Block): State {
    Write(Record(s, i, b, found), i, b, c)
  }

  lemma FillNewShows(s: State, nodes: seq<Node>, i: nat, r: Node, b: nat, s1: State, found: nat,
      c: Block)
    requires i < |nodes| && Shows(s, nodes[i := r]) && i < MAX_FILES && b < MAX_BLOCKS && s.inodes[i].isUsed
    requires BlockAllocated(s, s1, found)
    ensures Shows(FillNew(s1, i, b, found, c), nodes[i := SetNode(r, b, c)])
      && ClearBits(s1.bitmap) == ClearBits(s.bitmap) - 1
    ensures found > 0 && Owns(Record(s1, i, b, found), i, b)
  {
    hide Consistent, Shows, SetNode, Write, SetBlock;
    AllocationKeeps(s, nodes[i := r], s1, found);
    RecordKeeps(s1, nodes[i := r], i, b, found);
    WriteKeeps(Record(s1, i, b, found), SetBlock(nodes[i := r], i, b, s1.disk[found]), i, b, c);
    SetBlockTwice(nodes[i := r], i, b, s1.disk[found], c);
    SetBlockAt(nodes, i, r, b, c);
  }

  lemma WritingNew(s0: State, i: nat, data: seq<u8>, b: nat, s: State, s1: State, found: nat)
    requires Writing(s0, i, data, b, s) && b < MAX_BLOCKS && s.inodes[i].blocks[b] == 0 && s0.inodes[i].isUsed
    requires BlockAllocated(s, s1, found)
    ensures Writing(s0, i, data, b + 1, FillNew(s1, i, b, found, Chunk(data, b)))
    ensures Owns(Record(s1, i, b, found), i, b)
  {
    hide Consistent, Holds, Nodes, Chunk, Shows;
    WritingBasics(s0, i, data, b, s);
    var r := WritingShows(s0, i, data, b, s);
    FillNewShows(s, Nodes(s0), i, r, b, s1, found, Chunk(data, b));
    HoldsNext(Nodes(s0)[i], r, data, b);
  }

  /** What a write leaves: w bytes of the data in file i, and nothing else changed in any inode. */
  ghost predicate WrittenBy(s0: State, i: nat, data: seq<u8>, w: nat, s: State) {
    && Usable(s) && s.currentDir == s0.currentDir && Tree(s) == Tree(s0)
    && i < |s.inodes| == |s0.inodes| && w <= |data| && (w % 512 == 0 || w == |data|)
    && Nodes(s) == Nodes(s0)[i := Nodes(s)[i]]
    && Nodes(s)[i] == Nodes(s0)[i].(fileSize := w, image := Nodes(s)[i].image)
    && |Nodes(s)[i].image| == MAX_BLOCKS == |Nodes(s0)[i].image| && w <= 512 * MAX_BLOCKS
    && ClearBits(s.bitmap) + Lacking(s0.inodes[i].blocks, BlocksFor(w)) == ClearBits(s0.bitmap)
    && forall k :: 0 <= k < MAX_BLOCKS ==>
      Nodes(s)[i].image[k] == if 512 * k < w then Some(Chunk(data, k)) else Nodes(s0)[i].image[k]
  }

  lemma WritingDone(s0: State, i: nat, data: seq<u8>, b: nat, s: State, w: nat, s2: State)
    requires Usable(s0) && Writing(s0, i, data, b, s) && s0.inodes[i].isUsed && s0.inodes[i].kind == File
    requires w == (if 512 * b < |data| then 512 * b else |data|) && BlocksFor(w) == b
    requires Flushed(Resize(s, i, w), s2)
    ensures WrittenBy(s0, i, data, w, s2)
  {
    hide Usable, Consistent, Nodes, Chunk, Shows, TreeOf, Flushed, Writing, InodeCopy, Resize;
    WritingBasics(s0, i, data, b, s);
    var r := WritingShows(s0, i, data, b, s);
    ResizeKeeps(s, Nodes(s0)[i := r], i, w);
    var q := r.(fileSize := w);
    assert SetSize(Nodes(s0)[i := r], i, w) == Nodes(s0)[i := q];
    FlushKeeps(Resize(s, i, w), Nodes(s0)[i := q], s2);
    ResizedRest(s, i, w, s2);
    WrittenTree(s0, i, q, s2);
  }

  lemma ResizedRest(s: State, i: nat, w: nat, s2: State)
    requires Flushed(Resize(s, i, w), s2)
    ensures InodeCopy(s2.inodes, s2.disk) && s2.currentDir == s.currentDir && s2.bitmap == s.bitmap
  {
  }

  /** A file's size and blocks are not part of the tree. */
  lemma WrittenTree(s0: State, i: nat, q: Node, s: State)
    requires Usable(s0) && i < |s0.inodes| && s0.inodes[i].isUsed && s0.inodes[i].kind == File
    requires q == Nodes(s0)[i].(fileSize := q.fileSize, image := q.image) && Shows(s, Nodes(s0)[i := q])
    requires InodeCopy(s.inodes, s.disk) && s.currentDir == s0.currentDir
    ensures Tree(s) == Tree(s0) && Nodes(s) == Nodes(s0)[i := q] && Usable(s)
    ensures |Nodes(s0)[i].image| == MAX_BLOCKS && |s.inodes| == |s0.inodes|
  {
    hide AllList, Lists, TreeOf, InodeCopy, BitmapCopy;
    assert GoodInode(s0.inodes[i], s0.bitmap);
    UsableNodes(s0);
    AllListUpdate(Nodes(s0), i, q);
    IsUsable(s, Nodes(s0)[i := q]);
    TreeUpdate(Nodes(s0), i, q);
    assert TreeOf(Nodes(s0))[i] == TNodeOf(Nodes(s0)[i]);
  }

  /** Write, then read: any number of the written bytes comes back. */
  lemma WriteThenRead(s0: State, i: nat, data: seq<u8>, w: nat, s: State, m: nat)
    requires WrittenBy(s0, i, data, w, s) && m <= w
    ensures ReadFrom(Nodes(s)[i].image, 0, m) == data[..m]
  {
    hide Usable, TreeInv, Nodes, Tree;
    ReadsBack(Nodes(s)[i].image, data, w, 0, m);
  }

  /** The room a whole write takes: at most 64 blocks, and a free one for each missing one. */
  ghost predicate Fits(s: State, i: nat, size: nat) {
    && size <= 512 * MAX_BLOCKS
    && i < |s.inodes| && Lacking(s.inodes[i].blocks, BlocksFor(size)) <= ClearBits(s.bitmap)
  }

  /** The name is a file's. */
  ghost predicate IsFile(s: State, name: Name) {
    var i := Lookup(HereEntries(s), name);
    0 <= i < |s.inodes| && s.inodes[i].kind == File
  }

  /** The name resolves to nothing or to a used inode, as every name in a valid volume does. */
  ghost predicate NamesUsed(s: State, name: Name) {
    var i := Lookup(HereEntries(s), name);
    0 <= i < |s.inodes| ==> s.inodes[i].isUsed
  }

  lemma ValidNamesUsed(s: State, name: Name)
    requires Valid(s)
    ensures NamesUsed(s, name)
  {
    hide Usable, TreeInv, Tree;
    if Lookup(HereEntries(s), name) != -1 {
      HereTree(s);
      EntryUsed(Tree(s), s.currentDir, FindEntry(HereEntries(s), name));
      UsableConsistent(s);
      UsedIs(s, Lookup(HereEntries(s), name));
    }
  }

  lemma FileInode(s: State, name: Name)
    requires Usable(s) && Lookup(HereEntries(s), name) != -1
    ensures 0 <= Lookup(HereEntries(s), name) < |s.inodes| == MAX_FILES
    ensures IsFile(s, name) <==> s.inodes[Lookup(HereEntries(s), name)].kind == File
    ensures |s.inodes[Lookup(HereEntries(s), name)].blocks| == MAX_BLOCKS && Consistent(s)
  {
    hide Usable, Tree, Nodes;
    UsableConsistent(s);
    FoundInode(s, name, FindEntry(HereEntries(s), name));
  }

  lemma WroteAll(s0: State, i: nat, data: seq<u8>, b: nat, s: State, w: nat)
    requires Writing(s0, i, data, b, s) && w == if 512 * b < |data| then 512 * b else |data|
    requires BlocksFor(w) == b
    requires w == |data| || b == MAX_BLOCKS || (s.inodes[i].blocks[b] == 0 && ClearBits(s.bitmap) == 0)
    ensures w == |data| <==> Fits(s0, i, |data|)
  {
    hide Consistent, Nodes, Shows, Holds;
    if w < |data| && b < MAX_BLOCKS {
      LackingGrows(s0.inodes[i].blocks, b + 1, BlocksFor(|data|));
    }
  }

  // ----- reading -----

  lemma FileImage(s: State, i: nat, b: nat)
    requires Usable(s) && i < |s.inodes| && b < MAX_BLOCKS
    ensures |Nodes(s)[i].image| == MAX_BLOCKS == |s.inodes[i].blocks|
    ensures s.inodes[i].blocks[b] == 0 <==> Nodes(s)[i].image[b].None?
    ensures s.inodes[i].blocks[b] != 0 ==> Owns(s, i, b) && Nodes(s)[i].image[b] == Some(BlockOf(s, i, b))
  {
    assert GoodInode(s.inodes[i], s.bitmap);
  }

  /** What is still to be read from block b on. */
  function ReadOn(image: seq<Option<Block>>, b: nat, size: nat): seq<u8> {
    if size <= 512 * b then [] else ReadFrom(image, b, size - 512 * b)
  }

  /** One more block extends what has been read. */
  lemma ReadMore(image: seq<Option<Block>>, b: nat, size: nat, n: nat, read: seq<u8>)
    requires b < |image| && image[b].Some? && size > 512 * b
      && n == if size - 512 * b < 512 then size - 512 * b else 512
    ensures read + ReadOn(image, b, size) == (read + image[b].value[..n]) + ReadOn(image, b + 1, size)
  {
    if n < 512 {
      assert ReadFrom(image, b, n) == image[b].value[..n];
    } else {
      assert image[b].value[..512] == image[b].value;
    }
  }

  lemma ReadStart(image: seq<Option<Block>>, size: nat)
    ensures ReadFrom(image, 0, size) == [] + ReadOn(image, 0, size)
  {
  }

  lemma ReadEnd(image: seq<Option<Block>>, b: nat, size: nat)
    requires b >= |image| || size <= 512 * b || image[b].None?
    ensures ReadOn(image, b, size) == []
  {
  }

  /** The first bytes of a buffer have been replaced by what was read. */
  ghost predicate Overlaid(was: seq<u8>, read: seq<u8>, now: seq<u8>) {
    |read| <= |was| && now == read + was[|read|..]
  }

  lemma OverlaidStart(was: seq<u8>)
    ensures Overlaid(was, [], was)
  {
  }

  /** Puts the next bytes behind those already replaced. */
  method Overlay(buffer: array<u8>, at: nat, more: seq<u8>, ghost was: seq<u8>, ghost read: seq<u8>)
    requires at == |read| && Overlaid(was, read, buffer[..]) && at + |more| <= buffer.Length
    modifies buffer
    ensures Overlaid(was, read + more, buffer[..])
  {
    CopyTo(buffer, at, more);
  }

  /** The buffer after a read: what the file holds, then what the buffer held. */
  ghost predicate ReadInto(s: State, i: int, size: nat, before: seq<u8>, after: seq<u8>) {
    && 0 <= i < |s.inodes|
    && var read := ReadFrom(Nodes(s)[i].image, 0, size);
      Overlaid(before, read, after)
  }

  lemma RecordIs(s: State, i: nat, k: nat, b: nat)
    requires i < |s.inodes| && k < |s.inodes[i].blocks|
    ensures Record(s, i, k, b) == s.(inodes := s.inodes[i := s.inodes[i].(blocks := s.inodes[i].blocks[k := b])])
  {
  }

  lemma UsedFile(s: State, name: Name)
    requires IsFile(s, name) && NamesUsed(s, name)
    ensures s.inodes[Lookup(HereEntries(s), name)].isUsed && s.inodes[Lookup(HereEntries(s), name)].kind == File
  {
  }

  lemma WritingEncodable(s0: State, i: nat, data: seq<u8>, b: nat, s: State, w: nat)
    requires Writing(s0, i, data, b, s) && w <= 512 * MAX_BLOCKS
    ensures var r := Resize(s, i, w); |r.disk| == TOTAL_BLOCKS && |r.inodes| == MAX_FILES && Encodable(r.inodes)
  {
    hide Consistent, Holds, Nodes, Shows, Encodable, Resize;
    WritingBasics(s0, i, data, b, s);
    var r := WritingShows(s0, i, data, b, s);
    ResizeKeeps(s, Nodes(s0)[i := r], i, w);
    ShowsEncodable(Resize(s, i, w), SetSize(Nodes(s0)[i := r], i, w));
  }

  lemma NotAFile(s: State, name: Name)
    requires Lookup(HereEntries(s), name) == -1
    ensures !IsFile(s, name)
  {
  }

  lemma WrittenValid(s0: State, i: nat, data: seq<u8>, w: nat, s: State)
    requires Valid(s0) && WrittenBy(s0, i, data, w, s)
    ensures Valid(s)
  {
    hide Usable, Nodes, Tree;
  }
}
