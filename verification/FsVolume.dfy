/** The inode table, the bitmap and the disk as values: who owns which block, and what each inode
    holds once its block numbers are replaced by block contents. */
module FsVolume {
  import opened Bytes
  import opened Options
  import opened FsLayout
  import opened FsTree

  /** An inode seen through the disk. */
  datatype Node = Node(kind: FileType, fileSize: nat, isUsed: bool, parent: nat, image: seq<Option<Block>>)

  // ----- ownership -----

  ghost predicate GoodInode(n: INode, bitmap: seq<bool>) {
    && |n.blocks| == MAX_BLOCKS && n.parent < MAX_FILES && n.fileSize <= MAX_BLOCKS * 512
    && (forall k :: 0 <= k < MAX_BLOCKS && n.blocks[k] != 0 ==>
          DATA_START <= n.blocks[k] < TOTAL_BLOCKS && n.blocks[k] < |bitmap| && bitmap[n.blocks[k]])
    && (!n.isUsed ==> forall k :: 0 <= k < MAX_BLOCKS ==> n.blocks[k] == 0)
  }

  ghost predicate SameOwner(inodes: seq<INode>, i: nat, k: nat, j: nat, l: nat)
    requires i < |inodes| && j < |inodes| && k < |inodes[i].blocks| && l < |inodes[j].blocks|
  {
    inodes[i].blocks[k] == inodes[j].blocks[l] && inodes[i].blocks[k] != 0 ==> i == j && k == l
  }

  /** Nonzero block numbers are pairwise distinct, marked in the bitmap and outside the tables. */
  ghost predicate AllocInv(inodes: seq<INode>, bitmap: seq<bool>) {
    && |inodes| == MAX_FILES && |bitmap| == TOTAL_BLOCKS
    && (forall b :: 0 <= b < DATA_START ==> bitmap[b])
    && (forall i :: 0 <= i < MAX_FILES ==> GoodInode(inodes[i], bitmap))
    && (forall i, k, j, l :: 0 <= i < MAX_FILES && 0 <= j < MAX_FILES && 0 <= k < MAX_BLOCKS && 0 <= l < MAX_BLOCKS ==>
          SameOwner(inodes, i, k, j, l))
  }

  ghost predicate Unowned(inodes: seq<INode>, b: nat) {
    forall i, k :: 0 <= i < |inodes| && 0 <= k < |inodes[i].blocks| ==> inodes[i].blocks[k] != b
  }

  lemma ClearIsUnowned(inodes: seq<INode>, bitmap: seq<bool>, b: nat)
    requires AllocInv(inodes, bitmap) && 0 < b < TOTAL_BLOCKS
    requires b < DATA_START || !bitmap[b]
    ensures Unowned(inodes, b)
  {
    forall i, k | 0 <= i < |inodes| && 0 <= k < |inodes[i].blocks| ensures inodes[i].blocks[k] != b {
      assert GoodInode(inodes[i], bitmap);
    }
  }

  /** A marked block nobody owns may be recorded in a used inode. */
  lemma TakeBlock(inodes: seq<INode>, bitmap: seq<bool>, i: nat, k: nat, b: nat)
    requires AllocInv(inodes, bitmap) && i < MAX_FILES && k < MAX_BLOCKS && inodes[i].isUsed
    requires |inodes[i].blocks| == MAX_BLOCKS
    requires DATA_START <= b < TOTAL_BLOCKS && bitmap[b] && Unowned(inodes, b)
    ensures AllocInv(inodes[i := inodes[i].(blocks := inodes[i].blocks[k := b])], bitmap)
  {
    var r := inodes[i := inodes[i].(blocks := inodes[i].blocks[k := b])];
    forall j | 0 <= j < MAX_FILES ensures GoodInode(r[j], bitmap) {
      assert GoodInode(inodes[j], bitmap);
    }
    forall x, y, j, l | 0 <= x < MAX_FILES && 0 <= j < MAX_FILES && 0 <= y < MAX_BLOCKS && 0 <= l < MAX_BLOCKS
      ensures SameOwner(r, x, y, j, l)
    {
      assert GoodInode(inodes[x], bitmap) && GoodInode(inodes[j], bitmap);
      assert SameOwner(inodes, x, y, j, l);
    }
  }

  lemma MarkBlock(inodes: seq<INode>, bitmap: seq<bool>, b: nat)
    requires AllocInv(inodes, bitmap) && b < TOTAL_BLOCKS
    ensures AllocInv(inodes, bitmap[b := true])
  {
    forall j | 0 <= j < MAX_FILES ensures GoodInode(inodes[j], bitmap[b := true]) {
      assert GoodInode(inodes[j], bitmap);
    }
  }

  /** Dropping slot k of an inode lets its block's bit be cleared. */
  lemma DropBlock(inodes: seq<INode>, bitmap: seq<bool>, i: nat, k: nat)
    requires AllocInv(inodes, bitmap) && i < MAX_FILES && k < MAX_BLOCKS && |inodes[i].blocks| == MAX_BLOCKS
    requires inodes[i].blocks[k] != 0
    ensures inodes[i].blocks[k] < TOTAL_BLOCKS
    ensures AllocInv(inodes[i := inodes[i].(blocks := inodes[i].blocks[k := 0])], bitmap[inodes[i].blocks[k] := false])
  {
    assert GoodInode(inodes[i], bitmap);
    var b := inodes[i].blocks[k];
    var r := inodes[i := inodes[i].(blocks := inodes[i].blocks[k := 0])];
    var m := bitmap[b := false];
    forall j | 0 <= j < MAX_FILES ensures GoodInode(r[j], m) {
      assert GoodInode(inodes[j], bitmap);
      forall l | 0 <= l < MAX_BLOCKS && r[j].blocks[l] != 0 ensures r[j].blocks[l] != b {
        assert SameOwner(inodes, i, k, j, l);
      }
    }
    forall x, y, j, l | 0 <= x < MAX_FILES && 0 <= j < MAX_FILES && 0 <= y < MAX_BLOCKS && 0 <= l < MAX_BLOCKS
      ensures SameOwner(r, x, y, j, l)
    {
      assert GoodInode(inodes[x], bitmap) && GoodInode(inodes[j], bitmap);
      assert SameOwner(inodes, x, y, j, l);
    }
  }

  /** Fields other than the block list do not matter for ownership. */
  lemma SameBlocksKeepsAlloc(inodes: seq<INode>, bitmap: seq<bool>, i: nat, n: INode)
    requires AllocInv(inodes, bitmap) && i < MAX_FILES
    requires n.blocks == inodes[i].blocks && n.parent < MAX_FILES && n.fileSize <= MAX_BLOCKS * 512
    requires n.isUsed || !inodes[i].isUsed || forall k :: 0 <= k < |n.blocks| ==> n.blocks[k] == 0
    ensures AllocInv(inodes[i := n], bitmap)
  {
    var r := inodes[i := n];
    forall j | 0 <= j < MAX_FILES ensures GoodInode(r[j], bitmap) {
      assert GoodInode(inodes[j], bitmap);
    }
    forall x, y, j, l | 0 <= x < MAX_FILES && 0 <= j < MAX_FILES && 0 <= y < MAX_BLOCKS && 0 <= l < MAX_BLOCKS
      ensures SameOwner(r, x, y, j, l)
    {
      assert GoodInode(inodes[x], bitmap) && GoodInode(inodes[j], bitmap);
      assert SameOwner(inodes, x, y, j, l);
    }
  }

  // ----- contents -----

  function BlockAt(disk: seq<Block>, b: nat): Option<Block> {
    if 0 < b < |disk| then Some(disk[b]) else None
  }

  function ImageOf(blocks: seq<nat>, disk: seq<Block>): (r: seq<Option<Block>>)
    ensures |r| == |blocks|
    ensures forall k :: 0 <= k < |blocks| ==> r[k] == BlockAt(disk, blocks[k])
  {
    if blocks == [] then [] else ImageOf(blocks[..|blocks| - 1], disk) + [BlockAt(disk, blocks[|blocks| - 1])]
  }

  function NodeOf(n: INode, disk: seq<Block>): Node {
    Node(n.kind, n.fileSize, n.isUsed, n.parent, ImageOf(n.blocks, disk))
  }

  function NodesOf(inodes: seq<INode>, disk: seq<Block>): (r: seq<Node>)
    ensures |r| == |inodes|
    ensures forall i :: 0 <= i < |inodes| ==> r[i] == NodeOf(inodes[i], disk)
  {
    if inodes == [] then [] else NodesOf(inodes[..|inodes| - 1], disk) + [NodeOf(inodes[|inodes| - 1], disk)]
  }

  /** The blocks before the data area hold no content. */
  lemma SameData(inodes: seq<INode>, bitmap: seq<bool>, d1: seq<Block>, d2: seq<Block>)
    requires AllocInv(inodes, bitmap) && |d1| == |d2| == TOTAL_BLOCKS
    requires forall b :: DATA_START <= b < TOTAL_BLOCKS ==> d1[b] == d2[b]
    ensures NodesOf(inodes, d1) == NodesOf(inodes, d2)
  {
    forall i | 0 <= i < |inodes| ensures NodeOf(inodes[i], d1) == NodeOf(inodes[i], d2) {
      assert GoodInode(inodes[i], bitmap);
      assert NodeOf(inodes[i], d1).image == NodeOf(inodes[i], d2).image;
    }
  }

  /** Writing an owned block changes exactly that slot of its owner. */
  lemma WriteOwned(inodes: seq<INode>, bitmap: seq<bool>, disk: seq<Block>, i: nat, k: nat, c: Block)
    requires AllocInv(inodes, bitmap) && |disk| == TOTAL_BLOCKS && i < MAX_FILES && k < MAX_BLOCKS
    requires |inodes[i].blocks| == MAX_BLOCKS && inodes[i].blocks[k] != 0
    ensures inodes[i].blocks[k] < |disk|
    ensures var old_, new_ := NodesOf(inodes, disk), NodesOf(inodes, disk[inodes[i].blocks[k] := c]);
      new_ == old_[i := old_[i].(image := old_[i].image[k := Some(c)])]
  {
    assert GoodInode(inodes[i], bitmap);
    var b := inodes[i].blocks[k];
    var before, after := NodesOf(inodes, disk), NodesOf(inodes, disk[b := c]);
    forall j | 0 <= j < |inodes|
      ensures after[j] == if j == i then before[i].(image := before[i].image[k := Some(c)]) else before[j]
    {
      assert GoodInode(inodes[j], bitmap);
      forall l | 0 <= l < MAX_BLOCKS
        ensures after[j].image[l] == if j == i && l == k then Some(c) else before[j].image[l]
      {
        assert SameOwner(inodes, i, k, j, l);
      }
      assert after[j].image == if j == i then before[i].image[k := Some(c)] else before[j].image;
    }
  }

  lemma UpdateInode(inodes: seq<INode>, disk: seq<Block>, i: nat, n: INode)
    requires i < |inodes|
    ensures NodesOf(inodes[i := n], disk) == NodesOf(inodes, disk)[i := NodeOf(n, disk)]
  {
  }

  /** Recording block b in slot k shows its present content there. */
  lemma RecordBlock(n: INode, disk: seq<Block>, k: nat, b: nat)
    requires |n.blocks| == MAX_BLOCKS && k < MAX_BLOCKS && 0 < b < |disk|
    ensures NodeOf(n.(blocks := n.blocks[k := b]), disk)
      == NodeOf(n, disk).(image := NodeOf(n, disk).image[k := Some(disk[b])])
  {
    assert NodeOf(n.(blocks := n.blocks[k := b]), disk).image == NodeOf(n, disk).image[k := Some(disk[b])];
  }

  // ----- directories -----

  function EntryCount(n: Node): nat {
    n.fileSize / 68
  }

  ghost predicate Terminated(s: seq<u8>)
    requires |s| == 68
  {
    |CString(s[4..])| < NAME_BYTES
  }

  ghost predicate HasSlot(n: Node, k: nat) {
    k / 7 < |n.image| && n.image[k / 7].Some?
  }

  function SlotAt(n: Node, k: nat): (s: seq<u8>)
    requires HasSlot(n, k)
    ensures |s| == 68
  {
    Slot(n.image[k / 7].value, k % 7)
  }

  /** Entries are packed from slot 0 on, seven to a block, and their names are terminated. */
  ghost predicate GoodListing(n: Node) {
    && |n.image| == MAX_BLOCKS
    && n.fileSize % 68 == 0 && EntryCount(n) <= MAX_BLOCKS * 7
    && forall k :: 0 <= k < EntryCount(n) ==> HasSlot(n, k) && Terminated(SlotAt(n, k))
  }

  /** The first `count` entries. */
  ghost function Entries(n: Node, count: nat): (es: seq<Entry>)
    requires GoodListing(n) && count <= EntryCount(n)
    ensures |es| == count
    ensures forall k :: 0 <= k < count ==> HasSlot(n, k) && es[k] == DecodeSlot(SlotAt(n, k))
  {
    if count == 0 then []
    else
      assert HasSlot(n, count - 1);
      Entries(n, count - 1) + [DecodeSlot(SlotAt(n, count - 1))]
  }

  ghost function Listing(n: Node): (es: seq<Entry>) {
    if GoodListing(n) then Entries(n, EntryCount(n)) else []
  }

  /** The slots of block b hold entries 7 * b, 7 * b + 1 and so on. */
  lemma BlockEntry(n: Node, b: nat, j: nat)
    requires GoodListing(n) && j < 7 && 7 * b + j < EntryCount(n)
    ensures b < MAX_BLOCKS && n.image[b].Some?
    ensures DecodeSlot(Slot(n.image[b].value, j)) == Listing(n)[7 * b + j]
  {
    var k := 7 * b + j;
    assert k / 7 == b && k % 7 == j;
    assert HasSlot(n, k);
  }

  ghost function TNodeOf(n: Node): TNode {
    if !n.isUsed then FREE_NODE
    else TNode(true, n.kind == Directory, n.parent, if n.kind == Directory then Listing(n) else [])
  }

  ghost function TreeOf(nodes: seq<Node>): (t: seq<TNode>)
    ensures |t| == |nodes|
    ensures forall i :: 0 <= i < |nodes| ==> t[i] == TNodeOf(nodes[i])
  {
    if nodes == [] then [] else TreeOf(nodes[..|nodes| - 1]) + [TNodeOf(nodes[|nodes| - 1])]
  }

  /** Appending: the slot after the last one is written and the size grows by one entry. */
  lemma AppendSlot(n: Node, r: Node, b: Block, e: Entry)
    requires GoodListing(n) && EntryCount(n) < MAX_BLOCKS * 7
    requires ValidName(e.name) && e.inode < 0x1_0000_0000
    requires var k := EntryCount(n);
      && (k % 7 != 0 ==> n.image[k / 7] == Some(b))
      && r == n.(fileSize := n.fileSize + 68,
                 image := n.image[k / 7 := Some(Patch(b, 68 * (k % 7), SlotBytes(e)))])
    ensures GoodListing(r) && Listing(r) == Listing(n) + [e]
  {
    var k := EntryCount(n);
    assert EntryCount(r) == k + 1;
    SlotRoundTrip(e);
    forall j | 0 <= j < k + 1
      ensures HasSlot(r, j) && SlotAt(r, j) == if j == k then SlotBytes(e) else SlotAt(n, j)
    {
      if j / 7 == k / 7 {
        PatchSlot(b, k % 7, SlotBytes(e), j % 7);
      }
      if j < k {
        assert HasSlot(n, j);
      }
    }
    assert Listing(r) == Listing(n) + [e];
  }

  function Content(image: seq<Option<Block>>, b: nat): Block {
    if b < |image| && image[b].Some? then image[b].value else Zeros(512)
  }

  function SetContent(image: seq<Option<Block>>, b: nat, c: Block): (r: seq<Option<Block>>)
    ensures |r| == |image|
  {
    if b < |image| then image[b := Some(c)] else image
  }

  /** A directory's blocks after the entry in slot e of block b is removed. The last entry is in slot s of
      block l; the block with the hole is written last, from a copy read before the last slot was cleared. */
  function RemovedFrom(image: seq<Option<Block>>, b: nat, e: nat, l: nat, s: nat): (r: seq<Option<Block>>)
    requires e < 7 && s < 7
    ensures |r| == |image|
  {
    if b == l && e == s then
      SetContent(image, b, Patch(Content(image, b), 68 * e, Zeros(68)))
    else
      SetContent(SetContent(image, l, Patch(Content(image, l), 68 * s, Zeros(68))),
                 b, Patch(Content(image, b), 68 * e, Slot(Content(image, l), s)))
  }

  /** Every slot but the last keeps its bytes, except that the hole has the last slot's. */
  lemma RemovedFromSlot(image: seq<Option<Block>>, b: nat, e: nat, l: nat, s: nat, x: nat, y: nat)
    requires b < |image| && l < |image| && x < |image| && image[b].Some? && image[l].Some? && image[x].Some?
    requires e < 7 && s < 7 && y < 7
    requires !(x == l && y == s)
    ensures var r := RemovedFrom(image, b, e, l, s);
      r[x].Some? && Slot(r[x].value, y) == if x == b && y == e then Slot(image[l].value, s) else Slot(image[x].value, y)
  {
    if x == b {
      var bytes := if b == l && e == s then Zeros(68) else Slot(image[l].value, s);
      PatchSlot(image[b].value, e, bytes, y);
    } else if x == l {
      PatchSlot(image[l].value, s, Zeros(68), y);
    }
  }

  /** The directory without entry k, which must exist. */
  function RemovedNode(n: Node, k: nat): Node {
    var last := if EntryCount(n) == 0 then 0 else EntryCount(n) - 1;
    n.(image := RemovedFrom(n.image, k / 7, k % 7, last / 7, last % 7),
       fileSize := if n.fileSize < 68 then 0 else n.fileSize - 68)
  }

  lemma RemovedNodeSlot(n: Node, k: nat, j: nat)
    requires GoodListing(n) && k < EntryCount(n) && j < EntryCount(n) - 1
    ensures var last := EntryCount(n) - 1;
      && HasSlot(n, last) && HasSlot(n, j) && HasSlot(RemovedNode(n, k), j)
      && SlotAt(RemovedNode(n, k), j) == SlotAt(n, if j == k then last else j)
  {
    hide RemovedFrom, Slot;
    var last := EntryCount(n) - 1;
    assert HasSlot(n, k) && HasSlot(n, last) && HasSlot(n, j);
    var b, e, l, s, x, y := k / 7, k % 7, last / 7, last % 7, j / 7, j % 7;
    assert j == 7 * x + y && k == 7 * b + e && last == 7 * l + s;
    RemovedFromSlot(n.image, b, e, l, s, x, y);
  }

  lemma RemovedShape(n: Node, k: nat)
    requires GoodListing(n) && k < EntryCount(n)
    ensures var r := RemovedNode(n, k);
      EntryCount(r) == EntryCount(n) - 1 <= MAX_BLOCKS * 7 && r.fileSize % 68 == 0 && |r.image| == MAX_BLOCKS
  {
    hide RemovedFrom;
  }

  lemma ListingAt(n: Node, j: nat)
    requires GoodListing(n) && j < EntryCount(n)
    ensures |Listing(n)| == EntryCount(n) && HasSlot(n, j) && Terminated(SlotAt(n, j))
      && DecodeSlot(SlotAt(n, j)) == Listing(n)[j]
  {
    hide DecodeSlot, SlotAt, Terminated;
  }

  lemma ListingIs(n: Node, es: seq<Entry>)
    requires |n.image| == MAX_BLOCKS && n.fileSize % 68 == 0 && EntryCount(n) == |es| <= MAX_BLOCKS * 7
    requires forall j :: 0 <= j < |es| ==>
      HasSlot(n, j) && Terminated(SlotAt(n, j)) && DecodeSlot(SlotAt(n, j)) == es[j]
    ensures GoodListing(n) && Listing(n) == es
  {
    hide DecodeSlot, SlotAt, Terminated;
    assert GoodListing(n);
  }

  lemma RemovedListing(n: Node, k: nat)
    requires GoodListing(n) && k < EntryCount(n)
    ensures GoodListing(RemovedNode(n, k)) && Listing(RemovedNode(n, k)) == RemoveAt(Listing(n), k)
  {
    hide RemovedNode, DecodeSlot, SlotAt, Terminated, GoodListing, Listing, HasSlot;
    var r := RemovedNode(n, k);
    RemovedShape(n, k);
    ListingAt(n, k);
    var es, last := Listing(n), EntryCount(n) - 1;
    forall j | 0 <= j < last
      ensures HasSlot(r, j) && Terminated(SlotAt(r, j)) && DecodeSlot(SlotAt(r, j)) == RemoveAt(es, k)[j]
    {
      RemovedNodeSlot(n, k, j);
      ListingAt(n, if j == k then last else j);
    }
    ListingIs(r, RemoveAt(es, k));
  }

  // ----- the tables' copies on disk -----

  function BitmapSlice(bitmap: seq<bool>, i: nat): (s: seq<bool>)
    requires |bitmap| == TOTAL_BLOCKS && i < BITMAP_BLOCKS
    ensures |s| == 4096
  {
    bitmap[4096 * i..4096 * (i + 1)]
  }

  ghost predicate BitmapCopy(bitmap: seq<bool>, disk: seq<Block>) {
    && |disk| == TOTAL_BLOCKS && |bitmap| == TOTAL_BLOCKS
    && forall i :: 0 <= i < BITMAP_BLOCKS ==> disk[BITMAP_START + i] == PackBits(BitmapSlice(bitmap, i))
  }

  /** After one bit has changed, writing the block that holds it is enough. */
  lemma BitmapCopyUpdate(bitmap: seq<bool>, disk: seq<Block>, b: nat, x: bool, d: seq<Block>)
    requires BitmapCopy(bitmap, disk) && b < TOTAL_BLOCKS
    requires d == disk[BITMAP_START + b / 4096 := PackBits(BitmapSlice(bitmap[b := x], b / 4096))]
    ensures BitmapCopy(bitmap[b := x], d)
  {
    var m := bitmap[b := x];
    forall i | 0 <= i < BITMAP_BLOCKS ensures d[BITMAP_START + i] == PackBits(BitmapSlice(m, i)) {
      if i != b / 4096 {
        assert BitmapSlice(m, i) == BitmapSlice(bitmap, i);
      }
    }
  }

  /** The piece of the inode table's bytes that goes to block i of its copy. */
  function TableSlice(inodes: seq<INode>, i: nat): (s: seq<u8>)
    requires |inodes| == MAX_FILES && Encodable(inodes) && i < TABLE_BLOCKS
    ensures |s| == 512
  {
    EncodeTable(inodes)[512 * i..512 * (i + 1)]
  }

  ghost predicate InodeCopy(inodes: seq<INode>, disk: seq<Block>) {
    && |disk| == TOTAL_BLOCKS && |inodes| == MAX_FILES && Encodable(inodes)
    && forall i :: 0 <= i < TABLE_BLOCKS ==> disk[TABLE_START + i] == TableSlice(inodes, i)
  }

  /** The first n blocks of a region, as one run of bytes. */
  function Region(disk: seq<Block>, start: nat, n: nat): (s: seq<u8>)
    requires start + n <= |disk|
    ensures |s| == 512 * n
  {
    if n == 0 then [] else Region(disk, start, n - 1) + disk[start + n - 1]
  }

  lemma {:induction false} RegionOfTable(inodes: seq<INode>, disk: seq<Block>, n: nat)
    requires InodeCopy(inodes, disk) && n <= TABLE_BLOCKS
    ensures Region(disk, TABLE_START, n) == EncodeTable(inodes)[..512 * n]
  {
    if n > 0 {
      RegionOfTable(inodes, disk, n - 1);
      assert disk[TABLE_START + (n - 1)] == TableSlice(inodes, n - 1);
    }
  }

  lemma {:induction false} RegionOfBitmap(bitmap: seq<bool>, disk: seq<Block>, n: nat)
    requires BitmapCopy(bitmap, disk) && n <= BITMAP_BLOCKS
    ensures UnpackBits(Region(disk, BITMAP_START, n)) == bitmap[..4096 * n]
  {
    if n > 0 {
      RegionOfBitmap(bitmap, disk, n - 1);
      var s := BitmapSlice(bitmap, n - 1);
      assert disk[BITMAP_START + (n - 1)] == PackBits(s);
      BitsRoundTrip(s);
      UnpackAppend(Region(disk, BITMAP_START, n - 1), PackBits(s));
    }
  }

  lemma {:induction false} UnpackAppend(s: seq<u8>, t: seq<u8>)
    ensures UnpackBits(s + t) == UnpackBits(s) + UnpackBits(t)
  {
    if s == [] {
      assert s + t == t;
    } else {
      assert (s + t)[1..] == s[1..] + t;
      UnpackAppend(s[1..], t);
    }
  }

  lemma EncodableInodes(inodes: seq<INode>, bitmap: seq<bool>)
    requires AllocInv(inodes, bitmap)
    ensures Encodable(inodes)
    ensures forall i :: 0 <= i < |inodes| ==> FitsInode(inodes[i])
  {
    forall i | 0 <= i < |inodes| ensures FitsInode(inodes[i]) {
      assert GoodInode(inodes[i], bitmap);
      forall k | 0 <= k < MAX_BLOCKS ensures inodes[i].blocks[k] < 0x1_0000_0000 {
      }
    }
  }

  /** The copies determine the tables: what loading reads back is what was flushed. */
  lemma CopiesDetermineTables(inodes: seq<INode>, bitmap: seq<bool>, disk: seq<Block>)
    requires AllocInv(inodes, bitmap) && InodeCopy(inodes, disk) && BitmapCopy(bitmap, disk)
    ensures DecodeTable(Region(disk, TABLE_START, TABLE_BLOCKS)) == inodes
    ensures UnpackBits(Region(disk, BITMAP_START, BITMAP_BLOCKS)) == bitmap
  {
    EncodableInodes(inodes, bitmap);
    RegionOfTable(inodes, disk, TABLE_BLOCKS);
    assert EncodeTable(inodes)[..512 * TABLE_BLOCKS] == EncodeTable(inodes);
    TableRoundTrip(inodes);
    RegionOfBitmap(bitmap, disk, BITMAP_BLOCKS);
    assert bitmap[..4096 * BITMAP_BLOCKS] == bitmap;
  }
}
