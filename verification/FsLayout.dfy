/** The on-disk format: block geography, directory slots, the inode table and the bitmap as bytes. */
module FsLayout {
  import opened Bytes
  import opened TwosComplement

  const BLOCK_SIZE: nat := 512
  const TOTAL_BLOCKS: nat := 204800
  const SUPERBLOCK: nat := 400
  const MAX_BLOCKS: nat := 64
  const MAX_FILES: nat := 128
  const NAME_BYTES: nat := 64
  /** sizeof(DirectoryEntry): a 32-bit inode number and the name field. */
  const ENTRY_SIZE: nat := 68
  const ENTRIES_PER_BLOCK: nat := 7
  /** sizeof(INode) with its padding. */
  const INODE_SIZE: nat := 272
  const TABLE_START: nat := 401
  const TABLE_BLOCKS: nat := 68
  const BITMAP_START: nat := 469
  const BITMAP_BLOCKS: nat := 50
  /** The first block that is not part of the file system's own tables. */
  const DATA_START: nat := 519
  const BITS_PER_BLOCK: nat := 4096

  type Block = b: seq<u8> | |b| == 512 witness seq(512, _ => 0 as u8)
  type Name = seq<u8>

  datatype FileType = File | Directory
  datatype INode = INode(kind: FileType, fileSize: nat, blocks: seq<nat>, isUsed: bool, parent: nat)
  datatype Entry = Entry(inode: nat, name: Name)

  const DOT: Name := [46]
  const DOTDOT: Name := [46, 46]

  function Zeros(n: nat): (z: seq<u8>)
    ensures |z| == n && forall i :: 0 <= i < n ==> z[i] == 0
  {
    seq(n, _ => 0)
  }

  // ----- C strings -----

  /** What strcmp and strlen see in a buffer: the bytes before the first NUL. */
  function CString(s: seq<u8>): (c: seq<u8>)
    ensures |c| <= |s| && 0 !in c
    ensures c == s[..|c|]
    ensures |c| < |s| ==> s[|c|] == 0
  {
    if s == [] || s[0] == 0 then []
    else
      var c := CString(s[1..]);
      assert s[..|c| + 1] == [s[0]] + s[1..][..|c|];
      [s[0]] + c
  }

  lemma CStringOfPadded(name: seq<u8>, n: nat)
    requires 0 !in name && n >= 1
    ensures CString(name + Zeros(n)) == name
  {
    var s := name + Zeros(n);
    var c := CString(s);
    assert s[|name|] == 0;
    assert forall i :: 0 <= i < |name| ==> s[i] == name[i] && name[i] in name;
    assert |c| == |name|;
    assert s[..|name|] == name;
  }

  /** A name as callers pass it, which C ends with a zero byte. */
  predicate IsString(name: Name) {
    0 !in name
  }

  /** A name as a slot can hold it. */
  predicate ValidName(name: Name) {
    0 !in name && |name| < NAME_BYTES
  }

  /** What a slot keeps of a name: its first 63 bytes. */
  function Kept(name: Name): (k: Name)
    ensures IsString(name) ==> ValidName(k)
    ensures |name| < NAME_BYTES ==> k == name
  {
    if |name| < NAME_BYTES then name else name[..NAME_BYTES - 1]
  }

  // ----- directory slots -----

  function SlotBytes(e: Entry): (s: seq<u8>)
    requires |e.name| <= NAME_BYTES
    ensures |s| == 68
  {
    LeBytes(e.inode, 4) + e.name + Zeros(NAME_BYTES - |e.name|)
  }

  function Slot(b: Block, k: nat): (s: seq<u8>)
    requires k < 7
    ensures |s| == 68
  {
    b[68 * k..68 * k + 68]
  }

  function DecodeSlot(s: seq<u8>): Entry
    requires |s| == 68
  {
    Entry(LeVal(s[..4]), CString(s[4..]))
  }

  lemma SlotRoundTrip(e: Entry)
    requires ValidName(e.name) && e.inode < 0x1_0000_0000
    ensures DecodeSlot(SlotBytes(e)) == e
  {
    var s := SlotBytes(e);
    assert s[..4] == LeBytes(e.inode, 4);
    assert s[4..] == e.name + Zeros(NAME_BYTES - |e.name|);
    Pow2Values();
    LeValOfBytes(e.inode, 4);
    CStringOfPadded(e.name, NAME_BYTES - |e.name|);
  }

  /** Overwriting part of a block, as memcpy does. */
  function Patch(b: Block, at: nat, bytes: seq<u8>): Block
    requires at + |bytes| <= 512
  {
    b[..at] + bytes + b[at + |bytes|..]
  }

  lemma PatchSlot(b: Block, k: nat, bytes: seq<u8>, j: nat)
    requires k < 7 && j < 7 && |bytes| == 68
    ensures Slot(Patch(b, 68 * k, bytes), j) == if j == k then bytes else Slot(b, j)
  {
    var p := Patch(b, 68 * k, bytes);
    assert forall i :: 0 <= i < 512 ==> p[i] == if 68 * k <= i < 68 * k + 68 then bytes[i - 68 * k] else b[i];
    var s, t := Slot(p, j), if j == k then bytes else Slot(b, j);
    assert forall i :: 0 <= i < 68 ==> s[i] == p[68 * j + i];
    assert s == t;
  }

  // ----- the superblock -----

  const MAGIC_NUMBER: nat := 0x4F42_4653

  /** The k-th 32-bit word of a block. */
  function Word(b: Block, k: nat): nat
    requires k < 128
  {
    LeVal(b[4 * k..4 * k + 4])
  }

  /** The free count as formatting writes it, before the root directory exists and one block too high.
      Nothing writes the superblock again. */
  const STALE_COUNT: nat := 204282

  /** The magic number, the free count of the formatting and where the tables are; word 2 is the total count. */
  ghost predicate SuperblockSound(b: Block) {
    && Word(b, 0) == MAGIC_NUMBER && Word(b, 1) == STALE_COUNT && Word(b, 3) == TABLE_START
    && Word(b, 4) == TABLE_BLOCKS
    && Word(b, 5) == BITMAP_START && Word(b, 6) == BITMAP_BLOCKS
  }

  // ----- the inode table -----

  ghost predicate FitsInode(n: INode) {
    && |n.blocks| == MAX_BLOCKS
    && n.fileSize < 0x1_0000_0000 && n.parent < 0x1_0000_0000
    && forall k :: 0 <= k < MAX_BLOCKS ==> n.blocks[k] < 0x1_0000_0000
  }

  function EncodeWords(ws: seq<nat>): (s: seq<u8>)
    ensures |s| == 4 * |ws|
  {
    if ws == [] then [] else LeBytes(ws[0], 4) + EncodeWords(ws[1..])
  }

  function DecodeWords(s: seq<u8>): (ws: seq<nat>)
    requires |s| % 4 == 0
    ensures 4 * |ws| == |s|
  {
    if s == [] then [] else [LeVal(s[..4])] + DecodeWords(s[4..])
  }

  lemma {:induction false} WordsRoundTrip(ws: seq<nat>)
    requires forall k :: 0 <= k < |ws| ==> ws[k] < 0x1_0000_0000
    ensures DecodeWords(EncodeWords(ws)) == ws
  {
    if ws != [] {
      var s := EncodeWords(ws);
      assert s[..4] == LeBytes(ws[0], 4);
      assert s[4..] == EncodeWords(ws[1..]);
      Pow2Values();
      LeValOfBytes(ws[0], 4);
      WordsRoundTrip(ws[1..]);
    }
  }

  function EncodeINode(n: INode): (s: seq<u8>)
    requires |n.blocks| == MAX_BLOCKS
    ensures |s| == 272
  {
    EncodeWords([if n.kind == File then 0 else 1, n.fileSize] + n.blocks + [if n.isUsed then 1 else 0, n.parent])
  }

  function DecodeINode(s: seq<u8>): INode
    requires |s| == 272
  {
    var ws := DecodeWords(s);
    INode(if ws[0] == 0 then File else Directory, ws[1], ws[2..66], ws[66] != 0, ws[67])
  }

  lemma INodeRoundTrip(n: INode)
    requires FitsInode(n)
    ensures DecodeINode(EncodeINode(n)) == n
  {
    var ws := [if n.kind == File then 0 else 1, n.fileSize] + n.blocks + [if n.isUsed then 1 else 0, n.parent];
    WordsRoundTrip(ws);
    assert ws[2..66] == n.blocks;
  }

  ghost predicate Encodable(t: seq<INode>) {
    forall i :: 0 <= i < |t| ==> |t[i].blocks| == MAX_BLOCKS
  }

  function EncodeTable(t: seq<INode>): (s: seq<u8>)
    requires Encodable(t)
    ensures |s| == 272 * |t|
  {
    if t == [] then [] else EncodeINode(t[0]) + EncodeTable(t[1..])
  }

  function DecodeTable(s: seq<u8>): seq<INode>
    requires |s| % 272 == 0
  {
    if s == [] then [] else [DecodeINode(s[..272])] + DecodeTable(s[272..])
  }

  lemma {:induction false} TableRoundTrip(t: seq<INode>)
    requires forall i :: 0 <= i < |t| ==> FitsInode(t[i])
    ensures Encodable(t) && DecodeTable(EncodeTable(t)) == t
  {
    if t != [] {
      var s := EncodeTable(t);
      assert s[..272] == EncodeINode(t[0]);
      assert s[272..] == EncodeTable(t[1..]);
      INodeRoundTrip(t[0]);
      TableRoundTrip(t[1..]);
    }
  }

  // ----- the bitmap -----

  function BitValue(b: bool): int {
    if b then 1 else 0
  }

  /** Bit i % 8 of byte i / 8 is bit i of the map. */
  function PackBits(bits: seq<bool>): (s: seq<u8>)
    requires |bits| % 8 == 0
    ensures 8 * |s| == |bits|
  {
    if bits == [] then [] else [PackByte(bits[..8])] + PackBits(bits[8..])
  }

  function BitsValue(bits: seq<bool>): (v: nat)
    ensures v < Pow2(|bits|)
  {
    if bits == [] then 0 else BitValue(bits[0]) + 2 * BitsValue(bits[1..])
  }

  function ValueBits(v: nat, n: nat): (bits: seq<bool>)
    ensures |bits| == n
    decreases n, v
  {
    if n == 0 then [] else [v % 2 == 1] + ValueBits(v / 2, n - 1)
  }

  function PackByte(bits: seq<bool>): u8
    requires |bits| == 8
  {
    Pow2Values();
    BitsValue(bits) as u8
  }

  function UnpackByte(b: u8): (bits: seq<bool>)
    ensures |bits| == 8
  {
    ValueBits(b as int, 8)
  }

  function UnpackBits(s: seq<u8>): (bits: seq<bool>)
    ensures |bits| == 8 * |s|
  {
    if s == [] then [] else UnpackByte(s[0]) + UnpackBits(s[1..])
  }

  lemma {:induction false} ByteRoundTrip(bits: seq<bool>)
    ensures ValueBits(BitsValue(bits), |bits|) == bits
  {
    if bits != [] {
      ByteRoundTrip(bits[1..]);
      assert bits == [bits[0]] + bits[1..];
    }
  }

  lemma {:induction false} BitsRoundTrip(bits: seq<bool>)
    requires |bits| % 8 == 0
    ensures UnpackBits(PackBits(bits)) == bits
  {
    if bits != [] {
      ByteRoundTrip(bits[..8]);
      assert PackBits(bits)[1..] == PackBits(bits[8..]);
      BitsRoundTrip(bits[8..]);
      assert bits == bits[..8] + bits[8..];
    }
  }

  function ClearBits(bits: seq<bool>): (n: nat)
    ensures n <= |bits|
  {
    if bits == [] then 0 else ClearBits(bits[..|bits| - 1]) + (if bits[|bits| - 1] then 0 else 1)
  }

  lemma {:induction false} ClearBitsUpdate(bits: seq<bool>, i: nat, x: bool)
    requires i < |bits|
    ensures ClearBits(bits[i := x]) == ClearBits(bits) + BitValue(bits[i]) - BitValue(x)
  {
    var n := |bits| - 1;
    if i == n {
      assert bits[i := x][..n] == bits[..n];
    } else {
      assert bits[i := x][..n] == bits[..n][i := x];
      ClearBitsUpdate(bits[..n], i, x);
    }
  }

  /** The first clear bit, or the length when there is none. */
  function Lowest(bits: seq<bool>): (n: nat)
    ensures n <= |bits| && (n < |bits| ==> !bits[n]) && forall j :: 0 <= j < n ==> bits[j]
  {
    if bits == [] || !bits[0] then 0 else Lowest(bits[1..]) + 1
  }

  /** The map after the c lowest clear bits are set. */
  function Take(bits: seq<bool>, c: nat): (r: seq<bool>)
    ensures |r| == |bits|
  {
    if c == 0 then bits
    else
      var m := Take(bits, c - 1);
      if Lowest(m) < |m| then m[Lowest(m) := true] else m
  }

  lemma {:induction false} ClearBitsZero(bits: seq<bool>)
    ensures ClearBits(bits) == 0 <==> forall i :: 0 <= i < |bits| ==> bits[i]
  {
    if bits != [] {
      ClearBitsZero(bits[..|bits| - 1]);
    }
  }
}
