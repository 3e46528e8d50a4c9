/** Where everything lies on the disk, byte for byte. */
module FsOnDisk {
  import opened Bytes
  import opened TwosComplement
  import opened Options
  import opened FsLayout
  import opened FsTree
  import opened FsVolume
  import opened FsState
  import opened FsOps
  import opened FsData

  /** The 32-bit number whose lowest byte is at the given place. */
  function Number(s: seq<u8>, at: nat): nat
    requires at + 4 <= |s|
  {
    s[at] as int + 256 * s[at + 1] as int + 65536 * s[at + 2] as int + 16777216 * s[at + 3] as int
  }

  lemma NumberAt(s: seq<u8>, at: nat, v: nat)
    requires at + 4 <= |s| && v < 0x1_0000_0000 && s[at..at + 4] == LeBytes(v, 4)
    ensures Number(s, at) == v
  {
    hide LeBytes;
    var w := s[at..at + 4];
    Pow2Values();
    LeValOfBytes(v, 4);
    assert w[1..][1..] == w[2..] && w[2..][1..] == w[3..] && w[3..][1..] == [];
    assert LeVal(w[3..]) == w[3] as int;
    assert LeVal(w[2..]) == w[2] as int + 256 * LeVal(w[3..]);
    assert LeVal(w[1..]) == w[1] as int + 256 * LeVal(w[2..]);
  }

  // ----- directory slots -----

  /** A slot starts with the inode number; the name follows, and zeros after it. */
  lemma SlotLayout(e: Entry, x: nat)
    requires ValidName(e.name) && e.inode < 0x1_0000_0000 && x < 64
    ensures Number(SlotBytes(e), 0) == e.inode
    ensures SlotBytes(e)[4 + x] == if x < |e.name| then e.name[x] else 0
  {
    hide LeBytes;
    var s := SlotBytes(e);
    assert s[0..4] == LeBytes(e.inode, 4);
    NumberAt(s, 0, e.inode);
  }

  // ----- the inode table -----

  lemma {:induction false} WordPlace(ws: seq<nat>, k: nat)
    requires k < |ws|
    ensures EncodeWords(ws)[4 * k..4 * k + 4] == LeBytes(ws[k], 4)
  {
    hide LeBytes;
    var s := EncodeWords(ws);
    if k > 0 {
      assert s[4..] == EncodeWords(ws[1..]);
      WordPlace(ws[1..], k - 1);
      assert s[4 * k..4 * k + 4] == s[4..][4 * (k - 1)..4 * (k - 1) + 4];
    }
  }

  /** An inode is 68 numbers: its kind, its size, its 64 blocks, whether it is in use, its parent. */
  lemma INodeLayout(n: INode, k: nat)
    requires FitsInode(n) && k < 64
    ensures var s := EncodeINode(n);
      && Number(s, 0) == (if n.kind == File then 0 else 1) && Number(s, 4) == n.fileSize
      && Number(s, 8 + 4 * k) == n.blocks[k]
      && Number(s, 264) == (if n.isUsed then 1 else 0) && Number(s, 268) == n.parent
  {
    hide LeBytes, EncodeWords;
    var ws := [if n.kind == File then 0 else 1, n.fileSize] + n.blocks + [if n.isUsed then 1 else 0, n.parent];
    WordNumber(ws, 0);
    WordNumber(ws, 1);
    WordNumber(ws, 2 + k);
    WordNumber(ws, 66);
    WordNumber(ws, 67);
  }

  lemma WordNumber(ws: seq<nat>, k: nat)
    requires k < |ws| && ws[k] < 0x1_0000_0000
    ensures Number(EncodeWords(ws), 4 * k) == ws[k]
  {
    hide LeBytes, EncodeWords, Number;
    WordPlace(ws, k);
    NumberAt(EncodeWords(ws), 4 * k, ws[k]);
  }

  lemma {:induction false} INodePlace(t: seq<INode>, i: nat)
    requires Encodable(t) && i < |t|
    ensures EncodeTable(t)[272 * i..272 * i + 272] == EncodeINode(t[i])
  {
    hide EncodeINode;
    var s := EncodeTable(t);
    if i > 0 {
      assert s[272..] == EncodeTable(t[1..]);
      INodePlace(t[1..], i - 1);
      assert s[272 * i..272 * i + 272] == s[272..][272 * (i - 1)..272 * (i - 1) + 272];
    }
  }

  /** Between operations byte x of inode i is byte 272 * i + x of the blocks from 401 on. */
  lemma INodeOnDisk(s: State, i: nat, x: nat)
    requires Usable(s) && i < 128 && x < 272
    ensures |s.disk| == 204800 && |s.inodes| == 128 && |s.inodes[i].blocks| == 64
    ensures s.disk[401 + (272 * i + x) / 512][(272 * i + x) % 512] == EncodeINode(s.inodes[i])[x]
  {
    hide EncodeINode, EncodeTable, Consistent, AllList, Tree;
    var at, table := 272 * i + x, EncodeTable(s.inodes);
    INodePlace(s.inodes, i);
    assert s.disk[TABLE_START + at / 512] == TableSlice(s.inodes, at / 512);
    assert table[272 * i..272 * i + 272][x] == table[at];
  }

  // ----- the bitmap -----

  lemma {:induction false} BitPlace(bits: seq<bool>, k: nat)
    requires k < |bits|
    ensures BitsValue(bits) / Pow2(k) % 2 == BitValue(bits[k])
  {
    var p := Pow2(k);
    if k == 0 {
      assert BitsValue(bits) / 1 == BitsValue(bits);
    } else {
      hide Pow2, BitsValue;
      BitPlace(bits[1..], k - 1);
      BitsShift(bits);
      Doubles(k - 1);
      HalfOf(BitsValue(bits), Pow2(k - 1));
    }
  }

  lemma BitsShift(bits: seq<bool>)
    requires bits != []
    ensures BitsValue(bits) / 2 == BitsValue(bits[1..])
  {
  }

  lemma Doubles(k: nat)
    ensures Pow2(k + 1) == 2 * Pow2(k)
  {
  }

  lemma HalfOf(v: nat, p: nat)
    requires p > 0
    ensures v / (2 * p) == v / 2 / p
  {
    var h, q := v / 2, v / 2 / p;
    assert h == p * q + h % p;
    assert v == 2 * p * q + (2 * (h % p) + v % 2);
    assert 2 * p * q == 2 * (p * q);
    DivModUnique(v, 2 * p, q, 2 * (h % p) + v % 2);
  }

  lemma {:induction false} BytePlace(bits: seq<bool>, b: nat)
    requires |bits| % 8 == 0 && b < |bits|
    ensures PackBits(bits)[b / 8] == PackByte(bits[b / 8 * 8..b / 8 * 8 + 8])
  {
    hide PackByte;
    if b >= 8 {
      assert PackBits(bits)[1..] == PackBits(bits[8..]);
      BytePlace(bits[8..], b - 8);
      assert bits[8..][(b - 8) / 8 * 8..(b - 8) / 8 * 8 + 8] == bits[b / 8 * 8..b / 8 * 8 + 8];
    }
  }

  lemma PackedBit(bits: seq<bool>, b: nat)
    requires |bits| % 8 == 0 && b < |bits|
    ensures PackBits(bits)[b / 8] as int / Pow2(b % 8) % 2 == BitValue(bits[b])
  {
    hide PackBits, BitsValue, Pow2;
    BytePlace(bits, b);
    BitPlace(bits[b / 8 * 8..b / 8 * 8 + 8], b % 8);
  }

  /** Between operations block b's bit is bit b % 8 of byte b / 8 of the blocks from 469 on. */
  lemma BitOnDisk(s: State, b: nat)
    requires Usable(s) && b < 204800
    ensures |s.disk| == 204800 == |s.bitmap|
    ensures s.disk[469 + b / 4096][b % 4096 / 8] as int / Pow2(b % 8) % 2 == BitValue(s.bitmap[b])
  {
    hide PackBits, InodeCopy, AllocInv, AllList, Tree, Pow2, BitValue;
    var bits := BitmapSlice(s.bitmap, b / 4096);
    assert s.disk[BITMAP_START + b / 4096] == PackBits(bits);
    CopiedBit(bits, b % 4096);
    Eighth(b);
  }

  lemma Eighth(b: nat)
    ensures b % 4096 % 8 == b % 8 && 4096 * (b / 4096) + b % 4096 == b
  {
  }

  lemma CopiedBit(bits: seq<bool>, b: nat)
    requires |bits| == 4096 && b < 4096
    ensures PackBits(bits)[b / 8] as int / Pow2(b % 8) % 2 == BitValue(bits[b])
  {
    PackedBit(bits, b);
  }

  // ----- contents -----

  /** Byte x of what is written lies in block x / 512 of its file at x % 512, and the rest of the last block is zero. */
  lemma WrittenBytes(s0: State, i: nat, data: seq<u8>, w: nat, s: State, x: nat)
    requires WrittenBy(s0, i, data, w, s) && x / 512 * 512 < w
    ensures x / 512 < |Nodes(s)[i].image| && Nodes(s)[i].image[x / 512].Some?
    ensures Nodes(s)[i].image[x / 512].value[x % 512] == if x < |data| then data[x] else 0
  {
    hide Usable, Tree, Nodes, ClearBits, Lacking;
  }

  /** Byte x of what is read comes from block x / 512 at x % 512. */
  lemma {:induction false} ReadByte(image: seq<Option<Block>>, b: nat, size: nat, x: nat)
    requires x < |ReadFrom(image, b, size)|
    ensures b + x / 512 < |image| && image[b + x / 512].Some?
    ensures ReadFrom(image, b, size)[x] == image[b + x / 512].value[x % 512]
    decreases x
  {
    if x >= 512 {
      ReadByte(image, b + 1, size - 512, x - 512);
      BlockBefore(x);
    }
  }

  lemma BlockBefore(x: nat)
    requires x >= 512
    ensures (x - 512) / 512 == x / 512 - 1 && (x - 512) % 512 == x % 512
  {
  }

  /** A read ends early only at a missing block. */
  lemma {:induction false} ReadEnds(image: seq<Option<Block>>, b: nat, size: nat)
    requires |ReadFrom(image, b, size)| < size
    ensures var n := |ReadFrom(image, b, size)|;
      n % 512 == 0 && (b + n / 512 >= |image| || image[b + n / 512].None?)
    decreases |image| - b
  {
    if b < |image| && image[b].Some? && size > 512 {
      ReadEnds(image, b + 1, size - 512);
      BlockBefore(|ReadFrom(image, b, size)|);
    }
  }
}
