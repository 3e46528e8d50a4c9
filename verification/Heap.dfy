/** The first-fit allocator over a linked list of headers kept in the heap's own memory. */
module KernelHeap {
  import opened Bytes
  import opened HeapLayout

  const HEAP_PHYSICAL_START: nat := 0x0080_0000
  const HEAP_PHYSICAL_END: nat := 0x0100_0000
  const USER_HEAP_START: nat := 0x4060_0000
  const USER_HEAP_END: nat := 0x40A0_0000

  /** struct HeapBlock; a next of 0 is NULL. */
  datatype Header = Header(size: nat, free: bool, next: nat)

  /** What a caller does: ask for some bytes, or give back the k-th live payload. */
  datatype Request = Take(size: nat) | Give(k: nat)

  class Heap {
    const start: nat
    const end: nat
    /** The headers, by address. */
    var headers: map<nat, Header>
    const firstBlock: nat
    /** The bytes of the heap; byte 0 is at `start`. Headers are kept apart, in `headers`. */
    const bytes: array<u8>
    /** The row the list stands for. */
    ghost var blocks: seq<Block>

    /** The list visits exactly the blocks of the row, in order. */
    ghost predicate Linked()
      reads this
    {
      forall i :: 0 <= i < |blocks| ==>
        blocks[i].addr in headers
        && headers[blocks[i].addr] == Header(blocks[i].size, blocks[i].free, NextOf(blocks, i))
    }

    static function NextOf(bs: seq<Block>, i: nat): nat {
      if i + 1 < |bs| then bs[i + 1].addr else 0
    }

    /** Everything but the merging of neighbours. */
    ghost predicate Sound()
      reads this
    {
      && 32 <= start < end <= 0x1_0000_0000 && start % 16 == 0 && firstBlock == start
      && bytes.Length == end - start
      && Tiled(blocks, start, end) && Linked()
    }

    ghost predicate Valid()
      reads this
    {
      Sound() && NoAdjacentFree(blocks)
    }

    constructor (start: nat, end: nat)
      requires 32 <= start < end <= 0x1_0000_0000 && start % 16 == 0 && end % 16 == 0
      ensures Valid() && blocks == [Block(start, end - start, true)]
      ensures this.start == start && this.end == end && fresh(bytes)
    {
      this.start, this.end, firstBlock := start, end, start;
      bytes := new u8[end - start];
      headers := map[start := Header(end - start, true, 0)];
      blocks := [Block(start, end - start, true)];
      OneBlock(start, end);
    }

    /** Walks the list for the first free block of at least this size; 0 when there is none. */
    method FindFreeBlock(size: nat) returns (current: nat)
      requires Sound()
      ensures current == 0 <==> FirstFit(blocks, size) == |blocks|
      ensures current != 0 ==> current == blocks[FirstFit(blocks, size)].addr
    {
      current := firstBlock;
      ghost var k := 0;
      TiledAt(blocks, start, end, 0);
      while current != 0
        invariant k <= |blocks| && (current == 0 <==> k == |blocks|)
        invariant k < |blocks| ==> current == blocks[k].addr
        invariant forall j :: 0 <= j < k ==> !(blocks[j].free && blocks[j].size >= size)
        decreases |blocks| - k
      {
        assert headers[current] == Header(blocks[k].size, blocks[k].free, NextOf(blocks, k));
        if headers[current].free && headers[current].size >= size {
          return;
        }
        k := k + 1;
        if k < |blocks| {
          TiledAt(blocks, start, end, k);
        }
        current := headers[current].next;
      }
    }

    /** Splits off what the request does not need, when a header and 16 bytes fit there. */
    method SplitBlock(block: nat, size: nat, ghost i: nat)
      requires Sound() && i < |blocks| && block == blocks[i].addr && blocks[i].size >= size > 0 && size % 16 == 0
      modifies this`headers, this`blocks
      ensures Sound() && blocks == old(blocks)[..i] + SplitOff(old(blocks)[i], size) + old(blocks)[i + 1..]
    {
      hide Tiled;
      ghost var bs := blocks;
      assert headers[block] == Header(bs[i].size, bs[i].free, NextOf(bs, i));
      TiledAt(bs, start, end, i);
      if headers[block].size >= size + HEADER_SIZE + ALIGN_SIZE {
        var rest := block + size;
        headers := headers[rest := Header(headers[block].size - size, true, headers[block].next)];
        headers := headers[block := headers[block].(size := size)];
        headers := headers[block := headers[block].(next := rest)];
        blocks := bs[..i] + SplitOff(bs[i], size) + bs[i + 1..];
        SplitTiles(bs, i, size, start, end);
        forall j | 0 <= j < |blocks|
          ensures blocks[j].addr in headers
            && headers[blocks[j].addr] == Header(blocks[j].size, blocks[j].free, NextOf(blocks, j))
        {
          SplitEntry(bs, i, size, start, end, j);
        }
      } else {
        assert blocks == bs[..i] + SplitOff(bs[i], size) + bs[i + 1..];
      }
    }

    static function SplitOff(b: Block, size: nat): seq<Block>
      requires b.size >= size
    {
      if b.size >= size + HEADER_SIZE + ALIGN_SIZE
      then [b.(size := size), Block(b.addr + size, b.size - size, true)]
      else [b]
    }

    static lemma SplitTiles(bs: seq<Block>, i: nat, size: nat, start: nat, end: nat)
      requires Tiled(bs, start, end) && i < |bs| && bs[i].size >= size > 0 && size % 16 == 0
      ensures Tiled(bs[..i] + SplitOff(bs[i], size) + bs[i + 1..], start, end)
    {
      assert bs == bs[..i] + bs[i..];
      var mid := TiledSplit(bs[..i], bs[i..], start, end);
      var c := SplitOff(bs[i], size);
      assert bs[i..][1..] == bs[i + 1..];
      assert Tiled(c, mid, mid + bs[i].size) by {
        if |c| > 1 {
          assert c[1..][1..] == [];
        } else {
          assert c[1..] == [];
        }
      }
      TiledJoin(bs[..i], c, start, mid, mid + bs[i].size);
      TiledJoin(bs[..i] + c, bs[i + 1..], start, mid + bs[i].size, end);
    }

    /** Which old block each block of the split row is, and that its address is not reused. */
    static lemma SplitEntry(bs: seq<Block>, i: nat, size: nat, start: nat, end: nat, j: nat)
      requires Tiled(bs, start, end) && i < |bs| && bs[i].size >= size + 28 && size > 0
      requires j <= |bs|
      ensures var r := bs[..i] + SplitOff(bs[i], size) + bs[i + 1..];
        && |r| == |bs| + 1
        && (j < i ==>
          r[j] == bs[j] && NextOf(r, j) == NextOf(bs, j) && r[j].addr != bs[i].addr && r[j].addr != bs[i].addr + size)
        && (j > i + 1 ==>
          r[j] == bs[j - 1] && NextOf(r, j) == NextOf(bs, j - 1) && r[j].addr != bs[i].addr
          && r[j].addr != bs[i].addr + size)
        && r[i] == bs[i].(size := size) && NextOf(r, i) == bs[i].addr + size
        && r[i + 1] == Block(bs[i].addr + size, bs[i].size - size, true) && NextOf(r, i + 1) == NextOf(bs, i)
    {
      if j < i {
        TiledApart(bs, start, end, j, i);
        TiledAt(bs, start, end, j);
      } else if j > i + 1 {
        TiledApart(bs, start, end, i, j - 1);
      }
    }

    /** The part kmalloc and umalloc share: the address of a live block that holds the request, or 0. */
    method Allocate(size: nat) returns (block: nat)
      requires Valid() && 0 < size && size + 27 < 0x1_0000_0000
      modifies this`headers, this`blocks
      ensures Valid()
      ensures block == 0 <==> FirstFit(old(blocks), TotalSize(size)) == |old(blocks)|
      ensures block == 0 ==> blocks == old(blocks)
      ensures block != 0 ==> Took(old(blocks), TotalSize(size), block, blocks)
    {
      TotalSizeFits(size);
      var total := TotalSize(size);
      ghost var bs, i := blocks, FirstFit(blocks, total);
      block := FindFreeBlock(total);
      if block == 0 {
        return;
      }
      SplitBlock(block, total, i);
      SplitThenTaken(bs, i, total);
      SetFree(block, false, i);
      AllocatedKeeps(bs, i, total, start, end);
    }

    static lemma SplitThenTaken(bs: seq<Block>, i: nat, total: nat)
      requires i < |bs| && bs[i].size >= total
      ensures var mid := bs[..i] + SplitOff(bs[i], total) + bs[i + 1..];
        i < |mid| && mid[i].addr == bs[i].addr && mid[i := mid[i].(free := false)] == Allocated(bs, i, total)
    {
    }

    /** Writes the free flag of one header. */
    method SetFree(block: nat, flag: bool, ghost i: nat)
      requires Sound() && i < |blocks| && block == blocks[i].addr
      modifies this`headers, this`blocks
      ensures Sound() && blocks == old(blocks)[i := old(blocks)[i].(free := flag)]
    {
      hide Tiled;
      ghost var bs := blocks;
      assert headers[block] == Header(bs[i].size, bs[i].free, NextOf(bs, i));
      headers := headers[block := headers[block].(free := flag)];
      blocks := bs[i := bs[i].(free := flag)];
      FlagKeepsTiling(bs, i, flag, start, end);
      forall j | 0 <= j < |blocks|
        ensures blocks[j].addr in headers
          && headers[blocks[j].addr] == Header(blocks[j].size, blocks[j].free, NextOf(blocks, j))
      {
        if j < i {
          TiledApart(bs, start, end, j, i);
          TiledAt(bs, start, end, j);
        } else if j > i {
          TiledApart(bs, start, end, i, j);
          TiledAt(bs, start, end, i);
        }
      }
    }

    /** The first block that fits has been carved. */
    static ghost predicate Took(bs: seq<Block>, total: nat, block: nat, after: seq<Block>) {
      var i := FirstFit(bs, total);
      i < |bs| && block == bs[i].addr && after == Allocated(bs, i, total)
    }

    /** Clears n bytes from a place in the heap on. */
    method Memset(from: nat, n: nat)
      requires from + n <= bytes.Length
      modifies bytes
      ensures forall j :: 0 <= j < bytes.Length ==> bytes[j] == if from <= j < from + n then 0 else old(bytes[j])
    {
      for k := 0 to n
        invariant forall j :: 0 <= j < bytes.Length ==> bytes[j] == if from <= j < from + k then 0 else old(bytes[j])
      {
        bytes[from + k] := 0;
      }
    }

    /** Allocates from the kernel heap and clears the whole payload; NULL when no free block is large enough. */
    method KMalloc(size: nat) returns (ptr: nat)
      requires Valid() && size + 27 < 0x1_0000_0000
      modifies this`headers, this`blocks, bytes
      ensures Valid()
      ensures ptr == 0 <==> size == 0 || FirstFit(old(blocks), TotalSize(size)) == |old(blocks)|
      ensures ptr == 0 <==>
        size == 0 || !exists j :: 0 <= j < |old(blocks)| && old(blocks)[j].free && old(blocks)[j].size >= size + 12
      ensures ptr == 0 ==> blocks == old(blocks) && bytes[..] == old(bytes[..])
      ensures ptr != 0 ==> ptr >= 12 && Took(old(blocks), TotalSize(size), ptr - 12, blocks)
      ensures ptr != 0 ==> Cleared(FirstFit(old(blocks), TotalSize(size)), old(bytes[..]))
    {
      hide Tiled, NoAdjacentFree, TotalSize, FirstFit, Allocated;
      if size <= 0 {
        return 0;
      }
      ghost var i := FirstFit(blocks, TotalSize(size));
      FirstFitIs(blocks, size, start, end);
      if i < |blocks| {
        TakenShape(blocks, size, start, end);
      }
      var block := Allocate(size);
      if block == 0 {
        return 0;
      }
      TiledAt(blocks, start, end, i);
      assert blocks[i].addr == block && !blocks[i].free;
      assert headers[block].size == blocks[i].size;
      Memset(block + HEADER_SIZE - start, headers[block].size - HEADER_SIZE);
      ptr := block + HEADER_SIZE;
    }

    /** The payload of block i is all zeros and no other byte has changed. */
    ghost predicate Cleared(i: nat, before: seq<u8>)
      reads this, bytes
    {
      && i < |blocks| && |before| == bytes.Length
      && forall j :: 0 <= j < bytes.Length ==>
           bytes[j] == if blocks[i].addr + HEADER_SIZE <= start + j < blocks[i].addr + blocks[i].size then 0
             else before[j]
    }

    /** The same from the user heap, which is not cleared. */
    method UMalloc(size: nat) returns (ptr: nat)
      requires Valid() && size + 27 < 0x1_0000_0000
      modifies this`headers, this`blocks
      ensures Valid()
      ensures ptr == 0 <==> size == 0 || FirstFit(old(blocks), TotalSize(size)) == |old(blocks)|
      ensures ptr == 0 <==>
        size == 0 || !exists j :: 0 <= j < |old(blocks)| && old(blocks)[j].free && old(blocks)[j].size >= size + 12
      ensures ptr == 0 ==> blocks == old(blocks)
      ensures ptr != 0 ==> ptr >= 12 && Took(old(blocks), TotalSize(size), ptr - 12, blocks)
    {
      if size <= 0 {
        return 0;
      }
      ghost var i := FirstFit(blocks, TotalSize(size));
      FirstFitIs(blocks, size, start, end);
      var block := Allocate(size);
      if block == 0 {
        return 0;
      }
      ptr := block + HEADER_SIZE;
    }

    /** One pass over the list: a free block absorbs free successors until none is left. */
    method MergeBlocks()
      requires Sound()
      modifies this`headers, this`blocks
      ensures Sound() && blocks == Merge(old(blocks))
    {
      ghost var bs := blocks;
      var current := firstBlock;
      ghost var k := 0;
      TiledAt(blocks, start, end, 0);
      assert blocks == [] + blocks[0..];
      while headers[current].next != 0
        invariant Sound() && k < |blocks| && current == blocks[k].addr
        invariant Merge(bs) == blocks[..k] + Merge(blocks[k..])
        decreases |blocks| - k
      {
        assert headers[current] == Header(blocks[k].size, blocks[k].free, NextOf(blocks, k));
        assert k + 1 < |blocks|;
        assert headers[blocks[k + 1].addr] == Header(blocks[k + 1].size, blocks[k + 1].free, NextOf(blocks, k + 1));
        var next := headers[current].next;
        if headers[current].free && headers[next].free {
          Absorb(current, k);
        } else {
          MergeStays(blocks, k);
          k := k + 1;
          current := next;
        }
        TiledAt(blocks, start, end, k);
      }
      assert headers[current] == Header(blocks[k].size, blocks[k].free, NextOf(blocks, k));
      if k + 1 < |blocks| {
        TiledAt(blocks, start, end, k + 1);
      }
      assert blocks == blocks[..k] + blocks[k..];
    }

    /** Block k takes over block k + 1. */
    method Absorb(current: nat, ghost k: nat)
      requires Sound() && k + 1 < |blocks| && current == blocks[k].addr && blocks[k].free && blocks[k + 1].free
      modifies this`headers, this`blocks
      ensures Sound() && |blocks| == |old(blocks)| - 1 && k < |blocks| && blocks[k].addr == current
      ensures blocks[..k] == old(blocks)[..k] && Merge(blocks[k..]) == Merge(old(blocks)[k..])
    {
      hide Tiled, Merge;
      ghost var bs := blocks;
      assert headers[current] == Header(bs[k].size, bs[k].free, NextOf(bs, k));
      assert headers[bs[k + 1].addr] == Header(bs[k + 1].size, bs[k + 1].free, NextOf(bs, k + 1));
      headers := headers[current := headers[current].(size := headers[current].size
        + headers[headers[current].next].size)];
      TiledApart(bs, start, end, k, k + 1);
      TiledAt(bs, start, end, k);
      headers := headers[current := headers[current].(next := headers[headers[current].next].next)];
      blocks := JoinedAt(bs, k);
      JoinedTiles(bs, k, start, end);
      forall j | 0 <= j < |blocks|
        ensures blocks[j].addr in headers
          && headers[blocks[j].addr] == Header(blocks[j].size, blocks[j].free, NextOf(blocks, j))
      {
        if j < k {
          TiledApart(bs, start, end, j, k);
          TiledAt(bs, start, end, j);
        } else if j > k {
          TiledApart(bs, start, end, k, j + 1);
          TiledAt(bs, start, end, k);
          assert blocks[j] == bs[j + 1] && NextOf(blocks, j) == NextOf(bs, j + 1);
        }
      }
    }

    static function JoinedAt(bs: seq<Block>, k: nat): (r: seq<Block>)
      requires k + 1 < |bs|
      ensures |r| == |bs| - 1 && r[..k] == bs[..k] && r[k] == Joined(bs[k], bs[k + 1])
      ensures forall j :: k < j < |r| ==> r[j] == bs[j + 1]
    {
      bs[..k] + [Joined(bs[k], bs[k + 1])] + bs[k + 2..]
    }

    static lemma JoinedTiles(bs: seq<Block>, k: nat, start: nat, end: nat)
      requires Tiled(bs, start, end) && k + 1 < |bs| && bs[k].free && bs[k + 1].free
      ensures Tiled(JoinedAt(bs, k), start, end) && Merge(JoinedAt(bs, k)[k..]) == Merge(bs[k..])
    {
      assert bs == bs[..k] + bs[k..];
      var mid := TiledSplit(bs[..k], bs[k..], start, end);
      var m := [Joined(bs[k], bs[k + 1])] + bs[k + 2..];
      assert bs[k..][1..] == bs[k + 1..] && bs[k + 1..][1..] == bs[k + 2..];
      assert m[1..] == bs[k + 2..];
      TiledJoin(bs[..k], m, start, mid, end);
      assert JoinedAt(bs, k) == bs[..k] + m && JoinedAt(bs, k)[k..] == m;
      assert bs[k..][2..] == bs[k + 2..];
    }

    static lemma MergeStays(bs: seq<Block>, k: nat)
      requires k + 1 < |bs| && !(bs[k].free && bs[k + 1].free)
      ensures bs[..k] + Merge(bs[k..]) == bs[..k + 1] + Merge(bs[k + 1..])
    {
      assert bs[k..][1..] == bs[k + 1..];
      assert bs[..k] + [bs[k]] == bs[..k + 1];
    }

    /** Gives a live payload back. NULL is ignored. */
    method KFree(ptr: nat, ghost i: nat)
      requires Valid()
      requires ptr != 0 ==> i < |blocks| && !blocks[i].free && ptr == blocks[i].addr + HEADER_SIZE
      modifies this`headers, this`blocks
      ensures Valid()
      ensures blocks == if ptr == 0 then old(blocks) else Released(old(blocks), i)
    {
      if ptr == 0 {
        return;
      }
      var block := ptr - HEADER_SIZE;
      ghost var bs := blocks;
      SetFree(block, true, i);
      MergeBlocks();
      ReleasedKeeps(bs, i, start, end);
    }

    /** The list holds each live pointer once and nothing else. */
    static ghost predicate Tracks(live: seq<nat>, bs: seq<Block>) {
      && (forall p :: p in live <==> Live(bs, p))
      && (forall j, k :: 0 <= j < k < |live| ==> live[j] != live[k])
    }

    /** What a request does: the first block that is large enough is taken, or nothing when there is none;
        the k-th pointer is given back, or nothing when there is none. */
    static ghost predicate Served(r: Request, live: seq<nat>, bs: seq<Block>, now: seq<nat>, after: seq<Block>) {
      match r
      case Take(size) =>
        var i := FirstFit(bs, TotalSize(size));
        if size == 0 || size + 27 >= 0x1_0000_0000 || i >= |bs| then now == live && after == bs
        else now == live + [bs[i].addr + HEADER_SIZE] && after == Allocated(bs, i, TotalSize(size))
      case Give(k) =>
        if k >= |live| then now == live && after == bs
        else
          && now == live[..k] + live[k + 1..]
          && exists i :: 0 <= i < |bs| && bs[i].addr + HEADER_SIZE == live[k] && after == Released(bs, i)
    }

    method ServeTake(size: nat, live: seq<nat>) returns (now: seq<nat>)
      requires Valid() && Tracks(live, blocks)
      modifies this`headers, this`blocks, bytes
      ensures Valid() && Tracks(now, blocks) && Served(Take(size), live, old(blocks), now, blocks)
    {
      hide Tiled, Used, NoAdjacentFree, Tracks, Allocated, Linked;
      now := live;
      if size + 27 < 0x1_0000_0000 {
        ghost var bs := blocks;
        var p := KMalloc(size);
        if p != 0 {
          Taken(live, bs, size, start, end);
          now := live + [p];
        }
      }
    }

    method ServeGive(k: nat, live: seq<nat>) returns (now: seq<nat>)
      requires Valid() && Tracks(live, blocks)
      modifies this`headers, this`blocks
      ensures Valid() && Tracks(now, blocks) && Served(Give(k), live, old(blocks), now, blocks)
    {
      hide Tiled, Used, NoAdjacentFree, Released, Linked, Live, Tracks;
      now := live;
      if k < |live| {
        TrackedLive(live, blocks, k);
        ghost var i := LiveIndex(blocks, live[k]);
        Given(live, k, blocks, i, start, end);
        KFree(live[k], i);
        now := live[..k] + live[k + 1..];
      }
    }

    static lemma TrackedLive(live: seq<nat>, bs: seq<Block>, k: nat)
      requires Tracks(live, bs) && k < |live|
      ensures Live(bs, live[k])
    {
    }

    /** One request. */
    method Serve(r: Request, live: seq<nat>) returns (now: seq<nat>)
      requires Valid() && Tracks(live, blocks)
      modifies this`headers, this`blocks, bytes
      ensures Valid() && Tracks(now, blocks) && Served(r, live, old(blocks), now, blocks)
    {
      hide Valid, Tracks, Served;
      match r {
        case Take(size) => now := ServeTake(size, live);
        case Give(k) => now := ServeGive(k, live);
      }
    }

    /** Any run of requests: the row stays valid, exactly the pointers not given back are live, and when
        there are none the heap is again the one block it began with. */
    method Run(rs: seq<Request>) returns (live: seq<nat>)
      requires Valid() && Used(blocks) == []
      modifies this`headers, this`blocks, bytes
      ensures Valid() && Tracks(live, blocks)
      ensures live == [] ==> blocks == [Block(start, end - start, true)]
    {
      hide Tiled, Used, NoAdjacentFree;
      live := [];
      StartsTracked(blocks);
      for n := 0 to |rs|
        invariant Valid() && Tracks(live, blocks)
      {
        live := Serve(rs[n], live);
      }
      if live == [] {
        NoneLive(blocks);
        NothingLive(blocks, start, end);
      }
    }

    static lemma StartsTracked(bs: seq<Block>)
      requires Used(bs) == []
      ensures Tracks([], bs)
    {
      forall p ensures !Live(bs, p) {
        LiveIsUsed(bs, p);
      }
    }

    static lemma Taken(live: seq<nat>, bs: seq<Block>, size: nat, start: nat, end: nat)
      requires Tracks(live, bs) && Tiled(bs, start, end) && FirstFit(bs, TotalSize(size)) < |bs|
      ensures var i := FirstFit(bs, TotalSize(size));
        Tracks(live + [bs[i].addr + HEADER_SIZE], Allocated(bs, i, TotalSize(size)))
    {
      var i := FirstFit(bs, TotalSize(size));
      forall p ensures Live(Allocated(bs, i, TotalSize(size)), p) <==> p in live + [bs[i].addr + HEADER_SIZE] {
        AllocatedLive(bs, i, TotalSize(size), start, end, p);
      }
      AllocatedLive(bs, i, TotalSize(size), start, end, 0);
    }

    static lemma Given(live: seq<nat>, k: nat, bs: seq<Block>, i: nat, start: nat, end: nat)
      requires Tracks(live, bs) && k < |live| && Tiled(bs, start, end) && i < |bs| && !bs[i].free
      requires live[k] == bs[i].addr + HEADER_SIZE
      ensures Tracks(live[..k] + live[k + 1..], Released(bs, i))
    {
      var rest := live[..k] + live[k + 1..];
      forall p ensures Live(Released(bs, i), p) <==> p in rest {
        ReleasedLive(bs, i, start, end, p);
        assert p in rest <==> p in live && p != live[k] by {
          assert live == live[..k] + [live[k]] + live[k + 1..];
        }
      }
    }
  }

  method InitKernelHeap() returns (h: Heap)
    ensures h.Valid() && h.start == HEAP_PHYSICAL_START && h.blocks == [Block(HEAP_PHYSICAL_START, 0x0080_0000, true)]
  {
    h := new Heap(HEAP_PHYSICAL_START, HEAP_PHYSICAL_END);
  }

  method InitUserHeap() returns (h: Heap)
    ensures h.Valid() && h.start == USER_HEAP_START && h.blocks == [Block(USER_HEAP_START, 0x0040_0000, true)]
  {
    h := new Heap(USER_HEAP_START, USER_HEAP_END);
  }
}
